/** Password-change requests: an append-only log, the records rebuilt from it before every command,
    and the state machine those commands were meant to drive. */
module PasswordRequests {
  import opened Options
  import opened Strings

  /* ---------- the log ---------- */

  datatype LogAction = Submitted | Approval | Rejection | Activation

  datatype Details = Details(requestId: Field, requesterUserId: Field, requesterAuthId: Field, requesterEmail: Field,
                             requesterBranchId: Field, requesterRole: Field, targetRole: Field, reason: Field,
                             pendingPassword: Field, decision: Field, note: Field)

  datatype LogRow = LogRow(id: string, userId: Option<string>, branchId: Option<string>, action: LogAction,
                           details: Details, createdAt: int)

  /** Rows the query returns at most, oldest first. */
  const LOG_LIMIT: nat := 5000

  datatype Status = Pending | Approved | Rejected

  datatype Record = Record(id: string, requesterUserId: string, requesterAuthId: Option<string>,
      requesterEmail: Option<string>,
                           requesterBranchId: Option<string>, requesterRole: string, targetRole: string, reason: string,
                           status: Status, isActivated: bool, pendingPassword: Option<string>,
                           reviewNote: Option<string>,
                           reviewedBy: Option<string>, reviewedAt: Option<int>, createdAt: int, updatedAt: int)

  type Records = map<string, Record>

  /* ---------- rebuilding the records ---------- */

  function AsString(f: Field): Option<string> {
    if f.Text? && Trim(f.text) != "" then Some(Trim(f.text)) else None
  }

  function AsStatus(f: Field): Status {
    if f == Text("approved") then Approved else if f == Text("rejected") then Rejected else Status.Pending
  }

  function OrElse<T>(a: Option<T>, b: Option<T>): Option<T> { if a.Some? then a else b }

  predicate Blank(s: Option<string>) { s.None? || s.value == "" }

  function ApplySubmission(records: Records, log: LogRow): Records {
    var d := log.details;
    var requester := OrElse(AsString(d.requesterUserId), log.userId);
    var role := AsString(d.requesterRole);
    var target := AsString(d.targetRole);
    var reason := AsString(d.reason);
    if Blank(requester) || role.None? || target.None? || reason.None? then records
    else
      var id := OrElse(AsString(d.requestId), Some(log.id)).value;
      records[id := Record(id, requester.value, AsString(d.requesterAuthId), AsString(d.requesterEmail),
                           OrElse(AsString(d.requesterBranchId), log.branchId), role.value, target.value, reason.value,
                           Status.Pending, false, AsString(d.pendingPassword), None, None, None, log.createdAt,
                               log.createdAt)]
  }

  function ApplyToExisting(r: Record, log: LogRow): Record {
    var d := log.details;
    if log.action.Activation? then
      r.(isActivated := true, pendingPassword := None, updatedAt := log.createdAt,
         reviewNote := OrElse(AsString(d.note), OrElse(r.reviewNote, Some("Password updated successfully."))))
    else
      var byAction := Text(if log.action.Approval? then "approved" else "rejected");
      r.(status := AsStatus(if d.decision.Missing? then byAction else d.decision),
         pendingPassword := if log.action.Approval? then r.pendingPassword else None,
         isActivated := false, reviewNote := AsString(d.note), reviewedBy := log.userId,
             reviewedAt := Some(log.createdAt),
         updatedAt := log.createdAt)
  }

  function ApplyRow(records: Records, log: LogRow): Records {
    if log.action.Submitted? then ApplySubmission(records, log)
    else
      var id := AsString(log.details.requestId);
      if id.None? || id.value !in records then records
      else records[id.value := ApplyToExisting(records[id.value], log)]
  }

  function Replay(logs: seq<LogRow>): Records {
    if logs == [] then map[] else ApplyRow(Replay(logs[..|logs| - 1]), logs[|logs| - 1])
  }

  /** What a command can see of the log. */
  function Loaded(log: seq<LogRow>): seq<LogRow> { if |log| <= LOG_LIMIT then log else log[..LOG_LIMIT] }

  /* ---------- commands ---------- */

  datatype Role = SuperAdmin | Admin | Employee

  function RoleName(r: Role): string {
    match r
    case SuperAdmin => "super_admin"
    case Admin => "admin"
    case Employee => "employee"
  }

  function TargetRole(r: Role): Option<Role> {
    match r
    case Employee => Some(Admin)
    case Admin => Some(SuperAdmin)
    case SuperAdmin => None
  }

  datatype User = User(id: string, authId: Option<string>, email: string, role: Role, branch: Option<string>)

  /** `approvers`: how many users may approve.  `taken`: the authentication service takes the new password. */
  datatype Command =
    | Create(user: User, reason: string, requestId: string, approvers: nat)
    | Review(reviewer: User, id: string, approve: bool, note: Option<string>)
    | Activate(user: User, id: string, current: string, replacement: string, taken: bool)

  function CompactText(s: Option<string>): (r: Option<string>)
    ensures r.Some? ==> Clean(r.value)
  {
    if s.Some? && Trim(s.value) != "" then
      TrimIsClean(s.value);
      Some(Trim(s.value))
    else None
  }

  predicate HasPending(records: Records, user: string) {
    exists id | id in records :: records[id].requesterUserId == user && records[id].status.Pending?
  }

  /** The guard of a command, on the records it rebuilt. */
  predicate Accepts(records: Records, c: Command) {
    match c
    case Create(user, reason, _, approvers) =>
      && CompactText(Some(reason)).Some? && TargetRole(user.role).Some? && (user.role.Employee? ==> !Blank(user.branch))
      && !HasPending(records, user.id) && approvers > 0
    case Review(reviewer, id, _, _) =>
      && !reviewer.role.Employee? && id in records && records[id].status.Pending?
      && records[id].targetRole == RoleName(reviewer.role)
      && (reviewer.role.Admin? ==> records[id].requesterBranchId == reviewer.branch)
    case Activate(user, id, current, replacement, _) =>
      var old', new' := CompactText(Some(current)), CompactText(Some(replacement));
      && old'.Some? && new'.Some? && old' != new' && id in records && records[id].requesterUserId == user.id
      && records[id].status.Approved? && !records[id].isActivated
  }

  /** An activation presents the password its user has now, and the new one is taken. */
  predicate Verified(passwords: map<string, string>, c: Command) {
    c.Activate? ==>
      c.user.id in passwords && CompactText(Some(c.current)) == Some(passwords[c.user.id]) && c.taken
  }

  function TextOf(s: Option<string>): Field { if s.Some? then Text(s.value) else Missing }

  const NOTHING := Details(Missing, Missing, Missing, Missing, Missing, Missing, Missing, Missing, Missing, Missing,
      Missing)

  function SubmissionRow(user: User, requestId: string, target: Role, reason: string, now: int, logId: string): LogRow {
    LogRow(logId, Some(user.id), user.branch, Submitted,
           NOTHING.(requestId := Text(requestId), requesterUserId := Text(user.id),
               requesterAuthId := TextOf(user.authId),
                    requesterEmail := Text(user.email), requesterBranchId := TextOf(user.branch),
                    requesterRole := Text(RoleName(user.role)), targetRole := Text(RoleName(target)),
                        reason := Text(reason)), now)
  }

  /** The row a command appends. */
  function RowOf(records: Records, c: Command, now: int, logId: string): LogRow
    requires Accepts(records, c)
  {
    match c
    case Create(user, reason, requestId, _) =>
      SubmissionRow(user, requestId, TargetRole(user.role).value, CompactText(Some(reason)).value, now, logId)
    case Review(reviewer, id, approve, note) =>
      LogRow(logId, Some(reviewer.id), reviewer.branch, if approve then Approval else Rejection,
             NOTHING.(requestId := Text(records[id].id), decision := Text(if approve then "approved" else "rejected"),
                      note := TextOf(CompactText(note)), requesterUserId := Text(records[id].requesterUserId),
                      requesterBranchId := TextOf(records[id].requesterBranchId),
                          targetRole := Text(records[id].targetRole)), now)
    case Activate(user, id, _, _, _) =>
      LogRow(logId, Some(user.id), user.branch, Activation,
             NOTHING.(requestId := Text(records[id].id), note := Text("Password updated successfully.")), now)
  }

  /* ---------- the state machine, without a log ---------- */

  function NewRecord(user: User, requestId: string, target: Role, reason: string, now: int): Record {
    Record(requestId, user.id, user.authId, Some(user.email), user.branch, RoleName(user.role), RoleName(target),
        reason,
           Status.Pending, false, None, None, None, None, now, now)
  }

  function Drive(m: Records, c: Command, now: int): Records {
    match c
    case Create(user, reason, requestId, _) =>
      if TargetRole(user.role).None? || CompactText(Some(reason)).None? then m
      else m[requestId := NewRecord(user, requestId, TargetRole(user.role).value, CompactText(Some(reason)).value, now)]
    case Review(reviewer, id, approve, note) =>
      if id !in m then m
      else m[id := m[id].(status := if approve then Approved else Rejected, isActivated := false,
                          pendingPassword := if approve then m[id].pendingPassword else None,
                          reviewNote := CompactText(note), reviewedBy := Some(reviewer.id), reviewedAt := Some(now),
                              updatedAt := now)]
    case Activate(_, id, _, _, _) =>
      if id !in m then m
      else m[id := m[id].(isActivated := true, pendingPassword := None,
          reviewNote := Some("Password updated successfully."), updatedAt := now)]
  }

  /** The log, the machine the accepted and logged commands drive, the requests for which a new password
      was set, in order, and the password each user has. */
  datatype Office = Office(log: seq<LogRow>, machine: Records, passwordsSet: seq<string>,
      passwords: map<string, string>)

  /** A command and what the environment decides: the clock, the row's id, whether the row was stored (the
      log service swallows a failed insert, and an activation whose new session cannot be opened ends
      before it), and the passwords that other services set since the last call. */
  datatype Call = Call(command: Command, now: int, logId: string, stored: bool, elsewhere: map<string, string>)

  /** The command passes its guard. */
  predicate Admits(o: Office, x: Call) {
    Accepts(Replay(Loaded(o.log)), x.command) && Verified(o.passwords + x.elsewhere, x.command)
  }

  /** The passwords after an accepted command. */
  function PasswordsAfter(passwords: map<string, string>, c: Command): map<string, string> {
    if c.Activate? && CompactText(Some(c.replacement)).Some?
    then passwords[c.user.id := CompactText(Some(c.replacement)).value] else passwords
  }

  function Step(o: Office, x: Call): Office {
    var records := Replay(Loaded(o.log));
    var passwords := o.passwords + x.elsewhere;
    if !Admits(o, x) then o.(passwords := passwords)
    else Office(if x.stored then o.log + [RowOf(records, x.command, x.now, x.logId)] else o.log,
                if x.stored then Drive(o.machine, x.command, x.now) else o.machine,
                if x.command.Activate? then o.passwordsSet + [x.command.id] else o.passwordsSet,
                PasswordsAfter(passwords, x.command))
  }

  predicate CleanUser(u: User) {
    Clean(u.id) && Clean(u.email) && (u.authId.Some? ==> Clean(u.authId.value))
        && (u.branch.Some? ==> Clean(u.branch.value))
  }

  /** What the environment guarantees: user data without surrounding space, and new random ids. */
  predicate Allowed(o: Office, x: Call) {
    x.command.Create? ==> CleanUser(x.command.user) && Clean(x.command.requestId) && x.command.requestId !in o.machine
  }

  const EMPTY_OFFICE := Office([], map[], [], map[])

  function Run(trace: seq<Call>): Office
    decreases |trace|, 1
  {
    if trace == [] then EMPTY_OFFICE else AfterLast(trace)
  }

  function AfterLast(trace: seq<Call>): Office
    requires trace != []
    decreases |trace|, 0
  {
    Step(Run(trace[..|trace| - 1]), trace[|trace| - 1])
  }

  predicate AllowedRun(trace: seq<Call>)
    decreases |trace|, 1
  {
    trace == [] || LastAllowed(trace)
  }

  predicate LastAllowed(trace: seq<Call>)
    requires trace != []
    decreases |trace|, 0
  {
    AllowedRun(trace[..|trace| - 1]) && Allowed(Run(trace[..|trace| - 1]), trace[|trace| - 1])
  }

  /** The last call of a run. */
  lemma LastCall(trace: seq<Call>)
    requires trace != []
    ensures var (first, x) := (trace[..|trace| - 1], trace[|trace| - 1]);
      Run(trace) == Step(Run(first), x) && (AllowedRun(trace) <==> AllowedRun(first) && Allowed(Run(first), x))
  {
    assert Run(trace) == AfterLast(trace);
    assert AllowedRun(trace) <==> LastAllowed(trace);
  }

  ghost predicate Reached(o: Office) { exists trace :: AllowedRun(trace) && o == Run(trace) }

  lemma ReachFirst()
    ensures Reached(EMPTY_OFFICE)
  {
    assert AllowedRun([]) && EMPTY_OFFICE == Run([]);
  }

  lemma ReachStep(o: Office, x: Call)
    requires Reached(o) && Allowed(o, x)
    ensures Reached(Step(o, x))
  {
    var trace :| AllowedRun(trace) && o == Run(trace);
    assert (trace + [x])[..|trace|] == trace;
    LastCall(trace + [x]);
    assert AllowedRun(trace + [x]);
  }
}
