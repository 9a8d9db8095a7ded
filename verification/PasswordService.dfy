/** The password-change service as it runs: it appends to the log and sets passwords, and keeps no
    other state.

    `Valid` says that log and passwords are those of some run of `PasswordRequests`.  Each command is one
    step of such a run and keeps it. */
module PasswordService {
  import opened Options
  import opened Strings
  import opened PasswordRequests

  class Service {
    var log: seq<LogRow>
    var passwordsSet: seq<string>
    /** What the authentication service holds, by user. */
    var passwords: map<string, string>
    /** The state machine the commands are meant to drive; nothing reads it. */
    ghost var machine: Records

    ghost function View(): Office
      reads this
    {
      Office(log, machine, passwordsSet, passwords)
    }

    ghost predicate Valid()
      reads this
    {
      Reached(View())
    }

    constructor ()
      ensures Valid() && View() == EMPTY_OFFICE
    {
      log, passwordsSet, machine, passwords := [], [], map[], map[];
      ReachFirst();
    }

    /** Another service sets a password: at sign-up, or by a reset. */
    method SetPassword(user: string, password: string)
      requires Valid()
      modifies `passwords
      ensures Valid() && View() == old(View()).(passwords := old(passwords)[user := password])
    {
      // A run records it with its next call, here one that is turned down.
      ghost var refused := Call(Activate(User(user, None, "", Employee, None), "", "", "", false), 0, "", false,
                                map[user := password]);
      ReachStep(View(), refused);
      passwords := passwords[user := password];
    }

    method LoadRequestLogs() returns (logs: seq<LogRow>)
      ensures logs == Loaded(log)
    {
      logs := if |log| > LOG_LIMIT then log[..LOG_LIMIT] else log;
    }

    /** Rebuilds the records row by row. */
    method BuildRecords(logs: seq<LogRow>) returns (records: Records)
      ensures records == Replay(logs)
    {
      records := map[];
      for i := 0 to |logs|
        invariant records == Replay(logs[..i])
      {
        assert logs[..i + 1][..i] == logs[..i];
        var row := logs[i];
        if row.action.Submitted? {
          records := ApplySubmission(records, row);
          continue;
        }
        var id := AsString(row.details.requestId);
        if id.None? { continue; }
        if id.value !in records { continue; }
        records := records[id.value := ApplyToExisting(records[id.value], row)];
      }
      assert logs[..|logs|] == logs;
    }

    /** Appends a row; a failed insert is swallowed. */
    method CreateLog(row: LogRow, stored: bool)
      modifies `log
      ensures log == if stored then old(log) + [row] else old(log)
    {
      if stored { log := log + [row]; }
    }

    method CreateRequest(user: User, reason: string, requestId: string, approvers: nat, now: int, logId: string,
                         stored: bool)
      returns (ok: bool)
      requires Valid() && CleanUser(user) && Clean(requestId) && requestId !in machine
      modifies this
      ensures Valid()
      ensures View() == Step(old(View()), Call(Create(user, reason, requestId, approvers), now, logId, stored, map[]))
      ensures ok <==> Accepts(Replay(Loaded(old(log))), Create(user, reason, requestId, approvers))
    {
      ReachStep(View(), Call(Create(user, reason, requestId, approvers), now, logId, stored, map[]));
      assert passwords + map[] == passwords;
      var compact := CompactText(Some(reason));
      if compact.None? { return false; }
      var target := TargetRole(user.role);
      if target.None? { return false; }
      if user.role.Employee? && Blank(user.branch) { return false; }
      var logs := LoadRequestLogs();
      var records := BuildRecords(logs);
      if HasPending(records, user.id) { return false; }
      if approvers == 0 { return false; }
      CreateLog(SubmissionRow(user, requestId, target.value, compact.value, now, logId), stored);
      if stored { machine := Drive(machine, Create(user, reason, requestId, approvers), now); }
      ok := true;
    }

    method ReviewRequest(reviewer: User, id: string, approve: bool, note: Option<string>, now: int, logId: string,
                         stored: bool)
      returns (ok: bool)
      requires Valid()
      modifies this
      ensures Valid()
      ensures View() == Step(old(View()), Call(Review(reviewer, id, approve, note), now, logId, stored, map[]))
      ensures ok <==> Accepts(Replay(Loaded(old(log))), Review(reviewer, id, approve, note))
    {
      ReachStep(View(), Call(Review(reviewer, id, approve, note), now, logId, stored, map[]));
      assert passwords + map[] == passwords;
      if reviewer.role.Employee? { return false; }
      var logs := LoadRequestLogs();
      var records := BuildRecords(logs);
      if id !in records { return false; }
      var existing := records[id];
      if !existing.status.Pending? || existing.targetRole != RoleName(reviewer.role) { return false; }
      if reviewer.role.Admin? && existing.requesterBranchId != reviewer.branch { return false; }
      CreateLog(RowOf(records, Review(reviewer, id, approve, note), now, logId), stored);
      if stored { machine := Drive(machine, Review(reviewer, id, approve, note), now); }
      ok := true;
    }

    /** The current password is checked against the one the user has, then the new one replaces it. */
    method ActivateRequest(user: User, id: string, current: string, replacement: string, taken: bool, now: int,
                           logId: string, stored: bool)
      returns (ok: bool)
      requires Valid()
      modifies this
      ensures Valid()
      ensures var c := Call(Activate(user, id, current, replacement, taken), now, logId, stored, map[]);
        View() == Step(old(View()), c) && (ok <==> Admits(old(View()), c))
    {
      ReachStep(View(), Call(Activate(user, id, current, replacement, taken), now, logId, stored, map[]));
      ok := WriteActivation(user, id, current, replacement, taken, now, logId, stored);
    }

    /** The checks and writes of an activation. */
    method WriteActivation(user: User, id: string, current: string, replacement: string, taken: bool, now: int,
                           logId: string, stored: bool)
      returns (ok: bool)
      modifies this
      ensures var c := Call(Activate(user, id, current, replacement, taken), now, logId, stored, map[]);
        View() == Step(old(View()), c) && (ok <==> Admits(old(View()), c))
    {
      assert passwords + map[] == passwords;
      var currentPassword, newPassword := CompactText(Some(current)), CompactText(Some(replacement));
      if currentPassword.None? || newPassword.None? || currentPassword == newPassword { return false; }
      var logs := LoadRequestLogs();
      var records := BuildRecords(logs);
      if id !in records || records[id].requesterUserId != user.id { return false; }
      if !records[id].status.Approved? || records[id].isActivated { return false; }
      if user.id !in passwords || passwords[user.id] != currentPassword.value { return false; }
      if !taken { return false; }
      passwords := passwords[user.id := newPassword.value];
      passwordsSet := passwordsSet + [id];
      CreateLog(RowOf(records, Activate(user, id, current, replacement, taken), now, logId), stored);
      if stored { machine := Drive(machine, Activate(user, id, current, replacement, taken), now); }
      ok := true;
    }
  }
}
