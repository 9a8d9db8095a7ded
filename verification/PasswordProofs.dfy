/** What holds of the log and the state machine in every run of the password-change commands. */
module PasswordProofs {
  import opened Options
  import opened Strings
  import opened PasswordRequests

  /* ---------- replay ---------- */

  lemma {:induction false} ReplayIds(log: seq<LogRow>, id: string)
    requires id in Replay(log)
    ensures Replay(log)[id].id == id
  {
    var n := |log| - 1;
    if id in Replay(log[..n]) { ReplayIds(log[..n], id); }
  }

  lemma ReplayAppend(log: seq<LogRow>, row: LogRow)
    ensures Replay(log + [row]) == ApplyRow(Replay(log), row)
  {
    assert (log + [row])[..|log|] == log;
  }

  lemma LastApart<T>(a: seq<T>, b: seq<T>)
    requires b != []
    ensures a + b == (a + b[..|b| - 1]) + [b[|b| - 1]]
  {
  }

  lemma RowKeepsIds(log: seq<LogRow>, row: LogRow, id: string)
    requires id in Replay(log)
    ensures id in Replay(log + [row])
  {
    ReplayAppend(log, row);
  }

  lemma {:induction false} ReplayGrows(log: seq<LogRow>, rest: seq<LogRow>, id: string)
    requires id in Replay(log)
    ensures id in Replay(log + rest)
  {
    if rest == [] {
      assert log + rest == log;
    } else {
      var n := |rest| - 1;
      LastApart(log, rest);
      ReplayGrows(log, rest[..n], id);
      RowKeepsIds(log + rest[..n], rest[n], id);
    }
  }

  /** A review or activation row with no id, or an id no earlier row submitted. */
  predicate IsStray(earlier: Records, row: LogRow) {
    !row.action.Submitted? && (AsString(row.details.requestId).None?
        || AsString(row.details.requestId).value !in earlier)
  }

  /** A stray row changes nothing, whatever comes after it. */
  lemma {:induction false} StrayRowIgnored(log: seq<LogRow>, row: LogRow, rest: seq<LogRow>)
    requires IsStray(Replay(log), row)
    ensures Replay(log + [row] + rest) == Replay(log + rest)
  {
    if rest == [] {
      ReplayAppend(log, row);
      assert log + [row] + rest == log + [row] && log + rest == log;
    } else {
      var n := |rest| - 1;
      LastApart(log + [row], rest);
      LastApart(log, rest);
      StrayRowIgnored(log, row, rest[..n]);
      ReplayAppend(log + [row] + rest[..n], rest[n]);
      ReplayAppend(log + rest[..n], rest[n]);
    }
  }

  /* ---------- the invariant ---------- */

  ghost predicate Faithful(o: Office) {
    Replay(o.log) == o.machine && forall id | id in o.machine :: Clean(id)
  }

  /** No user has two pending requests. */
  predicate OnePending(m: Records) {
    forall i, j | i in m && j in m && m[i].status.Pending? && m[j].status.Pending?
        && m[i].requesterUserId == m[j].requesterUserId :: i == j
  }

  predicate ActivatedWereApproved(m: Records) {
    forall id | id in m && m[id].isActivated :: m[id].status.Approved?
  }

  /** `id` shows that `m` has moved on from `seen` in a way no accepted command takes back. */
  predicate MovedOn(seen: Records, m: Records, id: string) {
    id in m &&
    (id !in seen
     || (seen[id].status.Pending? && !m[id].status.Pending?)
     || (seen[id].status.Approved? && !seen[id].isActivated && m[id].isActivated))
  }

  ghost predicate Inv(o: Office) {
    && Faithful(o)
    && (|o.log| <= LOG_LIMIT ==> OnePending(o.machine) && ActivatedWereApproved(o.machine))
    && (|o.log| > LOG_LIMIT ==> exists id :: MovedOn(Replay(Loaded(o.log)), o.machine, id))
  }

  /** What a command sees is part of what the log says. */
  lemma VisibleIds(o: Office, id: string)
    requires Faithful(o) && id in Replay(Loaded(o.log))
    ensures id in o.machine && Replay(Loaded(o.log))[id].id == id && Clean(id)
  {
    ReplayIds(Loaded(o.log), id);
    if |o.log| > LOG_LIMIT {
      assert o.log == Loaded(o.log) + o.log[LOG_LIMIT..];
      ReplayGrows(Loaded(o.log), o.log[LOG_LIMIT..], id);
    }
  }

  /** A field that reads back as it was written. */
  predicate Kept(s: string) { AsString(Text(s)) == Some(s) }

  lemma CleanIsKept(s: string)
    requires Clean(s)
    ensures Kept(s)
  {
    CleanIsTrimmed(s);
  }

  lemma RoleIsKept(r: Role)
    ensures Kept(RoleName(r))
  {
    CleanIsKept(RoleName(r));
  }

  predicate KeptUser(u: User) {
    Kept(u.id) && u.id != "" && Kept(u.email) && (u.authId.Some? ==> Kept(u.authId.value))
        && (u.branch.Some? ==> Kept(u.branch.value))
  }

  lemma UserIsKept(u: User)
    requires CleanUser(u)
    ensures KeptUser(u)
  {
    CleanIsKept(u.id);
    CleanIsKept(u.email);
    if u.authId.Some? { CleanIsKept(u.authId.value); }
    if u.branch.Some? { CleanIsKept(u.branch.value); }
  }

  lemma SubmissionMeans(m: Records, user: User, requestId: string, target: Role, reason: string, now: int,
                        logId: string)
    requires KeptUser(user) && Kept(requestId) && Kept(reason)
    ensures ApplySubmission(m, SubmissionRow(user, requestId, target, reason, now, logId))
        == m[requestId := NewRecord(user, requestId, target, reason, now)]
  {
    RoleIsKept(user.role);
    RoleIsKept(target);
    var d := SubmissionRow(user, requestId, target, reason, now, logId).details;
    assert AsString(d.requesterAuthId) == user.authId
        && OrElse(AsString(d.requesterBranchId), user.branch) == user.branch;
  }

  lemma CreateRowMeans(m: Records, seen: Records, c: Command, now: int, logId: string)
    requires c.Create? && KeptUser(c.user) && Kept(c.requestId) && Accepts(seen, c)
        && Kept(CompactText(Some(c.reason)).value)
    ensures ApplyRow(m, RowOf(seen, c, now, logId)) == Drive(m, c, now)
  {
    SubmissionMeans(m, c.user, c.requestId, TargetRole(c.user.role).value, CompactText(Some(c.reason)).value, now,
        logId);
  }

  lemma ReviewRowMeans(m: Records, seen: Records, c: Command, now: int, logId: string)
    requires c.Review? && Accepts(seen, c) && seen[c.id].id == c.id && Clean(c.id) && c.id in m
    ensures ApplyRow(m, RowOf(seen, c, now, logId)) == Drive(m, c, now)
  {
    CleanIsTrimmed(c.id);
    if CompactText(c.note).Some? { CleanIsTrimmed(CompactText(c.note).value); }
  }

  lemma ActivateRowMeans(m: Records, seen: Records, c: Command, now: int, logId: string)
    requires c.Activate? && Accepts(seen, c) && seen[c.id].id == c.id && Clean(c.id) && c.id in m
    ensures ApplyRow(m, RowOf(seen, c, now, logId)) == Drive(m, c, now)
  {
    CleanIsTrimmed(c.id);
    CleanIsTrimmed("Password updated successfully.");
  }

  /** An accepted command writes the row that replays as what it meant. */
  lemma RowMeansCommand(o: Office, x: Call)
    requires Faithful(o) && Allowed(o, x) && Accepts(Replay(Loaded(o.log)), x.command)
    ensures ApplyRow(o.machine, RowOf(Replay(Loaded(o.log)), x.command, x.now, x.logId))
        == Drive(o.machine, x.command, x.now)
  {
    var seen := Replay(Loaded(o.log));
    if x.command.Create? {
      UserIsKept(x.command.user);
      CleanIsKept(x.command.requestId);
      CleanIsKept(CompactText(Some(x.command.reason)).value);
      CreateRowMeans(o.machine, seen, x.command, x.now, x.logId);
    } else {
      VisibleIds(o, x.command.id);
      if x.command.Review? { ReviewRowMeans(o.machine, seen, x.command, x.now, x.logId); }
      else { ActivateRowMeans(o.machine, seen, x.command, x.now, x.logId); }
    }
  }

  lemma StepFaithful(o: Office, x: Call)
    requires Faithful(o) && Allowed(o, x)
    ensures Faithful(Step(o, x))
  {
    var records := Replay(Loaded(o.log));
    if Admits(o, x) && x.stored {
      RowMeansCommand(o, x);
      ReplayAppend(o.log, RowOf(records, x.command, x.now, x.logId));
      if !x.command.Create? { VisibleIds(o, x.command.id); }
    }
  }

  lemma StepBelowLimit(o: Office, x: Call)
    requires Inv(o) && Allowed(o, x) && |o.log| <= LOG_LIMIT
    ensures OnePending(Step(o, x).machine) && ActivatedWereApproved(Step(o, x).machine)
    ensures Step(o, x).machine != o.machine ==> exists id :: MovedOn(o.machine, Step(o, x).machine, id)
    ensures |Step(o, x).log| != |o.log| ==> exists id :: MovedOn(o.machine, Step(o, x).machine, id)
  {
    var o' := Step(o, x);
    if Admits(o, x) && x.stored {
      assert MovedOn(o.machine, o'.machine, if x.command.Create? then x.command.requestId else x.command.id);
    }
  }

  lemma StepPastLimit(o: Office, x: Call)
    requires Inv(o) && Allowed(o, x) && |o.log| > LOG_LIMIT
    ensures Loaded(Step(o, x).log) == Loaded(o.log)
    ensures exists id :: MovedOn(Replay(Loaded(o.log)), Step(o, x).machine, id)
  {
    var seen := Replay(Loaded(o.log));
    var id :| MovedOn(seen, o.machine, id);
    assert MovedOn(seen, Step(o, x).machine, id);
  }

  /** What is seen of a log that has just become too long is what it was before. */
  lemma StepSees(o: Office, x: Call)
    ensures |Step(o, x).log| > LOG_LIMIT ==> |o.log| >= LOG_LIMIT && Loaded(Step(o, x).log) == Loaded(o.log)
  {
  }

  lemma StepKeepsInv(o: Office, x: Call)
    requires Inv(o) && Allowed(o, x)
    ensures Inv(Step(o, x))
  {
    var o' := Step(o, x);
    assert Faithful(o') by { StepFaithful(o, x); }
    StepSees(o, x);
    if |o.log| > LOG_LIMIT {
      StepPastLimit(o, x);
      assert |o'.log| > LOG_LIMIT;
    } else {
      StepBelowLimit(o, x);
    }
  }

  lemma {:induction false} RunKeepsInv(trace: seq<Call>)
    requires AllowedRun(trace)
    ensures Inv(Run(trace))
  {
    if trace != [] {
      var n := |trace| - 1;
      LastCall(trace);
      RunKeepsInv(trace[..n]);
      StepKeepsInv(Run(trace[..n]), trace[n]);
    }
  }

  /* ---------- main results ---------- */

  /** What the commands rebuild is the state machine exactly as long as the log fits the query. */
  lemma RebuiltIsMachineExactly(trace: seq<Call>)
    requires AllowedRun(trace)
    ensures Replay(Loaded(Run(trace).log)) == Run(trace).machine <==> |Run(trace).log| <= LOG_LIMIT
  {
    RunKeepsInv(trace);
    var o := Run(trace);
    if |o.log| > LOG_LIMIT {
      var id :| MovedOn(Replay(Loaded(o.log)), o.machine, id);
    }
  }

  lemma RequestsWellKept(trace: seq<Call>)
    requires AllowedRun(trace) && |Run(trace).log| <= LOG_LIMIT
    ensures OnePending(Run(trace).machine) && ActivatedWereApproved(Run(trace).machine)
  {
    RunKeepsInv(trace);
  }

  /** `again` does what `c` did: the same command, or another activation of the same request. */
  predicate SameDeed(c: Command, again: Command) {
    if c.Activate? then again.Activate? && again.user == c.user && again.id == c.id else again == c
  }

  /** The machine a command has driven does not accept its deed again. */
  lemma DrivenOnce(m: Records, c: Command, again: Command, now: int)
    requires Accepts(m, c) && SameDeed(c, again)
    ensures !Accepts(Drive(m, c, now), again)
  {
    if c.Create? { assert c.requestId in Drive(m, c, now); }
  }

  /** The row of an accepted command is not among those the next one reads: it was not stored, or the log
      was full. */
  predicate Unseen(o: Office, x: Call) { !x.stored || |o.log| >= LOG_LIMIT }

  /** `again` presents the password `c` set, and another one that is taken. */
  predicate Renews(c: Command, again: Command)
    requires c.Activate? && again.Activate?
  {
    var set', new' := CompactText(Some(c.replacement)), CompactText(Some(again.replacement));
    CompactText(Some(again.current)) == set' && new'.Some? && new' != set' && again.taken
  }

  lemma DeedAgain(trace: seq<Call>, x: Call, again: Command)
    requires AllowedRun(trace) && Allowed(Run(trace), x) && Admits(Run(trace), x) && SameDeed(x.command, again)
    ensures Unseen(Run(trace), x) ==> Loaded(Step(Run(trace), x).log) == Loaded(Run(trace).log)
    ensures !Unseen(Run(trace), x) ==> !Accepts(Replay(Loaded(Step(Run(trace), x).log)), again)
  {
    var o := Run(trace);
    var o' := Step(o, x);
    if !Unseen(o, x) {
      assert Faithful(o) by { RunKeepsInv(trace); }
      assert Faithful(o') by { StepFaithful(o, x); }
      DrivenOnce(o.machine, x.command, again, x.now);
      assert o'.machine == Drive(o.machine, x.command, x.now);
    }
  }

  /** After an activation another one of the same request is accepted exactly when the first cannot be seen
      and the second presents the password the first one set, and a different one to take its place. */
  lemma FurtherActivationExactly(trace: seq<Call>, x: Call, y: Call)
    requires AllowedRun(trace) && Allowed(Run(trace), x) && Admits(Run(trace), x) && x.command.Activate?
    requires SameDeed(x.command, y.command) && y.elsewhere == map[]
    ensures Admits(Step(Run(trace), x), y) <==> Unseen(Run(trace), x) && Renews(x.command, y.command)
  {
    var o' := Step(Run(trace), x);
    DeedAgain(trace, x, y.command);
    assert o'.passwords + y.elsewhere == o'.passwords;
  }

  /** So the very same activation is never accepted twice. */
  lemma SameActivationRefused(trace: seq<Call>, x: Call, y: Call)
    requires AllowedRun(trace) && Allowed(Run(trace), x) && Admits(Run(trace), x) && x.command.Activate?
    requires y.command == x.command && y.elsewhere == map[]
    ensures !Admits(Step(Run(trace), x), y)
  {
    FurtherActivationExactly(trace, x, y);
  }

  /** A password that differs from `s`. */
  lemma OtherPassword(s: string)
    requires Clean(s)
    ensures CompactText(Some(s)) == Some(s) && CompactText(Some(s + "x")) == Some(s + "x") && s + "x" != s
  {
    CleanIsTrimmed(s);
    assert (s + "x")[|s|] == 'x' && (s + "x")[0] == s[0];
    CleanIsTrimmed(s + "x");
  }

  /** An accepted command can be repeated exactly when its row cannot be seen. */
  lemma RepeatAcceptedExactly(trace: seq<Call>, x: Call)
    requires AllowedRun(trace) && Allowed(Run(trace), x) && Admits(Run(trace), x)
    ensures (exists y: Call :: SameDeed(x.command, y.command) && y.elsewhere == map[] && Admits(Step(Run(trace), x), y))
            <==> Unseen(Run(trace), x)
  {
    var o := Run(trace);
    if Unseen(o, x) {
      var y := x.(elsewhere := map[]);
      if x.command.Activate? {
        var set' := CompactText(Some(x.command.replacement)).value;
        OtherPassword(set');
        y := y.(command := x.command.(current := set', replacement := set' + "x", taken := true));
        FurtherActivationExactly(trace, x, y);
      } else {
        DeedAgain(trace, x, x.command);
      }
      assert SameDeed(x.command, y.command) && Admits(Step(o, x), y);
    }
    forall y: Call | SameDeed(x.command, y.command) && Admits(Step(o, x), y) ensures Unseen(o, x) {
      DeedAgain(trace, x, y.command);
    }
  }

  function Count(ids: seq<string>, id: string): nat {
    if ids == [] then 0 else Count(ids[..|ids| - 1], id) + (if ids[|ids| - 1] == id then 1 else 0)
  }

  /** Every activation of the run was logged. */
  predicate ActivationsStored(trace: seq<Call>) { forall x | x in trace && x.command.Activate? :: x.stored }

  /** The requests for which a password was set are the activated ones, each once. */
  ghost predicate SetOnce(o: Office) {
    forall id :: Count(o.passwordsSet, id) == if id in o.machine && o.machine[id].isActivated then 1 else 0
  }

  lemma StepSetsOnce(o: Office, x: Call)
    requires Inv(o) && Allowed(o, x) && SetOnce(o) && |o.log| <= LOG_LIMIT && (x.command.Activate? ==> x.stored)
    ensures SetOnce(Step(o, x))
  {
    var o' := Step(o, x);
    if Admits(o, x) && x.command.Activate? {
      assert o'.passwordsSet[..|o.passwordsSet|] == o.passwordsSet;
    }
  }

  lemma {:induction false} LogGrows(trace: seq<Call>)
    requires trace != []
    ensures |Run(trace[..|trace| - 1]).log| <= |Run(trace).log|
  {
    LastCall(trace);
  }

  /** While the log fits the query and every activation is logged, a request sets a password at most
      once, and only when it was approved. */
  lemma {:induction false} ActivatedAtMostOnce(trace: seq<Call>)
    requires AllowedRun(trace) && |Run(trace).log| <= LOG_LIMIT && ActivationsStored(trace)
    ensures SetOnce(Run(trace))
    ensures forall id | Count(Run(trace).passwordsSet, id) > 0 ::
        id in Run(trace).machine && Run(trace).machine[id].status.Approved?
  {
    RunKeepsInv(trace);
    if trace != [] {
      var n := |trace| - 1;
      LogGrows(trace);
      LastCall(trace);
      ActivatedAtMostOnce(trace[..n]);
      RunKeepsInv(trace[..n]);
      StepSetsOnce(Run(trace[..n]), trace[n]);
    }
  }

  /** A lost log row is enough to set two passwords on one approval. */
  lemma LostActivationRepeats(trace: seq<Call>, x: Call, y: Call)
    requires AllowedRun(trace) && Admits(Run(trace), x) && x.command.Activate? && !x.stored
    requires SameDeed(x.command, y.command) && y.elsewhere == map[] && Renews(x.command, y.command)
    ensures AllowedRun(trace + [x, y])
    ensures Count(Run(trace + [x, y]).passwordsSet, x.command.id) == Count(Run(trace).passwordsSet, x.command.id) + 2
    ensures x.command.user.id in Run(trace + [x, y]).passwords
    ensures Some(Run(trace + [x, y]).passwords[x.command.user.id]) == CompactText(Some(y.command.replacement))
  {
    var one, two := trace + [x], trace + [x, y];
    assert one[..|trace|] == trace && two[..|trace| + 1] == one;
    LastCall(one);
    LastCall(two);
    FurtherActivationExactly(trace, x, y);
    var o, o1, o2 := Run(trace), Run(one), Run(two);
    assert o1 == Step(o, x) && o2 == Step(o1, y);
    assert o1.passwordsSet[..|o.passwordsSet|] == o.passwordsSet
        && o2.passwordsSet[..|o1.passwordsSet|] == o1.passwordsSet;
  }
}
