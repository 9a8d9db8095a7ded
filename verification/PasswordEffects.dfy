/** Who may do what in the password-change protocol, and what it leaves behind, said of the records and the
    passwords themselves. */
module PasswordEffects {
  import opened Options
  import opened Strings
  import opened PasswordRequests
  import opened PasswordProofs

  /** The records of a run whose log fits the query are what its commands read. */
  lemma ReadsMachine(o: Office)
    requires Reached(o) && |o.log| <= LOG_LIMIT
    ensures Replay(Loaded(o.log)) == o.machine && Faithful(o)
  {
    var trace :| AllowedRun(trace) && o == Run(trace);
    RunKeepsInv(trace);
  }

  lemma ReachedFaithful(o: Office)
    requires Reached(o)
    ensures Faithful(o)
  {
    var trace :| AllowedRun(trace) && o == Run(trace);
    RunKeepsInv(trace);
  }

  /** A text with the white space at its ends removed, if anything is left. */
  function Compact(s: string): Option<string> { if Trim(s) == "" then None else Some(Trim(s)) }

  /* ---------- asking ---------- */

  /** A request is taken from employees of a branch and from admins, with a reason, when the user has none
      pending and somebody can approve it. */
  predicate MayAsk(m: Records, user: User, reason: string, approvers: nat) {
    && Trim(reason) != "" && approvers > 0
    && (user.role.Admin? || (user.role.Employee? && user.branch.Some? && user.branch.value != ""))
    && forall id | id in m && m[id].requesterUserId == user.id :: !m[id].status.Pending?
  }

  lemma AskEffect(o: Office, x: Call)
    requires Reached(o) && |o.log| <= LOG_LIMIT && Allowed(o, x) && x.command.Create?
    ensures var (c, o') := (x.command, Step(o, x));
      && o'.passwords == o.passwords + x.elsewhere && o'.passwordsSet == o.passwordsSet
      && if !MayAsk(o.machine, c.user, c.reason, c.approvers) || !x.stored then o'.machine == o.machine
         else o'.machine == o.machine[c.requestId :=
           Record(c.requestId, c.user.id, c.user.authId, Some(c.user.email), c.user.branch,
                  if c.user.role.Employee? then "employee" else "admin",
                  if c.user.role.Employee? then "admin" else "super_admin",
                  Trim(c.reason), Status.Pending, false, None, None, None, None, x.now, x.now)]
    ensures Admits(o, x) <==> MayAsk(o.machine, x.command.user, x.command.reason, x.command.approvers)
  {
    ReadsMachine(o);
  }

  /* ---------- reviewing ---------- */

  /** A pending request is reviewed by its target role; an admin reviews only for the own branch. */
  predicate MayReview(m: Records, reviewer: User, id: string) {
    && id in m && m[id].status.Pending?
    && ((reviewer.role.Admin? && m[id].targetRole == "admin" && m[id].requesterBranchId == reviewer.branch)
        || (reviewer.role.SuperAdmin? && m[id].targetRole == "super_admin"))
  }

  lemma ReviewEffect(o: Office, x: Call)
    requires Reached(o) && |o.log| <= LOG_LIMIT && x.command.Review?
    ensures Admits(o, x) <==> MayReview(o.machine, x.command.reviewer, x.command.id)
    ensures var (c, o') := (x.command, Step(o, x));
      && o'.passwords == o.passwords + x.elsewhere && o'.passwordsSet == o.passwordsSet
      && if !MayReview(o.machine, c.reviewer, c.id) || !x.stored then o'.machine == o.machine
         else o'.machine == o.machine[c.id := o.machine[c.id].(
           status := if c.approve then Approved else Rejected, isActivated := false,
           pendingPassword := if c.approve then o.machine[c.id].pendingPassword else None,
           reviewNote := if c.note.None? then None else Compact(c.note.value),
           reviewedBy := Some(c.reviewer.id), reviewedAt := Some(x.now), updatedAt := x.now)]
  {
    ReadsMachine(o);
  }

  /** The role a request asks for follows from the role of its requester. */
  predicate RolesPaired(m: Records) {
    forall id | id in m ::
      (m[id].requesterRole == "employee" && m[id].targetRole == "admin"
       && m[id].requesterBranchId.Some? && m[id].requesterBranchId.value != "")
      || (m[id].requesterRole == "admin" && m[id].targetRole == "super_admin")
  }

  lemma StepPairsRoles(o: Office, x: Call)
    requires RolesPaired(o.machine)
    ensures RolesPaired(Step(o, x).machine)
  {
  }

  lemma {:induction false} RunPairsRoles(trace: seq<Call>)
    ensures RolesPaired(Run(trace).machine)
  {
    if trace != [] {
      LastCall(trace);
      RunPairsRoles(trace[..|trace| - 1]);
      StepPairsRoles(Run(trace[..|trace| - 1]), trace[|trace| - 1]);
    }
  }

  /** So an employee's request is decided by an admin of the employee's branch, an admin's by a super admin. */
  lemma ReviewedByRank(o: Office, x: Call)
    requires Reached(o) && |o.log| <= LOG_LIMIT && x.command.Review? && Admits(o, x)
    ensures x.command.id in o.machine
    ensures var (r, reviewer) := (o.machine[x.command.id], x.command.reviewer);
      && ((r.requesterRole == "employee" && reviewer.role.Admin? && reviewer.branch == r.requesterBranchId
           && reviewer.branch.Some?)
          || (r.requesterRole == "admin" && reviewer.role.SuperAdmin?))
  {
    ReviewEffect(o, x);
    var trace :| AllowedRun(trace) && o == Run(trace);
    RunPairsRoles(trace);
    assert "admin" != "super_admin" by { assert |"admin"| != |"super_admin"|; }
  }

  /* ---------- activating ---------- */

  /** The requester of an approved request, not used yet, changes the password it has into another one. */
  predicate MayActivate(o: Office, x: Call)
    requires x.command.Activate?
  {
    var (m, p, c) := (o.machine, o.passwords + x.elsewhere, x.command);
    && c.id in m && m[c.id].requesterUserId == c.user.id && m[c.id].status.Approved? && !m[c.id].isActivated
    && Trim(c.current) != "" && Trim(c.replacement) != "" && Trim(c.current) != Trim(c.replacement)
    && c.user.id in p && p[c.user.id] == Trim(c.current) && c.taken
  }

  lemma ActivateEffect(o: Office, x: Call)
    requires Reached(o) && |o.log| <= LOG_LIMIT && x.command.Activate?
    ensures Admits(o, x) <==> MayActivate(o, x)
    ensures var (c, o') := (x.command, Step(o, x));
      if !MayActivate(o, x) then o' == o.(passwords := o.passwords + x.elsewhere)
      else
        && o'.passwords == (o.passwords + x.elsewhere)[c.user.id := Trim(c.replacement)]
        && o'.passwordsSet == o.passwordsSet + [c.id]
        && o'.machine == if !x.stored then o.machine
                         else o.machine[c.id := o.machine[c.id].(isActivated := true, pendingPassword := None,
                                                                  updatedAt := x.now,
                                                                  reviewNote := Some("Password updated successfully."))]
  {
    ReadsMachine(o);
  }

  /* ---------- rows that other versions wrote ---------- */

  /** A submission without an id or a requester of its own takes those of its log row; one without a role, a
      target or a reason is skipped; a review without a decision is decided by its action. */
  lemma IncompleteRows(records: Records, log: LogRow)
    ensures log.action.Submitted? && log.details.requestId.Missing? && log.details.requesterUserId.Missing?
            && log.userId.Some? && log.userId.value != "" && log.details.requesterBranchId.Missing?
            && AsString(log.details.requesterRole).Some? && AsString(log.details.targetRole).Some?
            && AsString(log.details.reason).Some? ==>
              && log.id in ApplyRow(records, log)
              && ApplyRow(records, log)[log.id].requesterUserId == log.userId.value
              && ApplyRow(records, log)[log.id].requesterBranchId == log.branchId
              && ApplyRow(records, log)[log.id].status.Pending?
    ensures log.action.Submitted?
            && (AsString(log.details.requesterRole).None? || AsString(log.details.targetRole).None?
                || AsString(log.details.reason).None?) ==>
              ApplyRow(records, log) == records
    ensures (log.action.Approval? || log.action.Rejection?) && log.details.decision.Missing?
            && AsString(log.details.requestId).Some? && AsString(log.details.requestId).value in records ==>
              ApplyRow(records, log)[AsString(log.details.requestId).value].status
              == (if log.action.Approval? then Approved else Rejected)
  {
  }
}
