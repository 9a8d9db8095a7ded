/** What each operation of a branch does to its tables, said of the stored rows themselves: which calls are
    turned down, what is stored, and what is left alone. */
module LedgerEffects {
  import opened Options
  import opened Ledger
  import opened LedgerLemmas
  import opened OpeningCash
  import opened LedgerRuns
  import opened LedgerInvariant
  import opened LedgerTheorems

  /* ---------- balances ---------- */

  lemma NearestFound(days: set<int>, d: int, day: int)
    requires d in days && d < day && forall e | e in days && e < day :: e <= d
    ensures LatestBefore(days, day) == Some(d)
  {
    var x := LatestBefore(days, day);
    assert x.Some? && IsLatestBefore(days, day, x.value);
  }

  /** The prior ending is that of the nearest earlier stored day. */
  lemma PriorEndingStored(b: Book, d: int, day: int)
    requires d in b.balances && d < day && forall e | e in b.balances && e < day :: e <= d
    ensures PriorEnding(b, day) == b.balances[d].ending
  {
    NearestFound(b.balances.Keys, d, day);
  }

  /** Without an earlier stored day it is the opening capital. */
  lemma PriorEndingCapital(b: Book, day: int)
    requires forall e | e in b.balances.Keys :: e >= day
    ensures PriorEnding(b, day) == b.capital
  {
  }

  /** The latest stored ending of a branch; no row is dated after today. */
  lemma LatestBalanceStored(b: Book, strict: bool, today: int, d: int)
    requires Inv(b, strict) && b.today <= today && d in b.balances && forall e | e in b.balances :: e <= d
    ensures LatestBalance(b, today) == b.balances[d].ending
  {
    NearestFound(b.balances.Keys, d, today + 1);
  }

  /** 0 when nothing is stored. */
  lemma LatestBalanceNone(b: Book, today: int)
    requires b.balances == map[]
    ensures LatestBalance(b, today) == 0
  {
    assert forall e :: e !in b.balances.Keys;
  }

  /** A gated change is turned down without a session, on a closed one, and in strict mode when the stored
      ending does not bear it; otherwise that ending moves. */
  lemma GatedChange(b: Book, strict: bool, day: int, delta: int)
    requires Reachable(b, strict) && delta != 0
    ensures day !in b.sessions ==>
              Ledger.ApplyNetChange(b, strict, day, delta, false) == Refused(RequiresStartingBalance)
    ensures day in b.sessions && b.sessions[day].closed ==>
              Ledger.ApplyNetChange(b, strict, day, delta, false) == Refused(SessionClosed)
    ensures day in b.sessions && !b.sessions[day].closed ==>
              && day in b.balances
              && Ledger.ApplyNetChange(b, strict, day, delta, false) ==
                   if strict && b.balances[day].ending + delta < 0 then Refused(InsufficientFunds)
                   else Done(b.(balances := b.balances[day := Balance(b.balances[day].starting,
                                                                      b.balances[day].ending + delta)]))
  {
    ReachableInv(b, strict);
    if IsOpen(b, day) { assert OpenAgrees(b, day); }
  }

  /** A gated posting that moves cash is turned down without a session, on a closed one, and in strict mode
      when the stored ending does not bear it; otherwise the row is added and the stored ending moves. */
  lemma GatedPosting(b: Book, strict: bool, r: Row, day: int)
    requires Reachable(b, strict) && r.Cash() != 0
    ensures day !in b.sessions ==> Post(b, strict, r, day, false) == Refused(RequiresStartingBalance)
    ensures day in b.sessions && b.sessions[day].closed ==> Post(b, strict, r, day, false) == Refused(SessionClosed)
    ensures day in b.sessions && !b.sessions[day].closed ==>
              && day in b.balances
              && Post(b, strict, r, day, false) ==
                   if strict && b.balances[day].ending + r.Cash() < 0 then Refused(InsufficientFunds)
                   else Done(b.(rows := b.rows + [r],
                                balances := b.balances[day := Balance(b.balances[day].starting,
                                                                      b.balances[day].ending + r.Cash())]))
  {
    ReachableInv(b, strict);
    if IsOpen(b, day) { assert OpenAgrees(b, day); }
  }

  /** A posting that moves no cash only adds its row, on any day and without any session. */
  lemma CashlessPosting(b: Book, strict: bool, r: Row, day: int)
    requires r.Cash() == 0
    ensures Post(b, strict, r, day, false) == Done(b.(rows := b.rows + [r]))
  {
  }

  /** The check made before anything is written says yes to exactly those changes. */
  lemma PreCheckExactly(b: Book, strict: bool, day: int, delta: int)
    requires Reachable(b, strict)
    ensures PostingVerdict(b, strict, day, delta, false, RecomputedBalance(b, day)).Done? <==>
            delta == 0
            || (day in b.sessions && !b.sessions[day].closed && day in b.balances
                && (!strict || b.balances[day].ending + delta >= 0))
  {
    ReachableInv(b, strict);
    if IsOpen(b, day) { assert OpenAgrees(b, day); }
  }

  /** The balance row of `day` after `delta`: moved, or created from the prior ending. */
  ghost function Moved(b: Book, day: int, delta: int): Balance {
    if day in b.balances then Balance(b.balances[day].starting, b.balances[day].ending + delta)
    else Balance(PriorEnding(b, day), PriorEnding(b, day) + delta)
  }

  /** A change that bypasses the gate, a fund transfer, is refused only when a strict branch cannot bear it. */
  lemma UngatedChange(b: Book, strict: bool, r: Row, day: int)
    requires Inv(b, strict) && r.Cash() != 0
    ensures Ledger.ApplyNetChange(AddRow(b, r), strict, day, r.Cash(), true) ==
              if strict && Moved(b, day, r.Cash()).ending < 0 then Refused(InsufficientFunds)
              else Done(b.(rows := b.rows + [r], balances := b.balances[day := Moved(b, day, r.Cash())]))
  {
    IncrementalIgnoresRow(b, strict, r, day);
    PriorEndingFrame(b, AddRow(b, r), day);
    if IsOpen(b, day) { assert OpenAgrees(b, day); }
  }

  /** What a receipt of `amount`, or an expense paid out of it, does to the destination's tables. */
  lemma ReceiptEffect(b: Book, strict: bool, t: Tick, no: string, code: string, amount: nat, expense: bool)
    requires Inv(b, strict) && amount > 0
    ensures var cash: int := if expense then -(amount as int) else amount;
      var r := Row(t.today, FundTransfer, if expense then FundOut else FundIn, code, if expense then 0 else amount,
                   if expense then amount else 0, t.now, t.now, false);
      Next(b, strict, t, ReceiveFunds(no, code, amount, expense)) ==
        if strict && Moved(b, t.today, cash).ending < 0
        then b.(rows := b.rows + [r.(voided := true)], clock := t.later, today := t.today)
        else b.(rows := b.rows + [r], balances := b.balances[t.today := Moved(b, t.today, cash)],
                awaiting := b.awaiting - {no}, clock := t.later, today := t.today)
  {
    var r := TransferRow(t, code, amount, !expense);
    UngatedChange(b, strict, r, t.today);
    assert (b.rows + [r])[|b.rows| := r.(voided := true)] == b.rows + [r.(voided := true)];
  }

  /** A branch releases `amount` exactly when its latest stored ending bears it; then the row is written and
      the balance of today moves. */
  lemma SendEffect(b: Book, strict: bool, t: Tick, code: string, amount: nat)
    requires Inv(b, strict) && Ticks(b, t) && amount > 0
    ensures var r := Row(t.today, FundTransfer, FundOut, code, 0, amount, t.now, t.now, false);
      Next(b, strict, t, SendFunds(code, amount)) ==
        if LatestBalance(b, t.today) < amount then b.(clock := t.later, today := t.today)
        else b.(rows := b.rows + [r], balances := b.balances[t.today := Moved(b, t.today, -(amount as int))],
                clock := t.later, today := t.today)
  {
    if LatestBalance(b, t.today) >= amount {
      SendNeverStrandsRow(b, strict, t, code, amount);
      UngatedChange(b, strict, TransferRow(t, code, amount, false), t.today);
    }
  }

  /* ---------- day sessions ---------- */

  /** The rows after a session write: markers aside they are those before, and one marker may be added. */
  ghost predicate OnlyMarkersWritten(b: Book, b': Book) {
    && |b.rows| <= |b'.rows| <= |b.rows| + 1
    && (forall i | 0 <= i < |b.rows| && !b.rows[i].IsMarker() :: b'.rows[i] == b.rows[i])
    && (forall i | 0 <= i < |b.rows| && b.rows[i].IsMarker() :: b'.rows[i].IsMarker())
    && (forall i | |b.rows| <= i < |b'.rows| :: b'.rows[i].IsMarker() && b'.rows[i].Cash() == 0)
  }

  /** Everything that does not belong to `day`. */
  ghost predicate OtherDaysKept(b: Book, b': Book, day: int) {
    && day in b'.sessions && day in b'.balances
    && b'.awaiting == b.awaiting && b'.capital == b.capital && OnlyMarkersWritten(b, b')
    && b'.sessions == b.sessions[day := b'.sessions[day]]
    && b'.balances == b.balances[day := b'.balances[day]]
    && (forall d | d != day :: d in b'.openings <==> d in b.openings)
    && (forall d | d != day && d in b.openings :: b'.openings[d] == b.openings[d])
  }

  /** The ids sealed at `at` are those of the day's live rows, markers aside, created before it. */
  ghost predicate SealedAt(b: Book, sealedIds: set<nat>, day: int, at: int) {
    forall i: nat :: i in sealedIds <==>
      && i < |b.rows| && b.rows[i].date == day && !b.rows[i].voided && b.rows[i].createdAt < at
      && b.rows[i].purpose != Start && b.rows[i].purpose != End
  }

  /** A live marker of `day` was written at `at`. */
  predicate Stamped(b: Book, day: int, p: Purpose, at: int) {
    exists i :: 0 <= i < |b.rows| && b.rows[i].date == day && b.rows[i].purpose == p && b.rows[i].updatedAt == at
                && !b.rows[i].voided
  }

  lemma UpsertStamps(b: Book, b': Book, day: int, p: Purpose, at: int)
    requires MarkersLive(b.rows) && (p.Start? || p.End?) && b'.rows == UpsertMarker(b.rows, day, p, at)
    ensures Stamped(b', day, p, at)
  {
    var k := if FindMarker(b.rows, day, p).Some? then FindMarker(b.rows, day, p).value else |b.rows|;
    assert b'.rows[k].date == day && b'.rows[k].purpose == p && b'.rows[k].updatedAt == at;
    assert k < |b.rows| ==> b.rows[k].IsMarker();
  }

  /** The session, the balance and the checklist row of a day just opened at `amount`. */
  ghost predicate OpenedAt(b: Book, b': Book, t: Tick, amount: int) {
    && t.today in b'.sessions && t.today in b'.balances && t.today in b'.openings
    && b'.sessions[t.today].start == amount && !b'.sessions[t.today].closed
    && b'.sessions[t.today].openedAt == t.now && b'.sessions[t.today].cutoffAt == t.now
    && SealedAt(b, b'.sessions[t.today].sealedIds, t.today, t.now)
    && b'.balances[t.today] == Balance(amount, amount)
    && b'.openings[t.today].Pending?
  }

  /** Start Day at `amount`: turned down for a negative count or an open session; otherwise the count is the
      start of a new shift and both stored balances, and the checklist waits. */
  lemma OpenEffect(b: Book, strict: bool, t: Tick, amount: int)
    requires Reachable(b, strict) && Ticks(b, t)
    ensures var (b', day) := (Next(b, strict, t, SuperAdminOpen(amount)), t.today);
      if amount < 0 || (day in b.sessions && !b.sessions[day].closed) then b' == b.(clock := t.later, today := t.today)
      else OpenedAt(b, b', t, amount) && OtherDaysKept(b, b', day) && Stamped(b', day, Start, t.later)
           && ShiftNet(b', day) == 0
  {
    if amount >= 0 && !IsOpen(b, t.today) {
      OpenedTables(b, strict, t, amount);
      OpenedSession(b, strict, t, amount);
      OpenedShift(b, strict, t, amount);
    }
  }

  lemma OpenedTables(b: Book, strict: bool, t: Tick, amount: int)
    requires amount >= 0 && !IsOpen(b, t.today)
    ensures OtherDaysKept(b, Next(b, strict, t, SuperAdminOpen(amount)), t.today)
  {
    UpsertMarkerRows(b.rows, t.today, Start, t.later);
  }

  lemma OpenedSession(b: Book, strict: bool, t: Tick, amount: int)
    requires amount >= 0 && !IsOpen(b, t.today)
    ensures OpenedAt(b, Next(b, strict, t, SuperAdminOpen(amount)), t, amount)
  {
  }

  lemma OpenedShift(b: Book, strict: bool, t: Tick, amount: int)
    requires Reachable(b, strict) && Ticks(b, t) && amount >= 0 && !IsOpen(b, t.today)
    ensures ShiftNet(Next(b, strict, t, SuperAdminOpen(amount)), t.today) == 0
    ensures Stamped(Next(b, strict, t, SuperAdminOpen(amount)), t.today, Start, t.later)
  {
    ReachableInv(b, strict);
    UpsertStamps(b, Next(b, strict, t, SuperAdminOpen(amount)), t.today, Start, t.later);
    NewShiftIsEmpty(b, strict, t, t.today, amount);
    var opened' := OpenDay(b, t.today, amount, t.now, t.later).value;
    assert ShiftIds(At(opened', t), t.today) == ShiftIds(opened', t.today);
  }

  /** An employee opens at the expected amount only. */
  lemma EmployeeOpenEffect(b: Book, strict: bool, t: Tick, amount: int)
    ensures Next(b, strict, t, EmployeeOpen(amount)) ==
              if amount == ExpectedOpening(b, t.today) then Next(b, strict, t, SuperAdminOpen(amount))
              else b.(clock := t.later, today := t.today)
  {
  }

  /** The cash of the transfers received before an open session that its start does not hold. */
  ghost function Correction(b: Book, day: int): int {
    if CorrectionFires(b, day) then PreOpenFundNet(b, day) else 0
  }

  /** What End Day stores for an open session: the count when it is positive; else the book, which without any
      count includes the correction; never less than 0. */
  ghost function StoredAtClose(b: Book, day: int, physical: Option<int>): int
    requires day in b.balances
  {
    if physical.Some? && physical.value > 0 then physical.value
    else Max(0, b.balances[day].ending + (if physical.None? then Correction(b, day) else 0))
  }

  lemma CloseEffect(b: Book, strict: bool, t: Tick, physical: Option<int>)
    requires Reachable(b, strict)
    ensures var (b', day) := (Next(b, strict, t, ManualClose(physical)), t.today);
      if day !in b.sessions || b.sessions[day].closed then b' == b.(clock := t.later, today := t.today)
      else
        && day in b.balances && OtherDaysKept(b, b', day)
        && b'.sessions[day].closed && b'.sessions[day].start == b.sessions[day].start
        && b'.sessions[day].openedAt == b.sessions[day].openedAt && b'.sessions[day].cutoffAt == t.now
        && SealedAt(b, b'.sessions[day].sealedIds, day, t.now) && Stamped(b', day, End, t.later)
        && b'.balances[day] == Balance(b.sessions[day].start, StoredAtClose(b, day, physical))
        && day !in b'.openings
  {
    var day := t.today;
    if IsOpen(b, day) {
      ReachableInv(b, strict);
      assert OpenAgrees(b, day);
      UpsertMarkerRows(b.rows, day, End, t.later);
      UpsertStamps(b, Next(b, strict, t, ManualClose(physical)), day, End, t.later);
    }
  }

  /** The sweep closes an open session at its stored ending, not below 0, and keeps its cutoff. */
  lemma SweepEffect(b: Book, strict: bool, t: Tick, day: int)
    requires Reachable(b, strict)
    ensures var b' := Next(b, strict, t, Sweep(day));
      if day !in b.sessions || b.sessions[day].closed then b' == b.(clock := t.later, today := t.today)
      else
        && day in b.balances && OtherDaysKept(b, b', day)
        && b'.sessions[day] == b.sessions[day].(closed := true) && Stamped(b', day, End, t.later)
        && b'.balances[day] == Balance(b.sessions[day].start, Max(0, b.balances[day].ending))
        && day !in b'.openings
  {
    if IsOpen(b, day) {
      ReachableInv(b, strict);
      assert OpenAgrees(b, day);
      UpsertMarkerRows(b.rows, day, End, t.later);
      UpsertStamps(b, Next(b, strict, t, Sweep(day)), day, End, t.later);
    }
  }

  /** The rows of an open day that move its cash, each before or after its cutoff: neither the seal nor a waiting
      request hides one.  Those before it are corrected for when they are fund transfers. */
  lemma OpenShiftRows(b: Book, strict: bool, day: int, i: nat)
    requires Reachable(b, strict) && IsOpen(b, day) && i < |b.rows|
    ensures var r := b.rows[i];
      var moves := r.date == day && !r.voided && r.purpose != Start && r.purpose != End;
      var transfer := r.unit == FundIn || r.unit == FundOut || r.purpose == FundTransfer || r.purpose == CashTransfer;
      && (i in ShiftIds(b, day) <==> moves && r.createdAt >= Cutoff(b, day))
      && (i in PreOpenFundIds(b, day) <==> moves && transfer && r.createdAt < Cutoff(b, day))
      && (i in FullDayIds(b, day) <==> moves)
  {
    ReachableInv(b, strict);
    SealIsRedundant(b, strict, day);
  }

  /** Without fund transfers on a day there is nothing to correct, however many shifts it has. */
  lemma NoTransfersNoCorrection(b: Book, strict: bool, day: int)
    requires Reachable(b, strict)
    requires forall i | 0 <= i < |b.rows| && b.rows[i].date == day && !b.rows[i].voided ::
               b.rows[i].unit.Goods? && !b.rows[i].purpose.FundTransfer? && !b.rows[i].purpose.CashTransfer?
    ensures !CorrectionFires(b, day)
  {
    assert PreOpenFundIds(b, day) == {};
    NetNone(b.rows, {});
  }

  /* ---------- the opening checklist ---------- */

  /** The gate lets a day in exactly when its session is open and its audit done; before the first session of
      a day, when the checklist is done, or, without one, when the branch holds no pawned items, which is then
      recorded. */
  lemma GateEffect(b: Book, strict: bool, t: Tick, pawnedItems: nat)
    requires Reachable(b, strict)
    ensures var (day, allowed) := (t.today, ModulesAllowed(b, t.today, pawnedItems).1);
      && (day in b.sessions ==>
            (allowed <==> !b.sessions[day].closed && day in b.openings && b.openings[day].Completed?))
      && (day !in b.sessions && day in b.openings ==> (allowed <==> b.openings[day].Completed?))
      && (day !in b.sessions && day !in b.openings ==> (allowed <==> pawnedItems == 0))
    ensures Next(b, strict, t, GateCheck(pawnedItems)) ==
              b.(clock := t.later, today := t.today,
                 openings := if t.today !in b.sessions && t.today !in b.openings && pawnedItems == 0
                             then b.openings[t.today := Completed] else b.openings)
  {
    ReachableInv(b, strict);
  }

  /** Submitting the audit completes the day's checklist row when there is one. */
  lemma ChecklistEffect(b: Book, strict: bool, t: Tick)
    ensures Next(b, strict, t, CompleteChecklist) ==
              b.(clock := t.later, today := t.today,
                 openings := if t.today in b.openings then b.openings[t.today := Completed] else b.openings)
  {
  }

  /* ---------- days without a session ---------- */

  /** A stored day that was never opened ends where it started, plus its whole net. */
  ghost predicate UnopenedDayAdds(b: Book, d: int) {
    d in b.balances && d !in b.sessions ==> b.balances[d].ending == b.balances[d].starting + FullDayNet(b, d)
  }

  lemma FreshRowNet(b: Book, b': Book, strict: bool, t: Tick, r: Row, d: int)
    requires Inv(b, strict) && FreshRow(b, b', t, r)
    ensures FullDayNet(b', d) == FullDayNet(b, d) + (if r.date == d && !r.voided then r.Cash() else 0)
  {
    FreshRowSameDay(b, b', strict, t, r, d);
    if r.date == d && !r.voided { FullDayGrows(b, b', r); } else { FullDayFrame(b, b', d); }
  }

  /** The stored balance of `d` after its cash moved by `cash`. */
  ghost predicate MovedBy(b: Book, b': Book, d: int, cash: int) {
    d in b'.balances ==>
      b'.balances[d] == if cash == 0 && d in b.balances then b.balances[d] else Moved(b, d, cash)
  }

  lemma PostingMovesOpened(b: Book, strict: bool, t: Tick, step: Step, d: int)
    requires Inv(b, strict) && Admissible(b, t, step) && step.Posting? && d !in b.sessions
    ensures MovedBy(b, Next(b, strict, t, step), d, 0)
  {
    var r := RowAt(t, step.date, step.purpose, step.unit, step.code, step.cashIn, step.cashOut);
    IncrementalIgnoresRow(b, strict, r, t.today);
  }

  lemma FailedReceiptMoves(b: Book, strict: bool, t: Tick, step: Step, d: int)
    requires Inv(b, strict) && Admissible(b, t, step) && step.ReceiveFailed? && d !in b.sessions
    ensures MovedBy(b, Next(b, strict, t, step), d, 0)
  {
    if step.balanceWritten && ReceiveCash(b, strict, t, step.code, step.amount, step.expense).1 {
      UndoRestores(b, strict, t, step.code, step.amount, step.expense);
    }
  }

  /** The stored balance of a day that is not opened, after a step that adds a row. */
  lemma RowMovesUnopened(b: Book, strict: bool, t: Tick, step: Step, d: int)
    requires Inv(b, strict) && Admissible(b, t, step) && AddedRow(b, strict, t, step).Some? && d !in b.sessions
    ensures var r := AddedRow(b, strict, t, step).value;
      MovedBy(b, Next(b, strict, t, step), d, if r.date == d && !r.voided then r.Cash() else 0)
  {
    match step
    case Posting(date, _, _, _, cashIn, cashOut) =>
      PostingMovesOpened(b, strict, t, step, d);
      assert d == date ==> cashIn == cashOut;
    case SendFunds(code, amount) => SendEffect(b, strict, t, code, amount);
    case ReceiveFunds(no, code, amount, expense) => ReceiptEffect(b, strict, t, no, code, amount, expense);
    case ReceiveFailed(_, _, _, _) => FailedReceiptMoves(b, strict, t, step, d);
  }

  lemma RowKeepsUnopened(b: Book, strict: bool, t: Tick, step: Step, d: int)
    requires Inv(b, strict) && Admissible(b, t, step) && UnopenedDayAdds(b, d) && AddedRow(b, strict, t, step).Some?
    ensures UnopenedDayAdds(Next(b, strict, t, step), d)
  {
    StepAddsRow(b, strict, t, step);
    FreshRowNet(b, Next(b, strict, t, step), strict, t, AddedRow(b, strict, t, step).value, d);
    if d !in b.sessions { RowMovesUnopened(b, strict, t, step, d); }
    if d !in b.balances { UnbookedDay(b, d); }
  }

  lemma StepKeepsUnopened(b: Book, strict: bool, t: Tick, step: Step, d: int)
    requires Inv(b, strict) && Admissible(b, t, step) && UnopenedDayAdds(b, d)
    ensures UnopenedDayAdds(Next(b, strict, t, step), d)
  {
    var b' := Next(b, strict, t, step);
    if AddedRow(b, strict, t, step).Some? {
      RowKeepsUnopened(b, strict, t, step, d);
    } else if IsSessionStep(step) {
      SessionStepShape(b, strict, t, step);
      if b' != At(b, t) {
        MarkerKeepsRows(b, b', t, SessionDay(t, step), SessionMarker(step), d);
      }
      FullDayFrame(b, b', d);
    } else {
      StepAddsNoRow(b, strict, t, step);
      FullDayFrame(b, b', d);
    }
  }

  lemma {:induction false} RunKeepsUnopened(b: Book, strict: bool, trace: seq<(Tick, Step)>, d: int)
    requires Inv(b, strict) && AdmissibleRun(b, strict, trace) && UnopenedDayAdds(b, d)
    ensures UnopenedDayAdds(Run(b, strict, trace), d)
  {
    if trace != [] {
      var n := |trace| - 1;
      LastStep(b, strict, trace);
      RunKeepsInv(b, strict, trace[..n]);
      RunKeepsUnopened(b, strict, trace[..n], d);
      StepKeepsUnopened(Run(b, strict, trace[..n]), strict, trace[n].0, trace[n].1, d);
    }
  }

  lemma ReachableUnopened(b: Book, strict: bool, d: int)
    requires Reachable(b, strict)
    ensures UnopenedDayAdds(b, d)
  {
    var b0, trace :| Fresh(b0) && AdmissibleRun(b0, strict, trace) && b == Run(b0, strict, trace);
    RunKeepsUnopened(b0, strict, trace, d);
  }

  /** The rows that move cash on the days from `first` to `last`. */
  function SpanIds(b: Book, first: int, last: int): set<nat> {
    set i: nat | i < |b.rows| && first <= b.rows[i].date <= last && b.rows[i].Counts(b.rows[i].date, b.awaiting)
  }

  /** What is carried over several days is the net of all their rows, each counted once. */
  lemma {:induction false} SpanIsNet(b: Book, first: int, last: int)
    ensures NetSpan(b, first, last) == Net(b.rows, SpanIds(b, first, last))
    decreases last - first
  {
    if first > last {
      NetNone(b.rows, SpanIds(b, first, last));
    } else {
      SpanIsNet(b, first, last - 1);
      assert SpanIds(b, first, last) == SpanIds(b, first, last - 1) + FullDayIds(b, last);
      NetUnion(b.rows, SpanIds(b, first, last - 1), FullDayIds(b, last));
    }
  }

  /* ---------- expected opening of a branch that never closed ---------- */

  /** The book position of a day that is not closed is what the next day finds stored, plus the correction. */
  lemma DayBefore(b: Book, strict: bool, day: int)
    requires Reachable(b, strict) && (day - 1 in b.sessions ==> !b.sessions[day - 1].closed)
    ensures LedgerEnding(b, day - 1) == PriorEnding(b, day) + Correction(b, day - 1)
  {
    ReachableInv(b, strict);
    ReachableUnopened(b, strict, day - 1);
    if day - 1 !in b.balances {
      UnbookedDay(b, day - 1);
      PriorOfGap(b, day);
    } else {
      PriorEndingStored(b, day - 1, day);
      if IsOpen(b, day - 1) { assert OpenAgrees(b, day - 1); }
    }
  }

  lemma PriorOfGap(b: Book, day: int)
    requires day - 1 !in b.balances
    ensures PriorEnding(b, day) == PriorEnding(b, day - 1)
  {
    var x, y := LatestBefore(b.balances.Keys, day), LatestBefore(b.balances.Keys, day - 1);
    if x.Some? { assert x.value in b.balances.Keys && x.value != day - 1; }
    if y.Some? { assert y.value in b.balances.Keys; }
  }

  /** Before the first End Day of a branch, the expected opening is the largest of its opening capital, what
      the day before left, that plus the net of the day, and the stored ending of the day. */
  lemma FirstExpectedOpening(b: Book, strict: bool, day: int)
    requires Reachable(b, strict) && forall d | d in b.sessions && d <= day :: !b.sessions[d].closed
    ensures var left := PriorEnding(b, day) + Correction(b, day - 1);
      ExpectedOpening(b, day) ==
        Max(Max(b.capital, left),
            Max(left + FullDayNet(b, day), if day in b.balances then b.balances[day].ending else 0))
  {
    ReachableInv(b, strict);
    assert LastClosed(b, day) == None;
    DayBefore(b, strict, day);
  }
}
