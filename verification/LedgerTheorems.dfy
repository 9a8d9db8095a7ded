/** Main results about every reachable state of a branch's book. */
module LedgerTheorems {
  import opened Options
  import opened Ledger
  import opened LedgerLemmas
  import opened OpeningCash
  import opened LedgerRuns
  import opened LedgerInvariant

  /* ---------- the fast balance refines the simple one ---------- */

  lemma FastBalanceIsSimpleBalance(b: Book, strict: bool, day: int)
    requires Reachable(b, strict)
    ensures IncrementalBalance(b, day) == RecomputedBalance(b, day)
    ensures IsOpen(b, day) ==> day in b.balances && b.balances[day].ending == b.sessions[day].start + ShiftNet(b, day)
  {
    ReachableInv(b, strict);
    assert OpenAgrees(b, day);
  }

  /** The check made before the journal row exists, on the recomputed balance, accepts exactly the
      postings that are then applied to the stored one. */
  lemma PreCheckPredictsPosting(b: Book, strict: bool, r: Row, day: int)
    requires Reachable(b, strict)
    ensures PostingVerdict(b, strict, day, r.Cash(), false, RecomputedBalance(b, day)).Done?
            <==> Post(b, strict, r, day, false).Done?
    ensures Post(b, strict, r, day, false).Done? && r.Cash() != 0 ==>
              Post(b, strict, r, day, false).value.balances[day].ending == RecomputedBalance(b, day) + r.Cash()
  {
    ReachableInv(b, strict);
    FastBalanceIsSimpleBalance(b, strict, day);
    IncrementalIgnoresRow(b, strict, r, day);
  }

  /** The net of an open shift after one more row, whatever the date of the row. */
  lemma AppendedRowShift(b: Book, b': Book, strict: bool, t: Tick, r: Row, day: int)
    requires Inv(b, strict) && Ticks(b, t) && IsOpen(b, day)
    requires r.createdAt == t.now && !r.voided && !r.IsMarker() && !r.AwaitsReceipt(b.awaiting)
    requires b'.rows == b.rows + [r] && b'.sessions == b.sessions && b'.awaiting == b.awaiting
    ensures ShiftNet(b', day) == ShiftNet(b, day) + (if r.date == day then r.Cash() else 0)
  {
    assert forall i | 0 <= i < |b.rows| :: b'.rows[i] == b.rows[i];
    assert b'.rows[|b.rows|] == r;
    AppendKeepsCutoff(b, b', r, day);
    assert SessionOk(b, day);
    CutoffInPast(b, strict, day);
    if r.date == day {
      ShiftGrows(b, b', r);
    } else {
      ShiftFrame(b, b', day);
    }
  }

  /** A posting that was let through. */
  ghost predicate PostingDone(b: Book, strict: bool, t: Tick, step: Step) {
    && step.Posting? && Ticks(b, t) && !step.purpose.Start? && !step.purpose.End? && step.code !in b.awaiting
    && Post(b, strict, RowAt(t, step.date, step.purpose, step.unit, step.code, step.cashIn, step.cashOut), t.today,
        false).Done?
  }

  /** How far apart a posting drives the two balances of a day: its delta goes into the ending of today,
      its row into the net of its own date. */
  lemma PostingDrift(b: Book, strict: bool, t: Tick, step: Step, day: int)
    requires Reachable(b, strict) && PostingDone(b, strict, t, step)
    ensures var (b', cash) := (Next(b, strict, t, step), step.cashIn - step.cashOut);
      IncrementalBalance(b', day) - RecomputedBalance(b', day)
      == (if day == t.today then cash else 0) -
          (if day == step.date && (day == t.today || IsOpen(b, day)) then cash else 0)
  {
    ReachableInv(b, strict);
    var r := RowAt(t, step.date, step.purpose, step.unit, step.code, step.cashIn, step.cashOut);
    IncrementalIgnoresRow(b, strict, r, t.today);
    if IsOpen(b, day) {
      assert OpenAgrees(b, day);
      AppendedRowShift(b, Next(b, strict, t, step), strict, t, r, day);
    }
  }

  /** An accepted posting leaves the two balances of today equal exactly when its row is dated today or
      moves no cash; the balances of all days agree under the same condition. */
  lemma PostingAgreesExactly(b: Book, strict: bool, t: Tick, step: Step)
    requires Reachable(b, strict) && PostingDone(b, strict, t, step)
    ensures var b' := Next(b, strict, t, step);
      && (IncrementalBalance(b', t.today) == RecomputedBalance(b', t.today)
          <==> step.date == t.today || step.cashIn == step.cashOut)
      && ((forall day :: IncrementalBalance(b', day) == RecomputedBalance(b', day))
          <==> step.date == t.today || step.cashIn == step.cashOut)
  {
    var b' := Next(b, strict, t, step);
    PostingDrift(b, strict, t, step, t.today);
    if step.date == t.today || step.cashIn == step.cashOut {
      forall day ensures IncrementalBalance(b', day) == RecomputedBalance(b', day) {
        PostingDrift(b, strict, t, step, day);
      }
    }
  }

  /** With negative cash disallowed, nothing stored is ever negative. */
  lemma StoredBalancesNonNegative(b: Book, day: int)
    requires Reachable(b, true)
    ensures day in b.sessions ==> day in b.balances && b.sessions[day].start >= 0
    ensures day in b.balances ==> b.balances[day].starting >= 0 && b.balances[day].ending >= 0
    ensures PriorEnding(b, day) >= 0
  {
    ReachableInv(b, true);
  }

  /* ---------- re-deriving the balance ---------- */

  /** The evening sweep keeps the balance row exactly when the stored ending is not negative. */
  lemma SweepKeepsBalance(b: Book, strict: bool, day: int, later: int)
    requires Reachable(b, strict) && IsOpen(b, day)
    ensures day in b.balances
    ensures AutoCloseDay(b, day, later).balances == b.balances <==> b.balances[day].ending >= 0
    ensures AutoCloseDay(b, day, later).balances[day].ending == Max(0, b.balances[day].ending)
    ensures strict ==> AutoCloseDay(b, day, later).balances == b.balances
  {
    ReachableInv(b, strict);
    assert OpenAgrees(b, day);
    var after := AutoCloseDay(b, day, later).balances;
    if b.balances[day].ending >= 0 {
      assert after == b.balances;
    } else {
      assert after[day] != b.balances[day];
    }
  }

  /** A physical count is what End Day stores exactly when it is positive or the book has nothing left:
      a counted zero is replaced by the book balance. */
  lemma CountedEndingIsStored(b: Book, strict: bool, day: int, physical: int, now: int, later: int)
    requires Reachable(b, strict) && IsOpen(b, day) && physical >= 0
    ensures (CloseDay(b, day, Some(physical), now, later).value.balances[day].ending == physical) <==>
            (physical > 0 || RecomputedBalance(b, day) <= 0)
  {
  }

  /** Sealing before the cutoff and dropping rows before the cutoff remove the same rows. */
  lemma SealIsRedundant(b: Book, strict: bool, day: int)
    requires Inv(b, strict) && IsOpen(b, day)
    ensures Cutoff(b, day) > 0
    ensures ShiftIds(b, day) == set i: nat | i < |b.rows| && b.rows[i].Counts(day, b.awaiting)
        && b.rows[i].createdAt >= Cutoff(b, day)
  {
    assert SessionOk(b, day);
  }

  lemma RealignKeepsShift(b: Book, strict: bool, day: int, now: int)
    requires Inv(b, strict) && IsOpen(b, day)
    ensures IsOpen(Realign(b, day, now), day)
    ensures Cutoff(Realign(b, day, now), day) == Cutoff(b, day) > 0
    ensures ShiftIds(Realign(b, day, now), day) == ShiftIds(b, day)
    ensures PreOpenFundIds(Realign(b, day, now), day) == PreOpenFundIds(b, day)
  {
    SealIsRedundant(b, strict, day);
    assert SessionOk(b, day);
    var b1 := Realign(b, day, now);
    assert b1.sessions[day].sealedIds == SealedBefore(b.rows, day, Cutoff(b, day));
    assert forall i | i in SealedOf(b1, day) :: b.rows[i].createdAt < Cutoff(b, day);
  }

  lemma RealignedEnding(b: Book, strict: bool, day: int, now: int)
    requires Inv(b, strict) && IsOpen(b, day)
    ensures IsOpen(Realign(b, day, now), day)
    ensures PriorEnding(Realign(b, day, now), day) == PriorEnding(b, day)
    ensures OpenBookEnding(Realign(b, day, now), day) == OpenBookEnding(b, day)
  {
    RealignKeepsShift(b, strict, day, now);
    PriorEndingFrame(b, Realign(b, day, now), day);
  }

  /** Reconciling never changes which rows count and never lowers the stored ending. */
  lemma ReconcileKeepsShift(b: Book, strict: bool, day: int, now: int)
    requires Reachable(b, strict) && IsOpen(b, day)
    ensures day in b.balances && day in Reconcile(b, day, now).balances
    ensures ShiftIds(Reconcile(b, day, now), day) == ShiftIds(b, day)
    ensures Reconcile(b, day, now).balances[day] == Balance(b.sessions[day].start, OpenBookEnding(b, day))
    ensures Reconcile(b, day, now).balances[day].ending >= b.balances[day].ending
  {
    ReachableInv(b, strict);
    assert OpenAgrees(b, day);
    RealignKeepsShift(b, strict, day, now);
    RealignedEnding(b, strict, day, now);
    assert ShiftIds(Reconcile(b, day, now), day) == ShiftIds(Realign(b, day, now), day);
  }

  lemma ReconcileIsIdempotent(b: Book, strict: bool, day: int, now: int, again: int)
    requires Reachable(b, strict) && IsOpen(b, day)
    ensures Reconcile(Reconcile(b, day, now), day, again) == Reconcile(b, day, now)
  {
    ReachableInv(b, strict);
    RealignKeepsShift(b, strict, day, now);
    RealignedEnding(b, strict, day, now);
    var b1 := Realign(b, day, now);
    var b2 := Reconcile(b, day, now);
    var ending := OpenBookEnding(b, day);
    // The second run sees the same cutoff, so it rewrites the session with itself.
    assert Cutoff(b2, day) == Cutoff(b1, day) == b1.sessions[day].cutoffAt;
    assert Realign(b2, day, again).sessions == b1.sessions;
    assert Realign(b2, day, again) == b2;
    assert ShiftIds(b2, day) == ShiftIds(b1, day) && PreOpenFundIds(b2, day) == PreOpenFundIds(b1, day);
    PriorEndingFrame(b1, b2, day);
    assert OpenBookEnding(b2, day) == ending;
    assert b2.balances[day] == Balance(b.sessions[day].start, ending);
  }

  /** The correction for transfers received before opening raises the book ending of an open session. */
  ghost predicate CorrectionFires(b: Book, day: int) {
    IsOpen(b, day) && PreOpenFundNet(b, day) > 0
    && b.sessions[day].start < PriorEnding(b, day) + PreOpenFundNet(b, day) - 1
  }

  /** Reconciling keeps the invariant of the book exactly when that correction does not fire. */
  lemma ReconcileKeepsInvExactly(b: Book, strict: bool, day: int, now: int)
    requires Inv(b, strict)
    ensures Inv(Reconcile(b, day, now), strict) <==> !CorrectionFires(b, day)
    ensures !CorrectionFires(b, day) ==> Reconcile(b, day, now).balances == b.balances
  {
    if IsOpen(b, day) {
      assert OpenAgrees(b, day);
      RealignKeepsShift(b, strict, day, now);
      RealignedEnding(b, strict, day, now);
      var b' := Reconcile(b, day, now);
      assert ShiftIds(b', day) == ShiftIds(Realign(b, day, now), day);
      if CorrectionFires(b, day) {
        assert !OpenAgrees(b', day);
      } else {
        assert b'.balances == b.balances;
        RealignedKeepsInv(b, b', strict, day);
      }
    }
  }

  /** A session whose cutoff and seal are rewritten without changing what its shift counts. */
  lemma RealignedKeepsInv(b: Book, b': Book, strict: bool, day: int)
    requires Inv(b, strict) && IsOpen(b, day) && IsOpen(b', day) && OpenAgrees(b', day)
    requires b' == b.(sessions := b.sessions[day := b'.sessions[day]])
    requires b'.sessions[day].start == b.sessions[day].start && SessionOk(b', day)
    ensures Inv(b', strict)
  {
    forall d ensures OpenAgrees(b', d) {
      assert OpenAgrees(b, d);
      if d != day { StillAgrees(b, b', d); }
    }
    forall d | d in b'.sessions ensures SessionOk(b', d) {
      if d != day { assert SessionOk(b, d); }
    }
  }

  /* ---------- the first shift of a day ---------- */

  /** The start already holds everything that was there before opening. */
  ghost predicate StartCovers(b: Book, day: int) {
    IsOpen(b, day) && b.sessions[day].start >= PriorEnding(b, day) + PreOpenFundNet(b, day)
  }

  /** Opening a day for the first time at the expected amount covers the transfers posted before. */
  lemma FirstOpenCovers(b: Book, strict: bool, t: Tick, counted: int)
    requires Inv(b, strict) && Admissible(b, t, EmployeeOpen(counted))
    requires t.today !in b.sessions && counted >= 0 && counted == ExpectedOpening(b, t.today)
    ensures StartCovers(Next(b, strict, t, EmployeeOpen(counted)), t.today)
  {
    var day := t.today;
    var b' := Next(b, strict, t, EmployeeOpen(counted));
    var started := OpenDay(b, day, counted, t.now, t.later).value;
    NewShiftIsEmpty(b, strict, t, day, counted);
    assert Cutoff(b', day) == Cutoff(started, day) == t.later;
    UpsertMarkerRows(b.rows, day, Start, t.later);
    MarkerKeepsRows(b, b', t, day, Start, day);
    FullDayFrame(b, b', day);
    var funds := PreOpenFundIds(b', day);
    var others := FullDayIds(b', day) - funds;
    assert FullDayIds(b', day) == funds + others;
    NetUnion(b'.rows, funds, others);
    forall i: nat | i < |b'.rows| && i in others ensures b'.rows[i].Cash() == 0 {
      assert i < |b.rows|;
      assert b.rows[i].Counts(day, b.awaiting);
    }
    NetNone(b'.rows, others);
    PriorEndingFrame(b, b', day);
  }

  /** Earlier days keep their stored endings: postings go to today, and a sweep stores what is stored. */
  lemma EarlierEndingKept(b: Book, t: Tick, step: Step, day: int, d: int)
    requires Inv(b, true) && Admissible(b, t, step) && day in b.sessions && d < day
    ensures d in Next(b, true, t, step).balances <==> d in b.balances
    ensures d in b.balances ==> Next(b, true, t, step).balances[d].ending == b.balances[d].ending
  {
    assert OpenAgrees(b, d);
  }

  lemma PriorEndingKept(b: Book, t: Tick, step: Step, day: int)
    requires Inv(b, true) && Admissible(b, t, step) && IsOpen(b, day)
    ensures PriorEnding(Next(b, true, t, step), day) == PriorEnding(b, day)
  {
    var b' := Next(b, true, t, step);
    forall d | d < day
      ensures d in b'.balances <==> d in b.balances
      ensures d in b.balances ==> b'.balances[d].ending == b.balances[d].ending
    {
      EarlierEndingKept(b, t, step, day, d);
    }
    PriorEndingFrame(b, b', day);
  }

  /** What one step does to the shift of a day that stays open. */
  lemma StepKeepsPreOpenFunds(b: Book, strict: bool, t: Tick, step: Step, day: int)
    requires Inv(b, strict) && Admissible(b, t, step) && IsOpen(b, day) && IsOpen(Next(b, strict, t, step), day)
    ensures PreOpenFundNet(Next(b, strict, t, step), day) == PreOpenFundNet(b, day)
    ensures Next(b, strict, t, step).sessions[day] == b.sessions[day]
    ensures Cutoff(Next(b, strict, t, step), day) == Cutoff(b, day)
  {
    var b' := Next(b, strict, t, step);
    if AddedRow(b, strict, t, step).Some? {
      StepAddsRow(b, strict, t, step);
      FreshRowShift(b, b', strict, t, AddedRow(b, strict, t, step).value, day);
    } else if IsSessionStep(step) {
      SessionStepShift(b, strict, t, step, day);
    } else {
      StepAddsNoRow(b, strict, t, step);
      ShiftFrame(b, b', day);
    }
  }

  lemma FreshRowShift(b: Book, b': Book, strict: bool, t: Tick, r: Row, day: int)
    requires Inv(b, strict) && FreshRow(b, b', t, r) && IsOpen(b, day)
    ensures PreOpenFundNet(b', day) == PreOpenFundNet(b, day)
    ensures Cutoff(b', day) == Cutoff(b, day)
  {
    FreshRowSameDay(b, b', strict, t, r, day);
    if day == r.date && !r.voided {
      assert SessionOk(b, day);
      CutoffInPast(b, strict, day);
      ShiftGrows(b, b', r);
    } else {
      ShiftFrame(b, b', day);
    }
  }

  lemma SessionStepShift(b: Book, strict: bool, t: Tick, step: Step, day: int)
    requires Inv(b, strict) && Admissible(b, t, step) && IsOpen(b, day) && IsOpen(Next(b, strict, t, step), day)
    requires IsSessionStep(step)
    ensures PreOpenFundNet(Next(b, strict, t, step), day) == PreOpenFundNet(b, day)
    ensures Next(b, strict, t, step).sessions[day] == b.sessions[day]
    ensures Cutoff(Next(b, strict, t, step), day) == Cutoff(b, day)
  {
    var b' := Next(b, strict, t, step);
    SessionStepShape(b, strict, t, step);
    if b' != At(b, t) {
      MarkerKeepsRows(b, b', t, SessionDay(t, step), SessionMarker(step), day);
    }
    ShiftFrame(b, b', day);
  }

  ghost predicate StaysOpen(b: Book, strict: bool, trace: seq<(Tick, Step)>, day: int) {
    forall n | 0 <= n <= |trace| :: IsOpen(Run(b, strict, trace[..n]), day)
  }

  lemma {:induction false} StartCoversThroughout(b: Book, trace: seq<(Tick, Step)>, day: int)
    requires Inv(b, true) && StartCovers(b, day) && AdmissibleRun(b, true, trace) && StaysOpen(b, true, trace, day)
    ensures StartCovers(Run(b, true, trace), day)
  {
    if trace != [] {
      var n := |trace| - 1;
      var before := trace[..n];
      LastStep(b, true, trace);
      forall k | 0 <= k <= n ensures IsOpen(Run(b, true, before[..k]), day) {
        assert before[..k] == trace[..k];
      }
      StartCoversThroughout(b, before, day);
      RunKeepsInv(b, true, before);
      assert IsOpen(Run(b, true, trace[..n]), day);
      assert trace[..|trace|] == trace;
      var last := Run(b, true, before);
      StepKeepsPreOpenFunds(last, true, trace[n].0, trace[n].1, day);
      PriorEndingKept(last, trace[n].0, trace[n].1, day);
    }
  }

  /** On the first shift of a day, opened by an employee at the expected amount in strict mode, the
      pre-open correction never fires: the three book endings are one number, as long as the shift lasts. */
  lemma FirstShiftBookEnding(b: Book, t: Tick, counted: int, trace: seq<(Tick, Step)>)
    requires Reachable(b, true) && Admissible(b, t, EmployeeOpen(counted))
    requires t.today !in b.sessions && counted >= 0 && counted == ExpectedOpening(b, t.today)
    requires var started := Next(b, true, t, EmployeeOpen(counted));
      AdmissibleRun(started, true, trace) && StaysOpen(started, true, trace, t.today)
    ensures var now := Run(Next(b, true, t, EmployeeOpen(counted)), true, trace);
      && IsOpen(now, t.today) && t.today in now.balances
      && OpenBookEnding(now, t.today) == now.sessions[t.today].start + ShiftNet(now, t.today)
          == now.balances[t.today].ending
  {
    ReachableInv(b, true);
    var started := Next(b, true, t, EmployeeOpen(counted));
    StepKeepsInv(b, true, t, EmployeeOpen(counted));
    FirstOpenCovers(b, true, t, counted);
    StartCoversThroughout(started, trace, t.today);
    RunKeepsInv(started, true, trace);
    assert OpenAgrees(Run(started, true, trace), t.today);
  }

  /* ---------- expected opening cash ---------- */

  /** In every reachable state with a closed session the chain of reads is one maximum. */
  lemma ExpectedOpeningIsMaximum(b: Book, strict: bool, day: int, s: int)
    requires Reachable(b, strict) && LastClosed(b, day) == Some(s)
    ensures s in b.sessions && b.sessions[s].closed && s in b.balances && s <= day
    ensures forall d | d in b.sessions && b.sessions[d].closed && d <= day :: d <= s
    ensures s < day ==> (ExpectedOpening(b, day) ==
                         Max(Max(b.balances[s].ending + NetSpan(b, s + 1, day),
                             PriorEnding(b, day) + FullDayNet(b, day)),
                             StoredEndingOrZero(b, day)))
    ensures s == day ==> (ExpectedOpening(b, day) == Max(b.balances[day].ending,
        PriorEnding(b, day) + FullDayNet(b, day)))
  {
    ReachableInv(b, strict);
    assert s in ClosedDates(b);
    ExpectedOpeningClosedForm(b, day, s);
    forall d | d in b.sessions && b.sessions[d].closed && d <= day ensures d <= s {
      assert d in ClosedDates(b);
    }
  }

  /** An employee who opens a later day never starts below the last closing plus all net cash since. */
  lemma EmployeeNeverStartsShort(b: Book, strict: bool, t: Tick, counted: int, s: int)
    requires Reachable(b, strict) && Admissible(b, t, EmployeeOpen(counted))
    requires LastClosed(b, t.today) == Some(s) && s < t.today
    requires !IsOpen(b, t.today) && IsOpen(Next(b, strict, t, EmployeeOpen(counted)), t.today)
    ensures s in b.balances
    ensures Next(b, strict, t, EmployeeOpen(counted)).sessions[t.today].start >= b.balances[s].ending
        + NetSpan(b, s + 1, t.today)
  {
    ExpectedOpeningIsMaximum(b, strict, t.today, s);
  }
}
