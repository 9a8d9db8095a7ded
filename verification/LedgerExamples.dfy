/** Reachable books on which the promises that `LedgerTheorems` makes conditional do fail. */
module LedgerExamples {
  import opened Options
  import opened Ledger
  import opened LedgerLemmas
  import opened LedgerRuns
  import opened LedgerInvariant
  import opened LedgerTheorems

  /** A branch whose first day is opened with `cash` in the till. */
  ghost predicate JustOpened(b: Book, strict: bool, day: int, cash: nat) {
    && Reachable(b, strict) && IsOpen(b, day) && b.sessions[day].start == cash && b.awaiting == {}
    && b.balances == map[day := Balance(cash, cash)] && b.today == day
  }

  lemma OpenFirstDay(strict: bool, day: int, cash: nat) returns (b: Book)
    ensures JustOpened(b, strict, day, cash)
  {
    var empty := Book(map[], map[], map[], [], {}, 0, 0, day);
    var t := Tick(day, 1, 2);
    ReachFresh(empty, strict);
    ReachNext(empty, strict, t, SuperAdminOpen(cash));
    b := Next(empty, strict, t, SuperAdminOpen(cash));
  }

  /** The row of a posting on the open day. */
  lemma PostOnOpenDay(b: Book, strict: bool, day: int, cash: nat, t: Tick, step: Step)
    requires JustOpened(b, strict, day, cash) && t.today == day && Ticks(b, t)
    requires step.Posting? && step.purpose.Business? && (strict ==> cash + step.cashIn >= step.cashOut)
    ensures PostingDone(b, strict, t, step)
    ensures step.cashIn != step.cashOut ==>
              Next(b, strict, t, step).balances == map[day := Balance(cash, cash + step.cashIn - step.cashOut)]
    ensures IsOpen(Next(b, strict, t, step), day)
  {
  }

  /** Where negative cash is allowed, the evening sweep can raise a stored ending. */
  lemma SweepMayRaiseEnding()
    ensures exists b, day, later ::
              Reachable(b, false) && IsOpen(b, day) && AutoCloseDay(b, day, later).balances != b.balances
  {
    var day := 20000;
    var b := OpenFirstDay(false, day, 0);
    var t := Tick(day, b.clock + 1, b.clock + 1);
    var step := Posting(day, Business, Goods, "", 0, 500);
    PostOnOpenDay(b, false, day, 0, t, step);
    ReachNext(b, false, t, step);
    var b' := Next(b, false, t, step);
    SweepKeepsBalance(b', false, day, t.later);
    assert AutoCloseDay(b', day, t.later).balances != b'.balances;
  }

  /** A till counted empty is closed at the book balance. */
  lemma CountedZeroIsReplaced(strict: bool)
    ensures exists b, day, now, later ::
              Reachable(b, strict) && IsOpen(b, day)
                  && CloseDay(b, day, Some(0), now, later).value.balances[day].ending > 0
  {
    var day := 20000;
    var b := OpenFirstDay(strict, day, 1000);
    FastBalanceIsSimpleBalance(b, strict, day);
    var now := b.clock + 1;
    assert CloseDay(b, day, Some(0), now, now).value.balances[day].ending > 0;
  }

  /** A posting dated yesterday is accepted and leaves the two balances of today apart. */
  lemma BackdatedPostingDrifts(strict: bool)
    ensures exists b, t, step ::
              Reachable(b, strict) && PostingDone(b, strict, t, step)
              && IncrementalBalance(Next(b, strict, t, step), t.today)
                  != RecomputedBalance(Next(b, strict, t, step), t.today)
  {
    var day := 20000;
    var b := OpenFirstDay(strict, day, 1000);
    var t := Tick(day, b.clock + 1, b.clock + 1);
    var step := Posting(day - 1, Business, Goods, "", 500, 0);
    PostOnOpenDay(b, strict, day, 1000, t, step);
    PostingAgreesExactly(b, strict, t, step);
    assert IncrementalBalance(Next(b, strict, t, step), t.today)
        != RecomputedBalance(Next(b, strict, t, step), t.today);
  }

  /** What a branch looks like after receiving 500 before its first day is opened. */
  lemma ReceiveEarly(strict: bool, day: int) returns (b: Book)
    ensures Reachable(b, strict) && b.sessions == map[] && b.awaiting == {}
    ensures b.balances == map[day := Balance(0, 500)]
    ensures b.rows == [TransferRow(Tick(day, 1, 1), "r1", 500, true)]
    ensures b.clock == 1 && b.today == day && b.capital == 0
  {
    var empty := Book(map[], map[], map[], [], {}, 0, 0, day);
    var t, step := Tick(day, 1, 1), ReceiveFunds("r1", "r1", 500, false);
    ReachFresh(empty, strict);
    ReachNext(empty, strict, t, step);
    b := Next(empty, strict, t, step);
    assert forall d :: d !in empty.balances.Keys;
    assert LatestBefore(empty.balances.Keys, day) == None;
    assert [] + [TransferRow(t, "r1", 500, true)] == b.rows;
  }

  /** A super admin who counts nothing after an early transfer opens a session whose book ending is
      corrected, so that reconciling it drives the two balances apart. */
  lemma CorrectionMayFire(strict: bool)
    ensures exists b, day :: Reachable(b, strict) && CorrectionFires(b, day) && !Inv(Reconcile(b, day, 3), strict)
  {
    var day := 20000;
    var b := ReceiveEarly(strict, day);
    var t := Tick(day, 2, 2);
    ReachNext(b, strict, t, SuperAdminOpen(0));
    var b' := Next(b, strict, t, SuperAdminOpen(0));
    OpenedLate(b, b', strict, day, t);
    ReachableInv(b', strict);
    ReconcileKeepsInvExactly(b', strict, day, 3);
  }

  lemma OpenedLate(b: Book, b': Book, strict: bool, day: int, t: Tick)
    requires Reachable(b, strict) && Ticks(b, t) && t == Tick(day, 2, 2)
    requires b.clock == 1 && b.today == day && b.capital == 0
    requires b.sessions == map[] && b.balances == map[day := Balance(0, 500)] && b.awaiting == {}
    requires b.rows == [TransferRow(Tick(day, 1, 1), "r1", 500, true)]
    requires b' == Next(b, strict, t, SuperAdminOpen(0))
    ensures CorrectionFires(b', day)
  {
    ReachableInv(b, strict);
    OpeningCutoff(b, strict, t, day, 0);
    var opened' := OpenDay(b, day, 0, t.now, t.later).value;
    assert b'.rows == opened'.rows && Cutoff(b', day) == Cutoff(opened', day) == 2;
    assert FindMarker(b.rows, day, Start) == None;
    assert |b'.rows| == 2 && b'.rows[0] == b.rows[0] && b'.rows[1].IsMarker();
    assert PreOpenFundIds(b', day) == {0};
    NetOne(b'.rows, 0);
    assert forall d :: d in b'.balances.Keys ==> d == day;
    assert LatestBefore(b'.balances.Keys, day) == None;
  }
}
