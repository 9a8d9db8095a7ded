/** A reachable desk on which a compensated confirmation does change what a branch may release. */
module FundExamples {
  import opened Options
  import opened Ledger
  import opened OpeningCash
  import opened LedgerRuns
  import opened LedgerInvariant
  import opened LedgerExamples
  import opened FundRequests
  import opened FundProofs
  import opened FundTheorems

  const DAY := 20000
  const SENDER: Branch := "east"
  const RECEIVER: Branch := "west"
  const SEND := DoDirect("r1", None, SENDER, 500, false, "")
  const RECEIVE := DoConfirm(0, None, AtStatus)

  function NewBranch(capital: nat): Book { Book(map[], map[], map[], [], {}, capital, 0, DAY) }

  function At(now: nat): Tick { Tick(DAY, now, now) }

  /** Two branches without any event; the first has an opening capital. */
  function TwoBranches(capital: nat): Desk {
    Desk([], map[SENDER := NewBranch(capital), RECEIVER := NewBranch(0)], [])
  }

  lemma BranchesDiffer()
    ensures SENDER != RECEIVER
  {
    assert SENDER[0] != RECEIVER[0];
  }

  /** Head office has sent 500 to the first branch, which has not confirmed yet. */
  lemma SentTables(capital: nat, strict: bool)
    ensures var s := Act(TwoBranches(capital), strict, At(1), SEND);
      && |s.requests| == 1 && s.books.Keys == {SENDER, RECEIVER} && s.books[RECEIVER] == NewBranch(0)
      && s.books[SENDER] == NewBranch(capital).(awaiting := {"r1"}, clock := 1)
      && var r := s.requests[0];
         r.no == "r1" && r.Code() == "r1" && r.status.PendingConfirmation? && r.branch == SENDER
         && r.sent == Some(500) && !r.expense && r.source.None?
  {
    BranchesDiffer();
  }

  lemma Sent(capital: nat, strict: bool) returns (s: Desk)
    ensures ReachableDesk(s, strict) && |s.requests| == 1 && Allowed(s, At(2), RECEIVE)
    ensures s.books.Keys == {SENDER, RECEIVER}
    ensures var r := s.requests[0];
      r.status.PendingConfirmation? && r.branch == SENDER && r.sent == Some(500) && !r.expense && r.source.None?
    ensures s.books[SENDER].balances == map[] && s.books[SENDER].sessions == map[] && s.books[SENDER].capital == capital
  {
    BranchesDiffer();
    ReachFreshDesk(TwoBranches(capital), strict);
    ReachAct(TwoBranches(capital), strict, At(1), SEND);
    s := Act(TwoBranches(capital), strict, At(1), SEND);
    SentTables(capital, strict);
  }

  /** The first branch may release nothing; its confirmation fails at the status update and is compensated;
      now it may release up to its opening capital. */
  lemma CompensationMayFreeFunds(strict: bool)
    ensures exists s, t, amount: nat ::
              && ReachableDesk(s, strict) && |s.requests| == 1 && Allowed(s, t, RECEIVE)
              && !Confirm(s, strict, t, 0, None, AtStatus).1
              && !SourceUsable(s, Some(SENDER), RECEIVER, amount, t.today)
              && SourceUsable(Confirm(s, strict, t, 0, None, AtStatus).0, Some(SENDER), RECEIVER, amount, t.today)
  {
    BranchesDiffer();
    var s := Sent(1000, strict);
    var t := At(2);
    var b := s.books[SENDER];
    assert Receivable(s, 0, None) == Some(500);
    assert CashAccepted(s, strict, t, 0, 500);
    assert forall d :: d !in b.balances.Keys;
    assert LatestBefore(b.balances.Keys, DAY + 1) == None;
    assert LatestBalance(b, DAY) == 0;
    var s' := Confirm(s, strict, t, 0, None, AtStatus).0;
    ReleasedAfter(s, strict, t);
    assert !SourceUsable(s, Some(SENDER), RECEIVER, 1000, t.today);
  }

  lemma ReleasedAfter(s: Desk, strict: bool, t: Tick)
    requires t == At(2) && s.books.Keys == {SENDER, RECEIVER} && s.books[SENDER].capital == 1000
    requires |s.requests| == 1 && Receivable(s, 0, None) == Some(500) && s.requests[0].branch == SENDER
    requires ReachableDesk(s, strict) && Allowed(s, t, RECEIVE) && CashAccepted(s, strict, t, 0, 500)
    requires s.books[SENDER].balances == map[] && s.requests[0].status.PendingConfirmation?
    ensures SourceUsable(Confirm(s, strict, t, 0, None, AtStatus).0, Some(SENDER), RECEIVER, 1000, DAY)
  {
    BranchesDiffer();
    assert Inv(s.books[SENDER], strict) by { ReachableDeskInv(s, strict); }
    var r, b := s.requests[0], s.books[SENDER];
    var step := ReceiveFailed(r.Code(), 500, r.expense, true);
    var s' := Confirm(s, strict, t, 0, None, AtStatus).0;
    assert s'.books == s.books[SENDER := Next(b, strict, t, step)];
    FailedReceiptBalances(b, strict, t, step);
    assert forall d :: d !in b.balances.Keys;
    assert LatestBefore(b.balances.Keys, DAY) == None;
    assert PriorEnding(b, DAY) == 1000;
    assert s'.books[SENDER].balances == map[DAY := Balance(1000, 1000)];
    assert DAY in s'.books[SENDER].balances.Keys;
    assert LatestBefore(s'.books[SENDER].balances.Keys, DAY + 1) == Some(DAY);
  }

  /** A branch whose day is closed at 0. */
  ghost predicate ClosedAtZero(b: Book) {
    && Reachable(b, false) && b.today == DAY && b.awaiting == {} && b.balances == map[DAY := Balance(0, 0)]
    && DAY in b.sessions && b.sessions[DAY].closed
  }

  lemma CloseAtZero(b: Book) returns (b': Book)
    requires JustOpened(b, false, DAY, 0)
    ensures ClosedAtZero(b')
  {
    var t := Tick(DAY, b.clock + 1, b.clock + 1);
    ReachableInv(b, false);
    assert OpenAgrees(b, DAY);
    ReachNext(b, false, t, ManualClose(Some(0)));
    b' := Next(b, false, t, ManualClose(Some(0)));
  }

  /** It then bears an expense of 500: the next day expects a debt. */
  lemma BearExpense(b: Book) returns (b': Book)
    requires ClosedAtZero(b)
    ensures Reachable(b', false) && b'.today == DAY && b'.balances == map[DAY := Balance(0, -500)]
    ensures DAY in b'.sessions && b'.sessions[DAY].closed
  {
    var t := Tick(DAY, b.clock + 1, b.clock + 1);
    ReachNext(b, false, t, ReceiveFunds("r1", "r1", 500, true));
    b' := Next(b, false, t, ReceiveFunds("r1", "r1", 500, true));
  }

  /** Where negative cash is allowed, a failed and compensated receipt can lower an expected opening. */
  lemma CompensationMayLowerExpectation()
    ensures exists b, t, step ::
              && Reachable(b, false) && Admissible(b, t, step) && step.ReceiveFailed?
              && ExpectedOpening(Next(b, false, t, step), t.today) < ExpectedOpening(b, t.today)
  {
    var b := OpenFirstDay(false, DAY, 0);
    b := CloseAtZero(b);
    b := BearExpense(b);
    var t, step := Tick(DAY + 1, b.clock + 1, b.clock + 1), ReceiveFailed("r2", 100, false, true);
    ReachableInv(b, false);
    ExpectedInDebt(b);
    FailedReceiptKeepsCash(b, false, t, step);
    FailedReceiptBalances(b, false, t, step);
    FailedReceiptShape(b, false, t, step);
    AddedRowBasis(b, Next(b, false, t, step), false, DAY + 1, DAY + 1);
    UnbookedDay(b, DAY + 1);
    assert ExpectedOpening(Next(b, false, t, step), t.today) < ExpectedOpening(b, t.today);
  }

  /** The branch in debt expects -500 on the next day, before the stored ending of that day is looked at. */
  lemma ExpectedInDebt(b: Book)
    requires Inv(b, false) && b.balances == map[DAY := Balance(0, -500)] && DAY in b.sessions && b.sessions[DAY].closed
    ensures PriorEnding(b, DAY + 1) == SuggestedBasis(b, DAY + 1) == LastClosedAmount(b, DAY + 1) == -500
    ensures ExpectedOpening(b, DAY + 1) == 0
  {
    assert DAY in b.balances.Keys && DAY in ClosedDates(b);
    assert LatestBefore(b.balances.Keys, DAY + 1) == Some(DAY);
    assert LastClosed(b, DAY + 1) == Some(DAY);
    UnbookedDay(b, DAY + 1);
    OneDaySpan(b, DAY + 1);
  }

  lemma OneDaySpan(b: Book, day: int)
    ensures NetSpan(b, day, day) == FullDayNet(b, day)
  {
    assert NetSpan(b, day, day - 1) == 0;
  }
}
