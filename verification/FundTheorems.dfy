/** Main results about every reachable state of the fund-transfer protocol. */
module FundTheorems {
  import opened Options
  import opened Ledger
  import opened LedgerLemmas
  import opened OpeningCash
  import opened LedgerRuns
  import opened LedgerInvariant
  import opened FundRequests
  import opened FundProofs

  /* ---------- requests ---------- */

  /** Amounts never grow along the protocol, and the disjuncts kept for older databases never fire. */
  lemma AmountsShrink(s: Desk, strict: bool, id: nat)
    requires ReachableDesk(s, strict) && id < |s.requests|
    ensures var r := s.requests[id];
      && (r.sent.Some? ==> r.sent.value <= r.requested)
      && (r.confirmed.Some? ==> r.sent.Some? && 0 < r.confirmed.value <= r.sent.value)
      && (IsPendingConfirmation(r) <==> r.status.PendingConfirmation?)
      && (IsPendingSourceConfirmation(r) <==> r.status.PendingSource?)
  {
    ReachableDeskInv(s, strict);
    assert RequestOk(s, s.requests[id]);
  }

  /** The source debits the journal holds for a request. */
  function SourceDebits(legs: seq<Leg>): seq<Leg> {
    if legs == [] then []
    else SourceDebits(legs[..|legs| - 1]) + (if legs[|legs| - 1].kind.SourceOut? then [legs[|legs| - 1]] else [])
  }

  lemma ScriptDebits(r: Request)
    ensures SourceDebits(Script(r)) == DebitScript(r)
  {
    var d := DebitScript(r);
    DebitsOfReceipt(d, ReceiptScript(r));
    if d != [] {
      assert d[..0] == [];
    }
  }

  /** A branch-routed request was debited exactly once, by the amount sent, from the moment its source
      confirmed, and no other request ever was; the debit is a live row of the source's book. */
  lemma DebitedExactlyOnce(s: Desk, strict: bool, id: nat)
    requires ReachableDesk(s, strict) && id < |s.requests|
    ensures var r := s.requests[id];
      SourceDebits(Live(s.journal, id)) ==
        (if r.Routed() && (r.status.PendingConfirmation? || r.status.Transferred?) && r.sent.Some?
         then [Leg(SourceOut, r.source, 0, r.sent.value)] else [])
    ensures s.requests[id].status.PendingConfirmation? || s.requests[id].status.Transferred?
        ==> s.requests[id].sent.Some?
    ensures forall k | 0 <= k < |s.journal| && s.journal[k].request == id :: Linked(s, s.journal[k])
  {
    ReachableDeskInv(s, strict);
    assert RequestOk(s, s.requests[id]) && Live(s.journal, id) == Script(s.requests[id]);
    ScriptDebits(s.requests[id]);
  }

  lemma {:induction false} DebitsOfReceipt(d: seq<Leg>, receipt: seq<Leg>)
    requires forall l | l in receipt :: !l.kind.SourceOut?
    ensures SourceDebits(d + receipt) == SourceDebits(d)
  {
    if receipt == [] {
      assert d + receipt == d;
    } else {
      var n := |receipt| - 1;
      assert (d + receipt)[..|d + receipt| - 1] == d + receipt[..n];
      DebitsOfReceipt(d, receipt[..n]);
    }
  }

  /** The arrows of the status machine. */
  predicate StatusStep(a: Status, b: Status) {
    match a
    case Waiting => b.Waiting? || b.Approved? || b.Rejected? || b.Cancelled?
    case Approved => b.Approved? || b.PendingSource? || b.PendingConfirmation?
    case PendingSource => b.PendingSource? || b.PendingConfirmation?
    case PendingConfirmation => b.PendingConfirmation? || b.Transferred?
    case Transferred => b.Transferred?
    case Rejected => b.Rejected?
    case Cancelled => b.Cancelled?
  }

  /** Request `id` moves along an arrow or stays; a finished request keeps its whole row. */
  predicate Moves(rs: seq<Request>, rs': seq<Request>, id: nat)
    requires id < |rs|
  {
    id < |rs'| && StatusStep(rs[id].status, rs'[id].status) && (rs[id].Terminal() ==> rs'[id] == rs[id])
  }

  lemma SourceConfirmMoves(s: Desk, strict: bool, t: Tick, j: nat, sum: Option<nat>, id: nat)
    requires j < |s.requests| && RequestOk(s, s.requests[j]) && id < |s.requests|
    ensures Moves(s.requests, OrSame(s, SourceConfirm(s, strict, t, j, sum)).requests, id)
  {
  }

  lemma TransferMoves(s: Desk, strict: bool, t: Tick, j: nat, from: Option<Branch>, sum: Option<nat>, reference: string,
                      id: nat)
    requires j < |s.requests| && id < |s.requests|
    ensures Moves(s.requests, OrSame(s, Transfer(s, strict, t, j, from, sum, reference)).requests, id)
  {
  }

  /** What a confirmation does to the requests and the books, by its outcome. */
  lemma ConfirmShape(s: Desk, strict: bool, t: Tick, j: nat, received: Option<nat>, failure: Failure)
    requires j < |s.requests|
    ensures var (s', ok) := Confirm(s, strict, t, j, received, failure);
      var r := s.requests[j];
      if ok then IsPendingConfirmation(r) && exists r' :: s'.requests == s.requests[j := r'] && r'.status.Transferred?
      else
        && s'.requests == s.requests
        && (s'.books == s.books
            || (Receivable(s, j, received).Some? && Receivable(s, j, received).value > 0
                && s'.books == s.books[r.branch := Next(s.books[r.branch], strict, t,
                                         ReceiveFailed(r.Code(), Receivable(s, j, received).value, r.expense,
                                             !failure.AtBalance?))]))
  {
    var (s', ok) := Confirm(s, strict, t, j, received, failure);
    if ok {
      assert s'.requests == s.requests[j := s'.requests[j]];
    }
  }

  lemma ConfirmMoves(s: Desk, strict: bool, t: Tick, j: nat, received: Option<nat>, failure: Failure, id: nat)
    requires j < |s.requests| && RequestOk(s, s.requests[j]) && id < |s.requests|
    ensures Moves(s.requests, Confirm(s, strict, t, j, received, failure).0.requests, id)
  {
    ConfirmShape(s, strict, t, j, received, failure);
  }

  lemma DirectMoves(s: Desk, strict: bool, t: Tick, no: string, from: Option<Branch>, branch: Branch, amount: nat,
                    expense: bool,
                    reference: string, id: nat)
    requires id < |s.requests|
    ensures Moves(s.requests, OrSame(s, CreateDirect(s, strict, t, no, from, branch, amount, expense,
        reference)).requests, id)
  {
  }

  lemma BranchEventMoves(s: Desk, strict: bool, t: Tick, branch: Branch, step: Step, id: nat)
    requires id < |s.requests| && branch in s.books
    ensures Moves(s.requests, OnBook(s, strict, branch, t, step).requests, id)
  {
  }

  lemma PlainMoves(s: Desk, strict: bool, t: Tick, a: Action, id: nat)
    requires id < |s.requests| && (a.DoCreate? || a.DoReview? || a.DoCancel?)
    ensures Moves(s.requests, Act(s, strict, t, a).requests, id)
  {
  }

  /** Every action moves every request along an arrow or leaves it; terminal statuses are never left. */
  lemma StatusMachine(s: Desk, strict: bool, t: Tick, a: Action, id: nat)
    requires ReachableDesk(s, strict) && id < |s.requests|
    ensures Moves(s.requests, Act(s, strict, t, a).requests, id)
  {
    assert RequestsOk(s) by { ReachableDeskInv(s, strict); }
    match a
    case DoDirect(no, from, branch, amount, expense, reference) =>
      DirectMoves(s, strict, t, no, from, branch, amount, expense, reference, id);
    case DoTransfer(j, from, sum, reference) =>
      if j < |s.requests| { TransferMoves(s, strict, t, j, from, sum, reference, id); }
    case DoSourceConfirm(j, sum) =>
      if j < |s.requests| { SourceConfirmMoves(s, strict, t, j, sum, id); }
    case DoConfirm(j, sum, failure) =>
      if j < |s.requests| { ConfirmMoves(s, strict, t, j, sum, failure, id); }
    case BranchEvent(branch, step) =>
      if branch in s.books { BranchEventMoves(s, strict, t, branch, step, id); }
    case _ => PlainMoves(s, strict, t, a, id);
  }

  /** A source confirmation that passes its checks always completes. */
  lemma SourceConfirmCompletes(s: Desk, strict: bool, t: Tick, id: nat, sum: Option<nat>)
    requires ReachableDesk(s, strict) && Allowed(s, t, DoSourceConfirm(id, sum)) && id < |s.requests|
    requires SourceConfirm(s, strict, t, id, sum).Some?
    ensures SourceConfirm(s, strict, t, id, sum).value.requests[id].status.PendingConfirmation?
  {
    ReachableDeskInv(s, strict);
    SourceConfirmKeepsInv(s, strict, t, id, sum);
  }

  /* ---------- confirmation is all or nothing ---------- */

  /** The sessions, and for every day the balances, the net, the prior ending and the book ending.  The
      latest stored ending and the expected opening are not among them: see `FailedConfirmLatestExactly`
      and `FailedConfirmExpectedExactly`. */
  ghost predicate SameCash(b: Book, b': Book) {
    && b'.sessions == b.sessions && b'.awaiting == b.awaiting
    && (forall day :: IncrementalBalance(b', day) == IncrementalBalance(b, day))
    && (forall day :: RecomputedBalance(b', day) == RecomputedBalance(b, day))
    && (forall day :: FullDayNet(b', day) == FullDayNet(b, day))
    && (forall day :: PriorEnding(b', day) == PriorEnding(b, day))
    && (forall day | IsOpen(b, day) :: OpenBookEnding(b', day) == OpenBookEnding(b, day))
  }

  /** A balance row created with the prior day's ending changes no prior ending. */
  lemma PriorEndingSame(b: Book, b': Book, today: int, day: int)
    requires b'.capital == b.capital
    requires b'.balances == b.balances
          || (today !in b.balances && b'.balances == b.balances[today := Balance(PriorEnding(b, today),
              PriorEnding(b, today))])
    ensures PriorEnding(b', day) == PriorEnding(b, day)
  {
    var x, x' := LatestBefore(b.balances.Keys, day), LatestBefore(b'.balances.Keys, day);
    if x.Some? { assert x.value in b'.balances.Keys; }
    if today !in b.balances && today in b'.balances && today < day {
      assert today in b'.balances.Keys;
      assert forall d | d in b'.balances.Keys :: d == today || d in b.balances.Keys;
      if x'.value == today {
        var y := LatestBefore(b.balances.Keys, today);
        if y.Some? {
          assert y.value in b.balances.Keys;
          assert y.value <= x.value;
          assert x.value in b'.balances.Keys && x.value <= today;
        }
        assert y == x;
      } else {
        assert x'.value in b.balances.Keys;
      }
    } else if x'.Some? && x'.value != today {
      assert x'.value in b.balances.Keys;
    }
  }

  lemma FailedReceiptShape(b: Book, strict: bool, t: Tick, step: Step)
    requires Inv(b, strict) && Admissible(b, t, step) && step.ReceiveFailed?
    ensures var b' := Next(b, strict, t, step);
      && b'.rows == b.rows + [TransferRow(t, step.code, step.amount, !step.expense).(voided := true)]
      && b'.sessions == b.sessions && b'.awaiting == b.awaiting && b'.capital == b.capital
      && (b'.balances == b.balances || b'.balances == b.balances[t.today := WithEnding(b, t.today,
          IncrementalBalance(b, t.today))])
  {
    StepAddsRow(b, strict, t, step);
    if step.balanceWritten && ReceiveCash(b, strict, t, step.code, step.amount, step.expense).1 {
      UndoRestores(b, strict, t, step.code, step.amount, step.expense);
    }
  }

  /** A failed receipt whose balance change was made and reversed on a day without a balance row. */
  ghost predicate LeavesRow(b: Book, strict: bool, t: Tick, step: Step) {
    && step.ReceiveFailed? && step.balanceWritten && t.today !in b.balances
    && ReceiveCash(b, strict, t, step.code, step.amount, step.expense).1
  }

  /** The row it leaves carries the prior ending; otherwise the stored balances are untouched. */
  lemma FailedReceiptBalances(b: Book, strict: bool, t: Tick, step: Step)
    requires Inv(b, strict) && Admissible(b, t, step) && step.ReceiveFailed?
    ensures Next(b, strict, t, step).balances ==
              if LeavesRow(b, strict, t, step)
              then b.balances[t.today := Balance(PriorEnding(b, t.today), PriorEnding(b, t.today))] else b.balances
    ensures t.today !in b.balances ==> t.today !in b.sessions
  {
    if step.balanceWritten && ReceiveCash(b, strict, t, step.code, step.amount, step.expense).1 {
      UndoRestores(b, strict, t, step.code, step.amount, step.expense);
      if t.today in b.balances {
        assert b.balances[t.today := b.balances[t.today].(ending := b.balances[t.today].ending)] == b.balances;
      }
    }
  }

  lemma FailedReceiptNets(b: Book, strict: bool, t: Tick, step: Step, day: int)
    requires Inv(b, strict) && Admissible(b, t, step) && step.ReceiveFailed?
    ensures var b' := Next(b, strict, t, step);
      FullDayNet(b', day) == FullDayNet(b, day) && ShiftNet(b', day) == ShiftNet(b, day)
      && PreOpenFundNet(b', day) == PreOpenFundNet(b, day)
  {
    var b' := Next(b, strict, t, step);
    FailedReceiptShape(b, strict, t, step);
    StepAddsRow(b, strict, t, step);
    FreshRowSameDay(b, b', strict, t, AddedRow(b, strict, t, step).value, day);
    FullDayFrame(b, b', day);
    ShiftFrame(b, b', day);
  }

  /** The balances of a day, from the nets, the stored row and the prior ending. */
  lemma SameBalances(b: Book, b': Book, today: int, day: int)
    requires b'.sessions == b.sessions && b'.capital == b.capital && (forall d | d in b.sessions :: d in b.balances)
    requires b'.balances == b.balances
          || (today !in b.balances && b'.balances == b.balances[today := Balance(PriorEnding(b, today),
              PriorEnding(b, today))])
    requires ShiftNet(b', day) == ShiftNet(b, day) && PreOpenFundNet(b', day) == PreOpenFundNet(b, day)
    requires PriorEnding(b', day) == PriorEnding(b, day)
    ensures IncrementalBalance(b', day) == IncrementalBalance(b, day)
    ensures RecomputedBalance(b', day) == RecomputedBalance(b, day)
    ensures IsOpen(b, day) ==> OpenBookEnding(b', day) == OpenBookEnding(b, day)
  {
  }

  lemma FailedReceiptKeepsCash(b: Book, strict: bool, t: Tick, step: Step)
    requires Inv(b, strict) && Admissible(b, t, step) && step.ReceiveFailed?
    ensures SameCash(b, Next(b, strict, t, step))
  {
    var b' := Next(b, strict, t, step);
    assert b'.sessions == b.sessions && b'.awaiting == b.awaiting && b'.capital == b.capital
      by { FailedReceiptShape(b, strict, t, step); }
    FailedReceiptBalances(b, strict, t, step);
    forall day
      ensures IncrementalBalance(b', day) == IncrementalBalance(b, day)
      ensures RecomputedBalance(b', day) == RecomputedBalance(b, day)
      ensures FullDayNet(b', day) == FullDayNet(b, day)
      ensures PriorEnding(b', day) == PriorEnding(b, day)
      ensures IsOpen(b, day) ==> OpenBookEnding(b', day) == OpenBookEnding(b, day)
    {
      FailedReceiptNets(b, strict, t, step, day);
      PriorEndingSame(b, b', t.today, day);
      SameBalances(b, b', t.today, day);
    }
  }

  lemma FailedConfirmKeepsCash(s: Desk, strict: bool, t: Tick, id: nat, received: Option<nat>, failure: Failure,
                               b: Branch)
    requires BooksOk(s, strict) && (forall c | c in s.books :: Ticks(s.books[c], t)) && id < |s.requests|
        && b in s.books
    requires !Confirm(s, strict, t, id, received, failure).1
    ensures var s' := Confirm(s, strict, t, id, received, failure).0;
      s'.books.Keys == s.books.Keys && SameCash(s.books[b], s'.books[b])
  {
    var s' := Confirm(s, strict, t, id, received, failure).0;
    var r := s.requests[id];
    ConfirmShape(s, strict, t, id, received, failure);
    if s'.books != s.books && b == r.branch {
      FailedReceiptKeepsCash(s.books[b], strict, t, ReceiveFailed(r.Code(), Receivable(s, id, received).value,
          r.expense, !failure.AtBalance?));
    }
  }

  lemma FailedConfirmKeepsLive(s: Desk, strict: bool, t: Tick, id: nat, received: Option<nat>, failure: Failure, i: nat)
    requires DeskInv(s, strict) && (forall c | c in s.books :: Ticks(s.books[c], t)) && id < |s.requests|
        && i < |s.requests|
    requires !Confirm(s, strict, t, id, received, failure).1
    ensures Live(Confirm(s, strict, t, id, received, failure).0.journal, i) == Live(s.journal, i)
  {
    var s' := Confirm(s, strict, t, id, received, failure).0;
    assert Scripts(s'.requests, s'.journal) && s'.requests == s.requests by {
      FailedConfirmKeepsInv(s, strict, t, id, received, failure);
    }
    assert Live(s'.journal, i) == Script(s'.requests[i]) && Live(s.journal, i) == Script(s.requests[i]);
  }

  lemma FailedConfirmKeepsBooks(s: Desk, strict: bool, t: Tick, id: nat, received: Option<nat>, failure: Failure)
    requires BooksOk(s, strict) && (forall c | c in s.books :: Ticks(s.books[c], t)) && id < |s.requests|
    requires !Confirm(s, strict, t, id, received, failure).1
    ensures var s' := Confirm(s, strict, t, id, received, failure).0;
      s'.books.Keys == s.books.Keys && forall b | b in s.books :: SameCash(s.books[b], s'.books[b])
  {
    ConfirmShape(s, strict, t, id, received, failure);
    var s' := Confirm(s, strict, t, id, received, failure).0;
    forall b | b in s.books ensures SameCash(s.books[b], s'.books[b]) {
      FailedConfirmKeepsCash(s, strict, t, id, received, failure, b);
    }
  }

  /** Whatever write fails, the requests are as they were, the live rows are the same, and so are the
      balances, nets, prior endings and book endings of every branch and day. */
  lemma FailedConfirmChangesNothing(s: Desk, strict: bool, t: Tick, id: nat, received: Option<nat>, failure: Failure)
    requires ReachableDesk(s, strict) && Allowed(s, t, DoConfirm(id, received, failure)) && id < |s.requests|
    requires !Confirm(s, strict, t, id, received, failure).1
    ensures var s' := Confirm(s, strict, t, id, received, failure).0;
      && s'.requests == s.requests && s'.books.Keys == s.books.Keys
      && (forall b | b in s.books :: SameCash(s.books[b], s'.books[b]))
      && (forall i | 0 <= i < |s.requests| :: Live(s'.journal, i) == Live(s.journal, i))
  {
    var s' := Confirm(s, strict, t, id, received, failure).0;
    assert DeskInv(s, strict) by { ReachableDeskInv(s, strict); }
    assert s'.requests == s.requests by { ConfirmShape(s, strict, t, id, received, failure); }
    FailedConfirmKeepsBooks(s, strict, t, id, received, failure);
    forall i: nat | i < |s.requests| ensures Live(s'.journal, i) == Live(s.journal, i) {
      FailedConfirmKeepsLive(s, strict, t, id, received, failure, i);
    }
  }

  /* ---------- the balance row a compensation leaves behind ---------- */

  /** The latest stored ending moves exactly when that row is the branch's first and the capital is not 0. */
  lemma FailedReceiptLatest(b: Book, strict: bool, t: Tick, step: Step, day: int)
    requires Inv(b, strict) && Admissible(b, t, step) && step.ReceiveFailed? && day >= t.today
    ensures LatestBalance(Next(b, strict, t, step), day) == LatestBalance(b, day) <==>
            !(LeavesRow(b, strict, t, step) && b.balances == map[] && b.capital != 0)
  {
    var b' := Next(b, strict, t, step);
    FailedReceiptBalances(b, strict, t, step);
    if LeavesRow(b, strict, t, step) {
      assert t.today in b'.balances.Keys;
      assert LatestBefore(b'.balances.Keys, day + 1) == Some(t.today);
      var x, y := LatestBefore(b.balances.Keys, day + 1), LatestBefore(b.balances.Keys, t.today);
      if b.balances == map[] {
        assert x == None && y == None;
      } else {
        assert exists d :: d in b.balances.Keys by { var d :| d in b.balances; assert d in b.balances.Keys; }
        assert x.Some? && x.value in b.balances.Keys;
        assert y == x;
      }
    }
  }

  lemma {:induction false} SameSpan(b: Book, b': Book, first: int, last: int)
    requires forall day :: FullDayNet(b', day) == FullDayNet(b, day)
    ensures NetSpan(b', first, last) == NetSpan(b, first, last)
    decreases last - first
  {
    if first <= last { SameSpan(b, b', first, last - 1); }
  }

  /** `b'` is `b` with a balance row for `today` that carries the prior ending. */
  ghost predicate RowAdded(b: Book, b': Book, strict: bool, today: int) {
    && Inv(b, strict) && SameCash(b, b') && b'.capital == b.capital && today !in b.balances && today !in b.sessions
    && b'.balances == b.balances[today := Balance(PriorEnding(b, today), PriorEnding(b, today))]
  }

  lemma SameLedgerEnding(b: Book, b': Book, strict: bool, today: int, day: int)
    requires RowAdded(b, b', strict, today)
    ensures LedgerEnding(b', day) == LedgerEnding(b, day)
  {
    if day == today { UnbookedDay(b, day); }
  }

  /** The expectation before the stored ending of the day is looked at. */
  ghost function UnstoredExpectation(b: Book, day: int): int {
    Max(Max(SuggestedBasis(b, day), LastClosedAmount(b, day)), PriorEnding(b, day) + FullDayNet(b, day))
  }

  lemma SameCarried(b: Book, b': Book, s: int, day: int)
    requires SameCash(b, b')
    ensures forall amount :: CarriedFrom(b', s, amount, day) == CarriedFrom(b, s, amount, day)
  {
    SameSpan(b, b', s + 1, day);
  }

  lemma AddedRowBasis(b: Book, b': Book, strict: bool, today: int, day: int)
    requires RowAdded(b, b', strict, today)
    ensures LastClosedAmount(b', day) == LastClosedAmount(b, day)
    ensures SuggestedBasis(b', day)
            == if day == today then Max(SuggestedBasis(b, day), PriorEnding(b, today)) else SuggestedBasis(b, day)
  {
    assert ClosedDates(b') == ClosedDates(b);
    match LastClosed(b, day)
    case None => SameLedgerEnding(b, b', strict, today, day - 1);
    case Some(s) =>
      assert s in ClosedDates(b) && s in b.balances;
      SameCarried(b, b', s, day);
  }

  lemma AddedRowExpectation(b: Book, b': Book, strict: bool, today: int, day: int)
    requires RowAdded(b, b', strict, today)
    ensures ExpectedOpening(b', day) == ExpectedOpening(b, day) <==> !(day == today && UnstoredExpectation(b, day) < 0)
  {
    AddedRowBasis(b, b', strict, today, day);
    UnbookedDay(b, today);
  }

  /** The expected opening changes exactly when the row is left on that day and everything else that is
      expected is negative. */
  lemma FailedReceiptExpected(b: Book, strict: bool, t: Tick, step: Step, day: int)
    requires Inv(b, strict) && Admissible(b, t, step) && step.ReceiveFailed?
    ensures ExpectedOpening(Next(b, strict, t, step), day) == ExpectedOpening(b, day) <==>
            !(LeavesRow(b, strict, t, step) && day == t.today && UnstoredExpectation(b, day) < 0)
  {
    var b' := Next(b, strict, t, step);
    FailedReceiptKeepsCash(b, strict, t, step);
    FailedReceiptShape(b, strict, t, step);
    FailedReceiptBalances(b, strict, t, step);
    if LeavesRow(b, strict, t, step) {
      AddedRowExpectation(b, b', strict, t.today, day);
    } else {
      SameTablesExpectation(b, b', day);
    }
  }

  lemma SameTablesExpectation(b: Book, b': Book, day: int)
    requires SameCash(b, b') && b'.balances == b.balances && b'.capital == b.capital
    ensures ExpectedOpening(b', day) == ExpectedOpening(b, day)
  {
    assert ClosedDates(b') == ClosedDates(b);
    assert forall d :: LedgerEnding(b', d) == LedgerEnding(b, d);
    match LastClosed(b, day)
    case None =>
    case Some(s) => SameCarried(b, b', s, day);
  }

  /** A confirmation stopped after its balance change, on a day without a balance row: the one failure whose
      compensation leaves a stored row behind. */
  ghost predicate LeavesBalanceRow(s: Desk, strict: bool, t: Tick, id: nat, received: Option<nat>, failure: Failure)
    requires id < |s.requests|
  {
    && failure.AtStatus? && !s.requests[id].status.Transferred? && Receivable(s, id, received).Some?
    && t.today !in s.books[s.requests[id].branch].balances
    && CashAccepted(s, strict, t, id, Receivable(s, id, received).value)
  }

  /** The books after a failed confirmation: those before, or one with a failed receipt. */
  lemma FailedConfirmBook(s: Desk, strict: bool, t: Tick, id: nat, received: Option<nat>, failure: Failure, b: Branch)
    requires id < |s.requests| && b in s.books && !Confirm(s, strict, t, id, received, failure).1
    ensures var (b', r) := (Confirm(s, strict, t, id, received, failure).0.books[b], s.requests[id]);
      (b' == s.books[b] && (b != r.branch || !LeavesBalanceRow(s, strict, t, id, received, failure)))
      || (&& b == r.branch && Receivable(s, id, received).Some? && Receivable(s, id, received).value > 0
          && var step := ReceiveFailed(r.Code(), Receivable(s, id, received).value, r.expense, !failure.AtBalance?);
             b' == Next(s.books[b], strict, t, step)
             && (LeavesRow(s.books[b], strict, t, step) <==> LeavesBalanceRow(s, strict, t, id, received, failure)))
  {
  }

  /** A failed confirmation moves the latest stored ending of a branch, which decides what it may release,
      exactly when it leaves the first balance row of a branch whose opening capital is not 0. */
  lemma FailedConfirmLatestExactly(s: Desk, strict: bool, t: Tick, id: nat, received: Option<nat>, failure: Failure,
                                   b: Branch, day: int)
    requires ReachableDesk(s, strict) && Allowed(s, t, DoConfirm(id, received, failure)) && id < |s.requests|
    requires !Confirm(s, strict, t, id, received, failure).1 && b in s.books && day >= t.today
    ensures var b' := Confirm(s, strict, t, id, received, failure).0.books[b];
            LatestBalance(b', day) == LatestBalance(s.books[b], day) <==>
            !(b == s.requests[id].branch && LeavesBalanceRow(s, strict, t, id, received, failure)
              && s.books[b].balances == map[] && s.books[b].capital != 0)
  {
    assert Inv(s.books[b], strict) by { ReachableDeskInv(s, strict); }
    FailedConfirmBook(s, strict, t, id, received, failure, b);
    var r := s.requests[id];
    if Confirm(s, strict, t, id, received, failure).0.books[b] != s.books[b] {
      FailedReceiptLatest(s.books[b], strict, t,
                          ReceiveFailed(r.Code(), Receivable(s, id, received).value, r.expense, !failure.AtBalance?),
                              day);
    }
  }

  /** And it changes the amount expected at an opening exactly when it leaves a row on that day while all
      else that is expected is negative; so never where negative cash is disallowed. */
  lemma FailedConfirmExpectedExactly(s: Desk, strict: bool, t: Tick, id: nat, received: Option<nat>, failure: Failure,
                                     b: Branch, day: int)
    requires ReachableDesk(s, strict) && Allowed(s, t, DoConfirm(id, received, failure)) && id < |s.requests|
    requires !Confirm(s, strict, t, id, received, failure).1 && b in s.books
    ensures var b' := Confirm(s, strict, t, id, received, failure).0.books[b];
      && (ExpectedOpening(b', day) == ExpectedOpening(s.books[b], day) <==>
          !(b == s.requests[id].branch && LeavesBalanceRow(s, strict, t, id, received, failure)
            && day == t.today && UnstoredExpectation(s.books[b], day) < 0))
      && (strict ==> ExpectedOpening(b', day) == ExpectedOpening(s.books[b], day))
  {
    assert Inv(s.books[b], strict) by { ReachableDeskInv(s, strict); }
    FailedConfirmBook(s, strict, t, id, received, failure, b);
    var r := s.requests[id];
    if Confirm(s, strict, t, id, received, failure).0.books[b] != s.books[b] {
      FailedReceiptExpected(s.books[b], strict, t,
                            ReceiveFailed(r.Code(), Receivable(s, id, received).value, r.expense, !failure.AtBalance?),
                                day);
    }
    if strict && day == t.today && t.today !in s.books[b].balances {
      PriorNonNegative(s.books[b], strict, day);
      UnbookedDay(s.books[b], day);
    }
  }

  lemma AcceptedDependsOnBalance(b: Book, strict: bool, t: Tick, code: string, amount: nat, expense: bool)
    requires Inv(b, strict) && amount > 0
    ensures ReceiveCash(b, strict, t, code, amount, expense).1 <==>
            !(strict && IncrementalBalance(b, t.today) + TransferRow(t, code, amount, !expense).Cash() < 0)
  {
    IncrementalIgnoresRow(b, strict, TransferRow(t, code, amount, !expense), t.today);
  }

  lemma ConfirmVerdict(s: Desk, strict: bool, t: Tick, id: nat, received: Option<nat>)
    requires id < |s.requests|
    ensures Confirm(s, strict, t, id, received, Nowhere).1 <==>
            && !s.requests[id].status.Transferred? && Receivable(s, id, received).Some?
            && CashAccepted(s, strict, t, id, Receivable(s, id, received).value)
  {
  }

  /** Two desks with the same requests and the same cash give the same answer. */
  lemma SameAnswer(s: Desk, s': Desk, strict: bool, t: Tick, id: nat, received: Option<nat>)
    requires id < |s.requests| && s'.requests == s.requests && s'.books.Keys == s.books.Keys
    requires var b := s.requests[id].branch;
      b in s.books ==> Inv(s.books[b], strict) && Inv(s'.books[b], strict) && SameCash(s.books[b], s'.books[b])
    ensures Confirm(s', strict, t, id, received, Nowhere).1 == Confirm(s, strict, t, id, received, Nowhere).1
  {
    ConfirmVerdict(s, strict, t, id, received);
    ConfirmVerdict(s', strict, t, id, received);
    var r := s.requests[id];
    var receivable := Receivable(s, id, received);
    assert Receivable(s', id, received) == receivable;
    if receivable.Some? {
      AcceptedDependsOnBalance(s.books[r.branch], strict, t, r.Code(), receivable.value, r.expense);
      AcceptedDependsOnBalance(s'.books[r.branch], strict, t, r.Code(), receivable.value, r.expense);
    }
  }

  lemma RetryAnswers(s: Desk, strict: bool, t: Tick, id: nat, received: Option<nat>, failure: Failure, t2: Tick)
    requires DeskInv(s, strict) && (forall c | c in s.books :: Ticks(s.books[c], t)) && id < |s.requests|
    requires !Confirm(s, strict, t, id, received, failure).1
    ensures var s' := Confirm(s, strict, t, id, received, failure).0;
      Confirm(s', strict, t2, id, received, Nowhere).1 == Confirm(s, strict, t2, id, received, Nowhere).1
  {
    var s' := Confirm(s, strict, t, id, received, failure).0;
    assert s'.requests == s.requests by { ConfirmShape(s, strict, t, id, received, failure); }
    assert BooksOk(s', strict) by { FailedConfirmKeepsInv(s, strict, t, id, received, failure); }
    FailedConfirmKeepsBooks(s, strict, t, id, received, failure);
    SameAnswer(s, s', strict, t2, id, received);
  }

  /** So a retry after a failure succeeds exactly when the first attempt would have succeeded. */
  lemma RetryAfterFailure(s: Desk, strict: bool, t: Tick, id: nat, received: Option<nat>, failure: Failure, t2: Tick)
    requires ReachableDesk(s, strict) && Allowed(s, t, DoConfirm(id, received, failure)) && id < |s.requests|
    requires !Confirm(s, strict, t, id, received, failure).1
    ensures var s' := Confirm(s, strict, t, id, received, failure).0;
      Confirm(s', strict, t2, id, received, Nowhere).1 == Confirm(s, strict, t2, id, received, Nowhere).1
  {
    ReachableDeskInv(s, strict);
    RetryAnswers(s, strict, t, id, received, failure, t2);
  }

  lemma BearsExactly(b: Book, strict: bool, t: Tick, code: string, amount: nat, expense: bool)
    requires Inv(b, strict) && amount > 0
    ensures ReceiveCash(b, strict, t, code, amount, expense).1
        <==> !(strict && expense && IncrementalBalance(b, t.today) < amount)
  {
    AcceptedDependsOnBalance(b, strict, t, code, amount, expense);
    if strict && !expense {
      PriorNonNegative(b, strict, t.today);
    }
  }

  /** A confirmation with no failing write goes through exactly when the branch can bear it: funds come
      in, or leave and are there. */
  lemma ConfirmSucceedsExactly(s: Desk, strict: bool, t: Tick, id: nat, received: Option<nat>)
    requires ReachableDesk(s, strict) && id < |s.requests| && Receivable(s, id, received).Some?
    ensures Confirm(s, strict, t, id, received, Nowhere).1 <==>
            !(strict && s.requests[id].expense
                && IncrementalBalance(s.books[s.requests[id].branch], t.today) < Receivable(s, id, received).value)
  {
    var r := s.requests[id];
    assert RequestOk(s, r) && BooksOk(s, strict) by { ReachableDeskInv(s, strict); }
    ConfirmVerdict(s, strict, t, id, received);
    BearsExactly(s.books[r.branch], strict, t, r.Code(), Receivable(s, id, received).value, r.expense);
  }

  /* ---------- conservation ---------- */

  function LegsCash(legs: seq<Leg>): int {
    if legs == [] then 0 else LegsCash(legs[..|legs| - 1]) + legs[|legs| - 1].cashIn - legs[|legs| - 1].cashOut
  }

  /** cash_in − cash_out over all non-void fund rows, head office included, of the requests selected. */
  function JournalCash(journal: seq<FundRow>, rs: seq<Request>, expense: bool): int {
    if journal == [] then 0
    else
      var p := journal[|journal| - 1];
      JournalCash(journal[..|journal| - 1], rs, expense)
      + (if !p.voided && p.request < |rs| && rs[p.request].expense == expense then p.cashIn - p.cashOut else 0)
  }

  /** The same sum taken request by request. */
  function CashByRequest(journal: seq<FundRow>, rs: seq<Request>, expense: bool, n: nat): int
    requires n <= |rs|
  {
    if n == 0 then 0
    else CashByRequest(journal, rs, expense, n - 1) + (if rs[n - 1].expense == expense
        then LegsCash(Live(journal, n - 1)) else 0)
  }

  lemma {:induction false} CashByRequestStep(journal: seq<FundRow>, p: FundRow, rs: seq<Request>, expense: bool, n: nat)
    requires n <= |rs|
    ensures CashByRequest(journal + [p], rs, expense, n) == CashByRequest(journal, rs, expense, n)
              + (if !p.voided && p.request < n && rs[p.request].expense == expense then p.cashIn - p.cashOut else 0)
  {
    if n > 0 {
      CashByRequestStep(journal, p, rs, expense, n - 1);
      LiveConcat(journal, [p], n - 1);
      LiveOne(p, n - 1);
      var legs := Live(journal, n - 1);
      assert (legs + [LegOf(p)])[..|legs|] == legs;
      assert legs + [] == legs;
    }
  }

  lemma {:induction false} CashByRequestEmpty(rs: seq<Request>, expense: bool, n: nat)
    requires n <= |rs|
    ensures CashByRequest([], rs, expense, n) == 0
  {
    if n > 0 { CashByRequestEmpty(rs, expense, n - 1); }
  }

  lemma {:induction false} JournalCashByRequest(journal: seq<FundRow>, rs: seq<Request>, expense: bool)
    ensures JournalCash(journal, rs, expense) == CashByRequest(journal, rs, expense, |rs|)
  {
    if journal == [] {
      CashByRequestEmpty(rs, expense, |rs|);
    } else {
      var n := |journal| - 1;
      JournalCashByRequest(journal[..n], rs, expense);
      CashByRequestStep(journal[..n], journal[n], rs, expense, |rs|);
      assert journal[..n] + [journal[n]] == journal;
    }
  }

  /** Sent by a source branch and not yet received. */
  function InTransit(rs: seq<Request>): int {
    if rs == [] then 0
    else
      var r := rs[|rs| - 1];
      InTransit(rs[..|rs| - 1]) +
          (if !r.expense && r.Routed() && r.status.PendingConfirmation? && r.sent.Some? then r.sent.value else 0)
  }

  /** Sent but never received, over completed branch-routed requests. */
  function Shortages(rs: seq<Request>): int {
    if rs == [] then 0
    else
      var r := rs[|rs| - 1];
      Shortages(rs[..|rs| - 1])
      + (if !r.expense && r.Routed() && r.status.Transferred? && r.sent.Some? && r.confirmed.Some?
          then r.sent.value - r.confirmed.value else 0)
  }

  /** The amounts a request's script refers to are stored. */
  predicate AmountsStored(r: Request) {
    (r.status.PendingConfirmation? || r.status.Transferred? ==> r.sent.Some?)
        && (r.status.Transferred? ==> r.confirmed.Some?)
  }

  lemma LegsCashOne(l: Leg)
    ensures LegsCash([l]) == l.cashIn - l.cashOut
  {
    assert [l][..0] == [];
  }

  lemma LegsCashTwo(l: Leg, m: Leg)
    ensures LegsCash([l, m]) == l.cashIn - l.cashOut + m.cashIn - m.cashOut
  {
    LegsCashOne(l);
    assert [l, m][..1] == [l];
  }

  lemma ScriptCash(r: Request)
    requires AmountsStored(r) && !r.expense
    ensures LegsCash(Script(r)) ==
              (if !r.Routed() then 0
               else if r.status.PendingConfirmation? then -(r.sent.value as int)
               else if r.status.Transferred? then r.confirmed.value - r.sent.value
               else 0)
  {
    if r.status.Transferred? {
      var first := if r.Routed() then Leg(SourceOut, r.source, 0, r.sent.value)
          else Leg(OwnerOut, None, 0, r.confirmed.value);
      var second := Leg(Arrival, Some(r.branch), r.confirmed.value, 0);
      assert Script(r) == [first, second];
      LegsCashTwo(first, second);
    } else if r.Routed() && r.status.PendingConfirmation? {
      assert Script(r) == [Leg(SourceOut, r.source, 0, r.sent.value)];
      LegsCashOne(Leg(SourceOut, r.source, 0, r.sent.value));
    } else {
      assert Script(r) == [];
    }
  }

  lemma {:induction false} PrefixConserves(rs: seq<Request>, journal: seq<FundRow>, n: nat)
    requires Scripts(rs, journal) && n <= |rs| && forall i | 0 <= i < |rs| :: AmountsStored(rs[i])
    ensures CashByRequest(journal, rs, false, n) == -InTransit(rs[..n]) - Shortages(rs[..n])
  {
    if n > 0 {
      PrefixConserves(rs, journal, n - 1);
      var r := rs[n - 1];
      assert Live(journal, n - 1) == Script(r) && AmountsStored(r);
      assert rs[..n][..n - 1] == rs[..n - 1];
      if !r.expense { ScriptCash(r); }
    }
  }

  /** Fund transfers that are no expenses create and destroy no cash: what the rows do not balance is
      exactly what is still on its way, plus what was sent and never counted on arrival. */
  lemma TransfersConserveCash(s: Desk, strict: bool)
    requires ReachableDesk(s, strict)
    ensures JournalCash(s.journal, s.requests, false) == -InTransit(s.requests) - Shortages(s.requests)
  {
    assert Scripts(s.requests, s.journal) && forall i | 0 <= i < |s.requests| :: AmountsStored(s.requests[i]) by {
      ReachableDeskInv(s, strict);
      forall i | 0 <= i < |s.requests| ensures AmountsStored(s.requests[i]) { assert RequestOk(s, s.requests[i]); }
    }
    JournalCashByRequest(s.journal, s.requests, false);
    PrefixConserves(s.requests, s.journal, |s.requests|);
    assert s.requests[..|s.requests|] == s.requests;
  }
}
