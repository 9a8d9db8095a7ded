/** What each operation of the fund-transfer protocol does, said of the stored rows themselves: which calls are
    turned down, which amounts are recorded, and what cash moves where. */
module FundEffects {
  import opened Options
  import opened Ledger
  import opened LedgerRuns
  import opened LedgerInvariant
  import opened LedgerEffects
  import opened FundRequests
  import opened FundProofs
  import opened FundTheorems

  /** Request `id` of `rs` became `r`, and no other changed. */
  predicate OneRewritten(rs: seq<Request>, rs': seq<Request>, id: nat, r: Request) {
    id < |rs| && |rs'| == |rs| && rs'[id] == r && forall i | 0 <= i < |rs| && i != id :: rs'[i] == rs[i]
  }

  /** All books but that of `branch` are as they were. */
  predicate OtherBooksKept(s: Desk, s': Desk, branch: Branch) {
    branch in s.books && branch in s'.books && s'.books == s.books[branch := s'.books[branch]]
  }

  /** The reference that rows of a request carry. */
  function Reference(r: Request): string { if r.reference == "" then r.no else r.reference }

  /* ---------- asking, reviewing, cancelling ---------- */

  /** A request for a positive amount is added, waiting; nothing else changes. */
  lemma CreateEffect(s: Desk, strict: bool, t: Tick, no: string, branch: Branch, amount: nat, expense: bool)
    ensures var s' := Act(s, strict, t, DoCreate(no, branch, amount, expense));
      if branch !in s.books || amount == 0 then s' == s
      else
        && s'.books == s.books && s'.journal == s.journal
        && |s'.requests| == |s.requests| + 1 && s'.requests[..|s.requests|] == s.requests
        && var r := s'.requests[|s.requests|];
           && r.no == no && r.branch == branch && r.requested == amount && r.expense == expense && r.status.Waiting?
           && r.approved == None && r.sent == None && r.confirmed == None && r.source == None && r.reference == ""
  {
  }

  /** A waiting request is approved, for the amount granted or else the one requested, when that is positive
      and not more than requested; or it is rejected.  Any other call changes nothing. */
  lemma ReviewEffect(s: Desk, strict: bool, t: Tick, id: nat, approve: bool, granted: Option<nat>)
    requires id < |s.requests|
    ensures var (s', r) := (Act(s, strict, t, DoReview(id, approve, granted)), s.requests[id]);
      var amount := match granted case Some(x) => x case None => r.requested;
      if !r.status.Waiting? || (approve && (amount == 0 || amount > r.requested)) then s' == s
      else
        && s'.books == s.books && s'.journal == s.journal
        && OneRewritten(s.requests, s'.requests, id,
                        if approve then r.(status := Approved, approved := Some(amount))
                        else r.(status := Rejected, approved := None))
  {
  }

  /** Only a waiting request can be cancelled. */
  lemma CancelEffect(s: Desk, strict: bool, t: Tick, id: nat)
    requires id < |s.requests|
    ensures var (s', r) := (Act(s, strict, t, DoCancel(id)), s.requests[id]);
      if !r.status.Waiting? then s' == s
      else s'.books == s.books && s'.journal == s.journal
           && OneRewritten(s.requests, s'.requests, id, r.(status := Cancelled))
  {
  }

  /* ---------- releasing ---------- */

  /** A source that may release `amount`: another branch whose latest stored ending bears it. */
  ghost predicate MayRelease(s: Desk, source: Option<Branch>, destination: Branch, amount: nat) {
    source.Some? ==>
      && source.value in s.books && source.value != destination
      && exists d :: IsLatestDay(s.books[source.value], d) && s.books[source.value].balances[d].ending >= amount
  }

  /** `d` is the last day with a stored balance. */
  ghost predicate IsLatestDay(b: Book, d: int) { d in b.balances && forall e | e in b.balances :: e <= d }

  lemma LatestDay(b: Book, strict: bool, today: int, amount: nat)
    requires Inv(b, strict) && b.today <= today && amount > 0
    ensures (exists d :: IsLatestDay(b, d) && b.balances[d].ending >= amount) <==> LatestBalance(b, today) >= amount
  {
    forall d | IsLatestDay(b, d) ensures LatestBalance(b, today) == b.balances[d].ending {
      LatestBalanceStored(b, strict, today, d);
    }
    var x := LatestBefore(b.balances.Keys, today + 1);
    if x.Some? {
      assert IsLatestDay(b, x.value) by {
        assert x.value in b.balances.Keys;
        forall e | e in b.balances ensures e <= x.value { assert e in b.balances.Keys; }
      }
    }
  }

  lemma MayReleaseIsUsable(s: Desk, strict: bool, source: Option<Branch>, destination: Branch, amount: nat, today: int)
    requires BooksOk(s, strict) && amount > 0 && forall b | b in s.books :: s.books[b].today <= today
    ensures MayRelease(s, source, destination, amount) <==> SourceUsable(s, source, destination, amount, today)
  {
    if source.Some? && source.value in s.books { LatestDay(s.books[source.value], strict, today, amount); }
  }

  /** The destination starts to hide the number of a released request; no cash moves. */
  predicate Hides(b: Book, b': Book, t: Tick, no: string) {
    b' == b.(awaiting := b.awaiting + {no}, clock := t.later, today := t.today)
  }

  lemma TransferShape(s: Desk, strict: bool, t: Tick, id: nat, source: Option<Branch>, amount: Option<nat>,
                      reference: string)
    requires id < |s.requests| && s.requests[id].status.Approved? && s.requests[id].approved.Some?
    requires s.requests[id].branch in s.books
    ensures var (s', r) := (Act(s, strict, t, DoTransfer(id, source, amount, reference)), s.requests[id]);
      var from := match source case Some(b) => Some(b) case None => r.source;
      var sum := match amount case Some(x) => x case None => r.approved.value;
      s' == if sum == 0 || sum > r.requested || !SourceUsable(s, from, r.branch, sum, t.today) then s
            else Revised(s, r.branch, Next(s.books[r.branch], strict, t, ReleaseRequest(r.no)), id,
                         r.(status := if from == None then PendingConfirmation else PendingSource, sent := Some(sum),
                            source := from, reference := reference, transferredAt := Some(t.now)), [])
  {
    assert s.journal + [] == s.journal;
  }

  lemma ApprovedHasAmount(s: Desk, strict: bool, id: nat)
    requires ReachableDesk(s, strict) && id < |s.requests|
    ensures s.requests[id].status.Approved? ==> s.requests[id].approved.Some?
  {
    assert RequestOk(s, s.requests[id]) by { ReachableDeskInv(s, strict); }
  }

  /** An approved request is released for the amount given, or else the approved one, through the source given,
      or else the one it has, when that source may release it. */
  lemma TransferEffect(s: Desk, strict: bool, t: Tick, id: nat, source: Option<Branch>, amount: Option<nat>,
                       reference: string)
    requires ReachableDesk(s, strict) && id < |s.requests| && Allowed(s, t, DoTransfer(id, source, amount, reference))
    ensures var (s', r) := (Act(s, strict, t, DoTransfer(id, source, amount, reference)), s.requests[id]);
      var from := match source case Some(b) => Some(b) case None => r.source;
      if !r.status.Approved? then s' == s
      else
        && r.approved.Some?
        && var sum := match amount case Some(x) => x case None => r.approved.value;
           if sum == 0 || sum > r.requested || !MayRelease(s, from, r.branch, sum) then s' == s
           else
             && s'.journal == s.journal && OtherBooksKept(s, s', r.branch)
             && Hides(s.books[r.branch], s'.books[r.branch], t, r.no)
             && OneRewritten(s.requests, s'.requests, id,
                             r.(status := if from == None then PendingConfirmation else PendingSource,
                                sent := Some(sum), source := from, reference := reference,
                                transferredAt := Some(t.now)))
  {
    assert RequestOk(s, s.requests[id]) && BooksOk(s, strict) by { ReachableDeskInv(s, strict); }
    var r := s.requests[id];
    if r.status.Approved? {
      var from := match source case Some(b) => Some(b) case None => r.source;
      var sum := match amount case Some(x) => x case None => r.approved.value;
      TransferShape(s, strict, t, id, source, amount, reference);
      if sum > 0 { MayReleaseIsUsable(s, strict, from, r.branch, sum, t.today); }
    }
  }

  /** A direct transfer adds a request that is already released. */
  lemma DirectEffect(s: Desk, strict: bool, t: Tick, no: string, source: Option<Branch>, branch: Branch, amount: nat,
                     expense: bool, reference: string)
    requires ReachableDesk(s, strict) && Allowed(s, t, DoDirect(no, source, branch, amount, expense, reference))
    ensures var s' := Act(s, strict, t, DoDirect(no, source, branch, amount, expense, reference));
      if branch !in s.books || amount == 0 || !MayRelease(s, source, branch, amount) then s' == s
      else
        && s'.journal == s.journal && OtherBooksKept(s, s', branch) && Hides(s.books[branch], s'.books[branch], t, no)
        && |s'.requests| == |s.requests| + 1 && s'.requests[..|s.requests|] == s.requests
        && var r := s'.requests[|s.requests|];
           && r.no == no && r.branch == branch && r.requested == amount && r.expense == expense
           && r.status == (if source == None then PendingConfirmation else PendingSource)
           && r.approved == Some(amount) && r.sent == Some(amount) && r.confirmed == None
           && r.source == source && r.reference == reference && r.transferredAt == Some(t.now)
  {
    assert BooksOk(s, strict) by { ReachableDeskInv(s, strict); }
    if amount > 0 { MayReleaseIsUsable(s, strict, source, branch, amount, t.today); }
  }

  /* ---------- handing over ---------- */

  /** The amount a confirmation, of the source or of the receiver, is about: what it counted, or else the amount
      on its way. */
  function Counted(r: Request, count: Option<nat>): nat
    requires r.sent.Some?
  {
    match count case Some(x) => x case None => r.sent.value
  }

  lemma SourceConfirmShape(s: Desk, strict: bool, t: Tick, id: nat, counted: Option<nat>)
    requires id < |s.requests| && s.requests[id].status.PendingSource? && s.requests[id].sent.Some?
    requires s.requests[id].source.Some? && s.requests[id].source.value in s.books && s.requests[id].branch in s.books
    requires var (r, x) := (s.requests[id], Counted(s.requests[id], counted));
      LatestBalance(s.books[r.source.value], t.today) >= x > 0 ==>
        DebitAccepted(s.books[r.source.value], strict, t, r.Code(), x)
    ensures var (r, x) := (s.requests[id], Counted(s.requests[id], counted));
      var source := r.source.value;
      Act(s, strict, t, DoSourceConfirm(id, counted)) ==
        if x == 0 || x > r.sent.value || LatestBalance(s.books[source], t.today) < x then s
        else Revised(s, source, Next(s.books[source], strict, t, SendFunds(r.Code(), x)), id,
                     r.(status := PendingConfirmation, sent := Some(x), sourceConfirmedAt := Some(t.now)),
                     [FundRow(id, SourceOut, Some(source), |s.books[source].rows|, 0, x, false)])
  {
  }

  /** The source's tables after it handed over `x` for request `r`. */
  ghost predicate HandedOverFrom(b: Book, b': Book, t: Tick, r: Request, x: nat) {
    b' == b.(rows := b.rows + [Row(t.today, FundTransfer, FundOut, Reference(r), 0, x, t.now, t.now, false)],
             balances := b.balances[t.today := Moved(b, t.today, -(x as int))], clock := t.later, today := t.today)
  }

  /** The source hands over the amount it counted, or else the one released: its row is written, its balance of
      today drops by it, and the request records it. */
  lemma SourceConfirmEffect(s: Desk, strict: bool, t: Tick, id: nat, counted: Option<nat>)
    requires ReachableDesk(s, strict) && id < |s.requests| && Allowed(s, t, DoSourceConfirm(id, counted))
    ensures var (s', r) := (Act(s, strict, t, DoSourceConfirm(id, counted)), s.requests[id]);
      if !r.status.PendingSource? then s' == s
      else
        && r.source.Some? && r.sent.Some? && r.source.value in s.books
        && var (source, x) := (r.source.value, Counted(r, counted));
           (if x == 0 || x > r.sent.value || !MayRelease(s, r.source, r.branch, x) then s' == s
            else
              && OtherBooksKept(s, s', source) && HandedOverFrom(s.books[source], s'.books[source], t, r, x)
              && s'.journal == s.journal + [FundRow(id, SourceOut, Some(source), |s.books[source].rows|, 0, x, false)]
              && OneRewritten(s.requests, s'.requests, id,
                              r.(status := PendingConfirmation, sent := Some(x), sourceConfirmedAt := Some(t.now))))
  {
    var r := s.requests[id];
    WaitsForSource(s, strict, t, id, counted);
    if r.status.PendingSource? {
      var source, x := r.source.value, Counted(r, counted);
      if x > 0 {
        assert BooksOk(s, strict) by { ReachableDeskInv(s, strict); }
        MayReleaseIsUsable(s, strict, r.source, r.branch, x, t.today);
        if LatestBalance(s.books[source], t.today) >= x { HandedOverBook(s.books[source], strict, t, r, x); }
      }
      SourceConfirmShape(s, strict, t, id, counted);
    }
  }

  lemma WaitsForSource(s: Desk, strict: bool, t: Tick, id: nat, counted: Option<nat>)
    requires ReachableDesk(s, strict) && id < |s.requests|
    ensures var r := s.requests[id];
      if r.status.PendingSource?
      then r.source.Some? && r.sent.Some? && r.source.value in s.books && r.source.value != r.branch
          && r.branch in s.books
      else Act(s, strict, t, DoSourceConfirm(id, counted)) == s
  {
    assert RequestOk(s, s.requests[id]) by { ReachableDeskInv(s, strict); }
  }

  lemma HandedOverBook(b: Book, strict: bool, t: Tick, r: Request, x: nat)
    requires Inv(b, strict) && Ticks(b, t) && x > 0 && LatestBalance(b, t.today) >= x
    ensures DebitAccepted(b, strict, t, r.Code(), x)
    ensures HandedOverFrom(b, Next(b, strict, t, SendFunds(r.Code(), x)), t, r, x)
  {
    SendEffect(b, strict, t, r.Code(), x);
    SendNeverStrandsRow(b, strict, t, r.Code(), x);
  }

  /* ---------- receiving ---------- */

  /** A confirmation is turned down, and nothing is written, unless the request waits for it and the amount is
      positive and not more than was sent. */
  lemma ConfirmRefusals(s: Desk, strict: bool, t: Tick, id: nat, received: Option<nat>, failure: Failure)
    requires ReachableDesk(s, strict) && id < |s.requests|
    ensures var r := s.requests[id];
      && (!r.status.PendingConfirmation? ==> Confirm(s, strict, t, id, received, failure) == (s, false))
      && (r.status.PendingConfirmation? ==>
            && r.sent.Some?
            && (Counted(r, received) == 0 || Counted(r, received) > r.sent.value ==>
                  Confirm(s, strict, t, id, received, failure) == (s, false)))
  {
    assert RequestOk(s, s.requests[id]) by { ReachableDeskInv(s, strict); }
  }

  /** The destination's tables after it received `x` for request `r`, or paid `x` out for an expense. */
  ghost predicate ArrivedAt(b: Book, b': Book, t: Tick, r: Request, x: nat) {
    b' == b.(rows := b.rows + [Row(t.today, FundTransfer, if r.expense then FundOut else FundIn, Reference(r),
                                   if r.expense then 0 else x, if r.expense then x else 0, t.now, t.now, false)],
             balances := b.balances[t.today := Moved(b, t.today, if r.expense then -(x as int) else x)],
             awaiting := b.awaiting - {r.no}, clock := t.later, today := t.today)
  }

  /** A confirmation that goes through records exactly the counted amount: in the request, in the arrival row of
      the destination, in the head-office row when no branch sent it, and in the destination's balance. */
  lemma ConfirmEffect(s: Desk, strict: bool, t: Tick, id: nat, received: Option<nat>, failure: Failure)
    requires ReachableDesk(s, strict) && id < |s.requests| && Allowed(s, t, DoConfirm(id, received, failure))
    requires Confirm(s, strict, t, id, received, failure).1
    ensures var (s', r) := (Confirm(s, strict, t, id, received, failure).0, s.requests[id]);
      && r.status.PendingConfirmation? && r.sent.Some? && r.branch in s.books
      && var x := Counted(r, received);
         && 0 < x <= r.sent.value
         && OneRewritten(s.requests, s'.requests, id,
                         r.(status := Transferred, confirmed := Some(x), confirmedAt := Some(t.now)))
         && OtherBooksKept(s, s', r.branch)
         && ArrivedAt(s.books[r.branch], s'.books[r.branch], t, r, x)
         && s'.journal == s.journal
              + ((if r.source == None && !r.expense then [FundRow(id, OwnerOut, None, 0, 0, x, false)] else [])
                 + [FundRow(id, Arrival, Some(r.branch), |s.books[r.branch].rows|, if r.expense then 0 else x,
                            if r.expense then x else 0, false)])
  {
    var r := s.requests[id];
    assert RequestOk(s, r) && BooksOk(s, strict) by { ReachableDeskInv(s, strict); }
    ReceivedConfirmForm(s, strict, t, id, received, failure);
    ArrivedBook(s.books[r.branch], strict, t, r, Counted(r, received));
  }

  lemma ArrivedBook(b: Book, strict: bool, t: Tick, r: Request, x: nat)
    requires Inv(b, strict) && x > 0 && ReceiveCash(b, strict, t, r.Code(), x, r.expense).1
    ensures ArrivedAt(b, Next(b, strict, t, ReceiveFunds(r.no, r.Code(), x, r.expense)), t, r, x)
  {
    ReceiptEffect(b, strict, t, r.no, r.Code(), x, r.expense);
    CashAcceptedExactly(b, strict, t, r.Code(), x, r.expense);
  }

  lemma CashAcceptedExactly(b: Book, strict: bool, t: Tick, code: string, amount: nat, expense: bool)
    requires Inv(b, strict) && amount > 0
    ensures ReceiveCash(b, strict, t, code, amount, expense).1 <==>
            !(strict && Moved(b, t.today, if expense then -(amount as int) else amount).ending < 0)
  {
    UngatedChange(b, strict, TransferRow(t, code, amount, !expense), t.today);
  }

  /** With no failing write it goes through whenever the amount fits, but for an expense that a strict branch
      cannot bear. */
  lemma ConfirmAccepted(s: Desk, strict: bool, t: Tick, id: nat, received: Option<nat>)
    requires ReachableDesk(s, strict) && id < |s.requests| && s.requests[id].status.PendingConfirmation?
    ensures var r := s.requests[id];
      && r.sent.Some? && r.branch in s.books
      && (Confirm(s, strict, t, id, received, Nowhere).1 <==>
          && 0 < Counted(r, received) <= r.sent.value
          && !(strict && r.expense && Moved(s.books[r.branch], t.today, -(Counted(r, received) as int)).ending < 0))
  {
    var r := s.requests[id];
    assert RequestOk(s, r) && BooksOk(s, strict) by { ReachableDeskInv(s, strict); }
    ConfirmVerdict(s, strict, t, id, received);
    if 0 < Counted(r, received) <= r.sent.value {
      CashAcceptedExactly(s.books[r.branch], strict, t, r.Code(), Counted(r, received), r.expense);
      if strict { PriorNonNegative(s.books[r.branch], strict, t.today); }
    }
  }

  /* ---------- what a finished request leaves in the journal ---------- */

  /** The non-void rows of a request are its source debit, once the source handed over, and for a completed one
      the head-office row, when no branch sent it, and the arrival; each with the recorded amount. */
  lemma RowsOfRequest(s: Desk, strict: bool, id: nat)
    requires ReachableDesk(s, strict) && id < |s.requests|
    ensures var (r, rows) := (s.requests[id], Live(s.journal, id));
      && (!r.status.PendingConfirmation? && !r.status.Transferred? ==> rows == [])
      && (r.status.PendingConfirmation? ==>
            r.sent.Some? && rows == (if r.source == None then [] else [Leg(SourceOut, r.source, 0, r.sent.value)]))
      && (r.status.Transferred? ==>
            && r.sent.Some? && r.confirmed.Some?
            && rows == (if r.source.Some? then [Leg(SourceOut, r.source, 0, r.sent.value)]
                        else if r.expense then [] else [Leg(OwnerOut, None, 0, r.confirmed.value)])
                       + [if r.expense then Leg(Arrival, Some(r.branch), 0, r.confirmed.value)
                          else Leg(Arrival, Some(r.branch), r.confirmed.value, 0)])
  {
    assert RequestOk(s, s.requests[id]) && Live(s.journal, id) == Script(s.requests[id]) by {
      ReachableDeskInv(s, strict);
    }
    var r := s.requests[id];
    if r.status.Transferred? && !r.expense && r.source == None {
      assert [] + ReceiptScript(r) == ReceiptScript(r);
    }
  }
}
