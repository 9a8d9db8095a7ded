/** The fund-request service as it runs: each operation rewrites the tables write by write.

    `Valid` says that the tables are those of some run of `FundRequests`.  Each operation of the protocol
    performs one action of such a run and keeps it, so the theorems about reachable desks hold between any
    two operations; the other methods are the single writes those operations are made of. */
module FundDesk {
  import opened Options
  import opened Ledger
  import opened LedgerReads
  import opened LedgerRuns
  import opened FundRequests
  import opened FundTheorems
  import opened FundEffects

  class Service {
    var requests: seq<Request>
    var books: map<Branch, Book>
    var journal: seq<FundRow>
    const strict: bool

    /** The tables as one value. */
    function View(): Desk
      reads this
    {
      Desk(requests, books, journal)
    }

    ghost predicate Valid()
      reads this
    {
      ReachableDesk(View(), strict)
    }

    constructor (books: map<Branch, Book>, strict: bool)
      requires FreshDesk(Desk([], books, []))
      ensures Valid() && View() == Desk([], books, []) && this.strict == strict
    {
      this.requests, this.books, this.journal, this.strict := [], books, [], strict;
      ReachFreshDesk(Desk([], books, []), strict);
    }

    /* ---------- single writes ---------- */

    /** Latest stored ending of a branch, 0 when nothing is stored. */
    method GetLatestBranchBalance(branch: Branch, today: int) returns (amount: int)
      requires branch in books
      ensures amount == LatestBalance(books[branch], today)
    {
      var d := FindPriorDay(books[branch].balances.Keys, today + 1);
      amount := if d.Some? then books[branch].balances[d.value].ending else 0;
    }

    /** Writes one fund-transfer row of a branch; returns its id. */
    method CreateTransferTransaction(branch: Branch, t: Tick, request: nat, kind: Kind, code: string, amount: nat,
                                     inbound: bool)
      returns (id: nat)
      requires branch in books
      modifies `books, `journal
      ensures id == |old(journal)|
      ensures journal == old(journal) + [FundRow(request, kind, Some(branch), |old(books[branch]).rows|,
                                                 if inbound then amount else 0, if inbound then 0 else amount, false)]
      ensures books == old(books)[branch := AddRow(old(books[branch]), TransferRow(t, code, amount, inbound))]
    {
      var b := books[branch];
      id := |journal|;
      journal := journal + [FundRow(request, kind, Some(branch), |b.rows|, if inbound then amount else 0,
          if inbound then 0 else amount, false)];
      books := books[branch := b.(rows := b.rows + [TransferRow(t, code, amount, inbound)])];
    }

    /** Writes the head-office row; returns its id. */
    method CreateOwnerOutTransferTransaction(request: nat, amount: nat) returns (id: nat)
      modifies `journal
      ensures id == |old(journal)| && journal == old(journal) + [OwnerPosting(request, amount)]
    {
      id := |journal|;
      journal := journal + [FundRow(request, OwnerOut, None, 0, 0, amount, false)];
    }

    method ApplyNetChange(branch: Branch, day: int, delta: int) returns (accepted: bool)
      requires branch in books
      modifies `books
      ensures match Ledger.ApplyNetChange(old(books[branch]), strict, day, delta, true)
              case Done(b') => accepted && books == old(books)[branch := b']
              case Refused(_) => !accepted && books == old(books)
    {
      var o := ApplyNetChangeTo(books[branch], strict, day, delta, true);
      match o
      case Refused(_) => accepted := false;
      case Done(b') =>
        books := books[branch := b'];
        accepted := true;
    }

    /** Marks a written row void, in the journal and, for a branch row, in the branch's book. */
    method VoidTransaction(id: Option<nat>)
      requires id.Some? ==> id.value < |journal|
      requires id.Some? && journal[id.value].branch.Some? ==>
        journal[id.value].branch.value in books && journal[id.value].row < |books[journal[id.value].branch.value].rows|
      modifies `books, `journal
      ensures journal == if id.None? then old(journal) else old(journal)[id.value :=
          old(journal)[id.value].(voided := true)]
      ensures books == if id.None? || old(journal)[id.value].branch.None? then old(books)
                       else var branch := old(journal)[id.value].branch.value;
                            old(books)[branch := VoidRow(old(books)[branch], old(journal)[id.value].row)]
    {
      if id.None? { return; }
      var p := journal[id.value];
      journal := journal[id.value := p.(voided := true)];
      if p.branch.None? { return; }
      var b := books[p.branch.value];
      books := books[p.branch.value := b.(rows := b.rows[p.row := b.rows[p.row].(voided := true)])];
    }

    /** Undoes what a failed confirmation wrote: the balance first, then both rows. */
    method RollbackDestinationFundConfirmArtifacts(branch: Branch, day: int, inbound: Option<nat>,
        ownerOut: Option<nat>, applied: int)
      requires branch in books
      requires inbound.Some? ==> inbound.value < |journal| && journal[inbound.value].branch == Some(branch)
                                 && journal[inbound.value].row < |books[branch].rows|
      requires ownerOut.Some? ==> ownerOut.value < |journal| && journal[ownerOut.value].branch == None
      requires inbound.Some? && ownerOut.Some? ==> inbound.value != ownerOut.value
      modifies `books, `journal
      ensures books == old(books)[branch := Compensated(old(books[branch]), strict, day, applied,
                                              if inbound.Some? then Some(old(journal)[inbound.value].row) else None)]
      ensures |journal| == |old(journal)|
      ensures forall k | 0 <= k < |journal| ::
        journal[k] ==
            if inbound == Some(k) || ownerOut == Some(k) then old(journal)[k].(voided := true) else old(journal)[k]
    {
      if applied != 0 {
        var _ := ApplyNetChange(branch, day, -applied);
      }
      assert books == old(books)[branch := Compensated(old(books[branch]), strict, day, applied, None)];
      VoidTransaction(inbound);
      VoidTransaction(ownerOut);
    }

    /** The book was touched at the instants of `t`. */
    method Touch(branch: Branch, t: Tick)
      requires branch in books
      modifies `books
      ensures books == old(books)[branch := old(books[branch]).(clock := t.later, today := t.today)]
    {
      books := books[branch := books[branch].(clock := t.later, today := t.today)];
    }

    /** A request starts to wait for receipt at its branch. */
    method Release(branch: Branch, t: Tick, no: string)
      requires branch in books
      modifies `books
      ensures books == old(books)[branch := Next(old(books[branch]), strict, t, ReleaseRequest(no))]
    {
      books := books[branch := books[branch].(awaiting := books[branch].awaiting + {no})];
      Touch(branch, t);
    }

    /* ---------- the protocol ---------- */

    method CreateRequest(ghost t: Tick, no: string, branch: Branch, amount: nat, expense: bool) returns (ok: bool)
      requires Valid() && Allowed(View(), t, DoCreate(no, branch, amount, expense))
      modifies `requests
      ensures Valid() && View() == Act(old(View()), strict, t, DoCreate(no, branch, amount, expense))
      ensures match Create(old(View()), no, branch, amount, expense)
              case None => !ok && View() == old(View())
              case Some(s') => ok && View() == s'
    {
      ReachAct(View(), strict, t, DoCreate(no, branch, amount, expense));
      if branch !in books || amount == 0 { return false; }
      requests := requests + [Request(no, branch, amount, expense, Waiting, None, None, None, None, "", None, None,
          None)];
      ok := true;
    }

    method CreateDirectTransfer(t: Tick, no: string, source: Option<Branch>, branch: Branch, amount: nat, expense: bool,
                                reference: string)
      returns (ok: bool)
      requires Valid() && Allowed(View(), t, DoDirect(no, source, branch, amount, expense, reference))
      modifies this
      ensures Valid() && View() == Act(old(View()), strict, t, DoDirect(no, source, branch, amount, expense, reference))
      ensures match CreateDirect(old(View()), strict, t, no, source, branch, amount, expense, reference)
              case None => !ok && View() == old(View())
              case Some(s') => ok && View() == s'
    {
      ReachAct(View(), strict, t, DoDirect(no, source, branch, amount, expense, reference));
      if branch !in books || amount == 0 { return false; }
      if source.Some? {
        if source.value !in books || source.value == branch { return false; }
        var available := GetLatestBranchBalance(source.value, t.today);
        if available < amount { return false; }
      }
      requests := requests + [Request(no, branch, amount, expense, if source.Some? then PendingSource
          else PendingConfirmation,
                                      Some(amount), Some(amount), Some(t.now), source, reference, None, None, None)];
      Release(branch, t, no);
      ok := true;
    }

    method ReviewRequest(ghost t: Tick, id: nat, approve: bool, granted: Option<nat>) returns (ok: bool)
      requires Valid() && Allowed(View(), t, DoReview(id, approve, granted)) && id < |requests|
      modifies `requests
      ensures Valid() && View() == Act(old(View()), strict, t, DoReview(id, approve, granted))
      ensures ok ==>
        var r := old(requests[id]);
        requests == old(requests)[id :=
          if approve
          then r.(status := Approved, approved := Some(if granted.Some? then granted.value else r.requested))
          else r.(status := Rejected, approved := None)]
      ensures match Review(old(View()), id, approve, granted)
              case None => !ok && View() == old(View())
              case Some(s') => ok && View() == s'
    {
      ReachAct(View(), strict, t, DoReview(id, approve, granted));
      var r := requests[id];
      if !r.status.Waiting? { return false; }
      if approve {
        var amount := if granted.Some? then granted.value else r.requested;
        if amount == 0 || amount > r.requested { return false; }
        requests := requests[id := r.(status := Approved, approved := Some(amount))];
      } else {
        requests := requests[id := r.(status := Rejected, approved := None)];
      }
      ok := true;
    }

    method TransferFunds(t: Tick, id: nat, source: Option<Branch>, amount: Option<nat>,
                         reference: string) returns (ok: bool)
      requires Valid() && Allowed(View(), t, DoTransfer(id, source, amount, reference)) && id < |requests|
      modifies this
      ensures Valid() && View() == Act(old(View()), strict, t, DoTransfer(id, source, amount, reference))
      ensures ok ==>
        && requests[id].source == (if source.Some? then source else old(requests[id]).source)
        && requests[id].sent == (if amount.Some? then amount else old(requests[id]).approved)
        && requests[id].reference == reference && requests[id].transferredAt == Some(t.now)
      ensures match Transfer(old(View()), strict, t, id, source, amount, reference)
              case None => !ok && View() == old(View())
              case Some(s') => ok && View() == s'
    {
      ReachAct(View(), strict, t, DoTransfer(id, source, amount, reference));
      TransferEffect(View(), strict, t, id, source, amount, reference);
      ApprovedHasAmount(View(), strict, id);
      ok := WriteTransfer(t, id, source, amount, reference);
    }

    /** The checks and writes of a release. */
    method WriteTransfer(t: Tick, id: nat, source: Option<Branch>, amount: Option<nat>,
                         reference: string) returns (ok: bool)
      requires id < |requests|
      modifies this
      ensures match Transfer(old(View()), strict, t, id, source, amount, reference)
              case None => !ok && View() == old(View())
              case Some(s') => ok && View() == s'
    {
      var r := requests[id];
      if !r.status.Approved? || r.branch !in books { return false; }
      var from := if source.Some? then source else r.source;
      var sum := if amount.Some? then amount.value else if r.approved.Some? then r.approved.value else r.requested;
      if sum == 0 || sum > r.requested { return false; }
      if from.Some? {
        if from.value !in books || from.value == r.branch { return false; }
        var available := GetLatestBranchBalance(from.value, t.today);
        if available < sum { return false; }
      }
      requests := requests[id := r.(status := if from.Some? then PendingSource else PendingConfirmation,
                                    approved := if r.approved.Some? then r.approved else Some(sum),
                                    sent := Some(sum), transferredAt := Some(t.now), source := from,
                                        reference := reference)];
      Release(r.branch, t, r.no);
      ok := true;
    }

    /** The writes of a source confirmation to the source's tables: the row, then the balance. */
    method WriteDebit(source: Branch, t: Tick, id: nat, code: string, amount: nat) returns (ok: bool)
      requires source in books && LatestBalance(books[source], t.today) >= amount
      modifies `books, `journal
      ensures ok <==> DebitAccepted(old(books[source]), strict, t, code, amount)
      ensures journal == old(journal) + [FundRow(id, SourceOut, Some(source), |old(books[source]).rows|, 0, amount,
          false)]
      ensures books == old(books)[source := Next(old(books[source]), strict, t, SendFunds(code, amount))]
    {
      var _ := CreateTransferTransaction(source, t, id, SourceOut, code, amount, false);
      ok := ApplyNetChange(source, t.today, -(amount as int));
      Touch(source, t);
    }

    /** Nothing undoes the row when the debit is refused, but it never is: a confirmation that passes its
        checks completes. */
    method SourceConfirm(t: Tick, id: nat, sentAmount: Option<nat>) returns (ok: bool)
      requires Valid() && Allowed(View(), t, DoSourceConfirm(id, sentAmount)) && id < |requests|
      modifies this
      ensures Valid() && View() == Act(old(View()), strict, t, DoSourceConfirm(id, sentAmount))
      ensures ok ==>
        && old(requests[id]).sent.Some?
        && requests == old(requests)[id := old(requests[id]).(status := PendingConfirmation,
                                             sent := Some(Counted(old(requests[id]), sentAmount)),
                                             sourceConfirmedAt := Some(t.now))]
      ensures match FundRequests.SourceConfirm(old(View()), strict, t, id, sentAmount)
              case None => !ok && View() == old(View())
              case Some(s') => ok && View() == s'
    {
      ReachAct(View(), strict, t, DoSourceConfirm(id, sentAmount));
      SourceConfirmEffect(View(), strict, t, id, sentAmount);
      if FundRequests.SourceConfirm(View(), strict, t, id, sentAmount).Some? {
        SourceConfirmCompletes(View(), strict, t, id, sentAmount);
      }
      ok := WriteSourceConfirm(t, id, sentAmount);
    }

    /** The checks and writes of a source confirmation. */
    method WriteSourceConfirm(t: Tick, id: nat, sentAmount: Option<nat>) returns (ok: bool)
      requires id < |requests|
      modifies this
      ensures match FundRequests.SourceConfirm(old(View()), strict, t, id, sentAmount)
              case None => !ok && View() == old(View())
              case Some(s') => View() == s' && (ok <==> s'.requests[id].status.PendingConfirmation?)
    {
      var r := requests[id];
      if r.source.None? { return false; }
      if !IsPendingSourceConfirmation(r) { return false; }
      var source := r.source.value;
      if source !in books || r.branch !in books { return false; }
      var amount := if sentAmount.Some? then sentAmount.value else r.ReleasedAmount();
      if amount == 0 || amount > r.ReleasedAmount() { return false; }
      var available := GetLatestBranchBalance(source, t.today);
      if available < amount { return false; }
      ok := WriteDebit(source, t, id, r.Code(), amount);
      if !ok { return false; }
      requests := requests[id := r.(status := PendingConfirmation, sent := Some(amount),
          sourceConfirmedAt := Some(t.now))];
    }

    /** The guarded part of a confirmation: head-office row, arrival row, balance change.  The out
        parameters say how far it came. */
    method WriteReceipt(t: Tick, id: nat, amount: nat, failure: Failure)
      returns (ok: bool, inbound: Option<nat>, ownerOut: Option<nat>, applied: int)
      requires id < |requests| && requests[id].branch in books
      modifies `books, `journal
      ensures ok <==> !FailsEarly(old(View()), id, amount, failure) && CashAccepted(old(View()), strict, t, id, amount)
      ensures journal == old(journal) + ReceiptPart(old(View()), id, amount, failure)
      ensures forall k: nat :: (inbound == Some(k) || ownerOut == Some(k)) <==> |old(journal)| <= k < |journal|
      ensures inbound.Some? ==> inbound.value == |journal| - 1 && (ownerOut.Some? ==> ownerOut.value == |journal| - 2)
      ensures inbound.Some? <==>
          !failure.AtArrival? && !(failure.AtOwnerOut? && OwnerLeg(requests[id], id, amount) != [])
      ensures ownerOut.Some? ==> OwnerLeg(requests[id], id, amount) != []
      ensures applied == if ok then ReceiptRow(requests[id], t, amount).Cash() else 0
      ensures inbound.None? ==> books == old(books)
      ensures inbound.Some? ==> books == old(books)[requests[id].branch :=
        if ok then ReceiveCash(old(books[requests[id].branch]), strict, t, requests[id].Code(), amount,
            requests[id].expense).0
        else AddRow(old(books[requests[id].branch]), ReceiptRow(requests[id], t, amount))]
    {
      var r := requests[id];
      ok, inbound, ownerOut, applied := false, None, None, 0;
      if r.source.None? && !r.expense {
        if failure.AtOwnerOut? { return; }
        var o := CreateOwnerOutTransferTransaction(id, amount);
        ownerOut := Some(o);
      }
      assert journal == old(journal) + OwnerLeg(r, id, amount);
      if failure.AtArrival? { return; }
      var a := CreateTransferTransaction(r.branch, t, id, Arrival, r.Code(), amount, !r.expense);
      inbound := Some(a);
      assert journal == old(journal) + (OwnerLeg(r, id, amount) + [ArrivalPosting(old(View()), id, amount)]);
      if failure.AtBalance? { return; }
      var delta := if r.expense then -(amount as int) else amount;
      ok := ApplyNetChange(r.branch, t.today, delta);
      if ok {
        applied := delta;
      }
    }

    /** Compensates a confirmation whose fund rows are the journal from `from` on. */
    method UndoReceipt(branch: Branch, t: Tick, ghost from: nat, inbound: Option<nat>, ownerOut: Option<nat>,
                       applied: int)
      requires branch in books && from <= |journal|
      requires forall k: nat :: (inbound == Some(k) || ownerOut == Some(k)) <==> from <= k < |journal|
      requires inbound.Some? ==>
          journal[inbound.value].branch == Some(branch) && journal[inbound.value].row < |books[branch].rows|
      requires ownerOut.Some? ==> journal[ownerOut.value].branch == None
      requires inbound.None? ==> applied == 0
      modifies `books, `journal
      ensures journal == old(journal[..from]) + Voided(old(journal[from..]))
      ensures books == if inbound.None? then old(books)
                       else old(books)[branch := Compensated(old(books[branch]), strict, t.today, applied,
                           Some(old(journal[inbound.value].row)))
                                                   .(clock := t.later, today := t.today)]
    {
      assert inbound.Some? && ownerOut.Some? ==> inbound.value != ownerOut.value;
      RollbackDestinationFundConfirmArtifacts(branch, t.today, inbound, ownerOut, applied);
      if inbound.Some? {
        Touch(branch, t);
      } else {
        assert books == old(books);
      }
      assert journal == old(journal[..from]) + Voided(old(journal[from..]));
    }

    /** The writes of a confirmation before the request itself, compensated when one of them, or the
        status update that follows, fails. */
    method ReceiveOrUndo(t: Tick, id: nat, amount: nat, failure: Failure) returns (ok: bool)
      requires id < |requests| && requests[id].branch in books
      modifies `books, `journal
      ensures ok <==>
        && !failure.AtStatus? && !FailsEarly(old(View()), id, amount, failure)
        && CashAccepted(old(View()), strict, t, id, amount)
      ensures ok ==> journal == old(journal) + ReceiptPart(old(View()), id, amount, failure)
      ensures ok ==> books == old(books)[requests[id].branch :=
        ReceiveCash(old(books[requests[id].branch]), strict, t, requests[id].Code(), amount, requests[id].expense).0]
      ensures !ok ==> journal == old(journal) + Voided(ReceiptPart(old(View()), id, amount, failure))
      ensures !ok ==> books == FailedBooks(old(View()), strict, t, id, amount, failure)
    {
      ghost var s := View();
      var inbound, ownerOut, applied;
      ok, inbound, ownerOut, applied := WriteReceipt(t, id, amount, failure);
      if !ok || failure.AtStatus? {
        assert inbound.Some? ==> journal[inbound.value] == ArrivalPosting(s, id, amount);
        assert ownerOut.Some? ==> journal[ownerOut.value] == OwnerPosting(id, amount);
        assert journal[..|s.journal|] == s.journal && journal[|s.journal|..] == ReceiptPart(s, id, amount, failure);
        UndoReceipt(requests[id].branch, t, |s.journal|, inbound, ownerOut, applied);
        ok := false;
      }
    }

    method ConfirmReceipt(t: Tick, id: nat, received: Option<nat>, failure: Failure) returns (ok: bool)
      requires Valid() && Allowed(View(), t, DoConfirm(id, received, failure)) && id < |requests|
      modifies this
      ensures Valid() && View() == Act(old(View()), strict, t, DoConfirm(id, received, failure))
      ensures ok ==>
        && old(requests[id]).sent.Some?
        && requests == old(requests)[id := old(requests[id]).(status := Transferred,
                                             confirmed := Some(Counted(old(requests[id]), received)),
                                             confirmedAt := Some(t.now))]
      ensures !ok ==> requests == old(requests)
      ensures (View(), ok) == Confirm(old(View()), strict, t, id, received, failure)
    {
      ReachAct(View(), strict, t, DoConfirm(id, received, failure));
      if Confirm(View(), strict, t, id, received, failure).1 {
        ConfirmEffect(View(), strict, t, id, received, failure);
      } else {
        ConfirmShape(View(), strict, t, id, received, failure);
      }
      ok := WriteConfirm(t, id, received, failure);
    }

    /** Confirmation of receipt, write by write; `failure` says which write fails, if any. */
    method WriteConfirm(t: Tick, id: nat, received: Option<nat>, failure: Failure) returns (ok: bool)
      requires id < |requests|
      modifies this
      ensures (View(), ok) == Confirm(old(View()), strict, t, id, received, failure)
    {
      var r := requests[id];
      if r.status.Transferred? { return false; }
      if !IsPendingConfirmation(r) || r.branch !in books { return false; }
      var amount := if received.Some? then received.value else r.ReleasedAmount();
      if amount == 0 || amount > r.ReleasedAmount() { return false; }
      ghost var s := View();
      ok := ReceiveOrUndo(t, id, amount, failure);
      if !ok {
        FailureAgrees(s, View(), strict, t, id, received, failure);
        return;
      }
      requests := requests[id := r.(status := Transferred, confirmedAt := Some(t.now), confirmed := Some(amount))];
      books := books[r.branch := books[r.branch].(awaiting := books[r.branch].awaiting - {r.no})];
      Touch(r.branch, t);
      SuccessAgrees(s, View(), strict, t, id, received, failure);
    }

    method CancelRequest(ghost t: Tick, id: nat) returns (ok: bool)
      requires Valid() && Allowed(View(), t, DoCancel(id)) && id < |requests|
      modifies `requests
      ensures Valid() && View() == Act(old(View()), strict, t, DoCancel(id))
      ensures match Cancel(old(View()), id)
              case None => !ok && View() == old(View())
              case Some(s') => ok && View() == s'
    {
      ReachAct(View(), strict, t, DoCancel(id));
      if !requests[id].status.Waiting? { return false; }
      requests := requests[id := requests[id].(status := Cancelled)];
      ok := true;
    }
  }

  /* ---------- what the steps of a confirmation leave behind ---------- */

  /** The books once a failed confirmation is compensated: untouched when no arrival row was written. */
  ghost function FailedBooks(s: Desk, strict: bool, t: Tick, id: nat, amount: nat, failure: Failure): map<Branch, Book>
    requires id < |s.requests| && s.requests[id].branch in s.books
  {
    var r := s.requests[id];
    var b := s.books[r.branch];
    var row := ReceiptRow(r, t, amount);
    var changed := !failure.AtBalance? && CashAccepted(s, strict, t, id, amount);
    var written := if changed then ReceiveCash(b, strict, t, r.Code(), amount, r.expense).0 else AddRow(b, row);
    if failure.AtArrival? || (failure.AtOwnerOut? && OwnerLeg(r, id, amount) != [])
        || |written.rows| <= |b.rows| then s.books
    else s.books[r.branch := Compensated(written, strict, t.today, if changed then row.Cash() else 0,
        Some(|b.rows|)).(clock := t.later, today := t.today)]
  }

  function ReceiptRow(r: Request, t: Tick, amount: nat): Row { TransferRow(t, r.Code(), amount, !r.expense) }

  /** A failure before the balance is touched. */
  predicate FailsEarly(s: Desk, id: nat, amount: nat, failure: Failure)
    requires id < |s.requests|
  {
    failure.AtArrival? || failure.AtBalance? || (failure.AtOwnerOut? && OwnerLeg(s.requests[id], id, amount) != [])
  }

  /** The fund rows a confirmation writes before `failure` stops it. */
  function ReceiptPart(s: Desk, id: nat, amount: nat, failure: Failure): seq<FundRow>
    requires id < |s.requests| && s.requests[id].branch in s.books
  {
    var owner := OwnerLeg(s.requests[id], id, amount);
    if failure.AtOwnerOut? && owner != [] then []
    else if failure.AtArrival? then owner
    else owner + [ArrivalPosting(s, id, amount)]
  }

  /** A book after the compensation of a confirmation: the applied change reversed if that is
      accepted, and the arrival row, if written, void. */
  ghost function Compensated(b: Book, strict: bool, day: int, applied: int, row: Option<nat>): Book
    requires row.Some? ==> row.value < |b.rows|
  {
    var b1 := if applied == 0 then b
              else match ApplyNetChange(b, strict, day, -applied, true)
                   case Done(x) => x
                   case Refused(_) => b;
    if row.Some? then VoidRow(b1, row.value) else b1
  }

  /** `Confirm`, by how far it comes. */
  lemma ConfirmCases(s: Desk, strict: bool, t: Tick, id: nat, received: Option<nat>, failure: Failure)
    requires id < |s.requests| && !s.requests[id].status.Transferred? && Receivable(s, id, received).Some?
    ensures var r := s.requests[id];
      var amount := Receivable(s, id, received).value;
      var part := ReceiptPart(s, id, amount, failure);
      var b := s.books[r.branch];
      Confirm(s, strict, t, id, received, failure) ==
        if !FailsEarly(s, id, amount, failure) && CashAccepted(s, strict, t, id, amount) && !failure.AtStatus? then
          (Desk(s.requests[id := r.(status := Transferred, confirmedAt := Some(t.now), confirmed := Some(amount))],
                s.books[r.branch := Next(b, strict, t, ReceiveFunds(r.no, r.Code(), amount, r.expense))],
                    s.journal + part), true)
        else if failure.AtArrival? || (failure.AtOwnerOut? && OwnerLeg(r, id, amount) != []) then
          (Desk(s.requests, s.books, s.journal + Voided(part)), false)
        else
          (Desk(s.requests, s.books[r.branch := Next(b, strict, t,
              ReceiveFailed(r.Code(), amount, r.expense, !failure.AtBalance?))],
                s.journal + Voided(part)), false)
  {
    assert s.journal + Voided([]) == s.journal;
  }

  /** The compensation leaves the book a failed receipt leaves. */
  lemma CompensatedReceipt(b: Book, strict: bool, t: Tick, code: string, amount: nat, expense: bool, failure: Failure)
    requires amount > 0
    ensures var r := TransferRow(t, code, amount, !expense);
      var (b2, accepted) := ReceiveCash(b, strict, t, code, amount, expense);
      var written := if accepted && !failure.AtBalance? then b2 else AddRow(b, r);
      && |written.rows| == |b.rows| + 1
      && Compensated(written, strict, t.today,
          if accepted && !failure.AtBalance? then r.Cash() else 0, Some(|b.rows|)).(clock := t.later, today := t.today)
         == Next(b, strict, t, ReceiveFailed(code, amount, expense, !failure.AtBalance?))
  {
  }

  /** The tables after a failed confirmation and its compensation are those of `Confirm`. */
  lemma FailureAgrees(s: Desk, s': Desk, strict: bool, t: Tick, id: nat, received: Option<nat>, failure: Failure)
    requires id < |s.requests| && !s.requests[id].status.Transferred? && Receivable(s, id, received).Some?
    requires var amount := Receivable(s, id, received).value;
      && s'.requests == s.requests && s'.journal == s.journal + Voided(ReceiptPart(s, id, amount, failure))
      && s'.books == FailedBooks(s, strict, t, id, amount, failure)
    requires failure.AtStatus? || FailsEarly(s, id, Receivable(s, id, received).value, failure)
             || !CashAccepted(s, strict, t, id, Receivable(s, id, received).value)
    ensures (s', false) == Confirm(s, strict, t, id, received, failure)
  {
    var r := s.requests[id];
    ConfirmCases(s, strict, t, id, received, failure);
    CompensatedReceipt(s.books[r.branch], strict, t, r.Code(), Receivable(s, id, received).value, r.expense, failure);
  }

  /** The tables after a received confirmation are those of `Confirm`. */
  lemma SuccessAgrees(s: Desk, s': Desk, strict: bool, t: Tick, id: nat, received: Option<nat>, failure: Failure)
    requires id < |s.requests| && !s.requests[id].status.Transferred? && Receivable(s, id, received).Some?
    requires var r := s.requests[id];
      var amount := Receivable(s, id, received).value;
      && !failure.AtStatus? && !FailsEarly(s, id, amount, failure) && CashAccepted(s, strict, t, id, amount)
      && s'.requests == s.requests[id := r.(status := Transferred, confirmedAt := Some(t.now),
          confirmed := Some(amount))]
      && s'.journal == s.journal + ReceiptPart(s, id, amount, failure)
      && var b' := ReceiveCash(s.books[r.branch], strict, t, r.Code(), amount, r.expense).0;
         s'.books == s.books[r.branch := b'.(awaiting := b'.awaiting - {r.no}, clock := t.later, today := t.today)]
    ensures (s', true) == Confirm(s, strict, t, id, received, failure)
  {
    ConfirmCases(s, strict, t, id, received, failure);
  }
}
