/** The journal of the protocol against the branches' own books: the fund-transfer rows of a book and its
    rows in the journal correspond one to one, with equal cash and void flag. */
module FundLedgers {
  import opened Options
  import opened Ledger
  import opened LedgerLemmas
  import opened LedgerRuns
  import opened LedgerInvariant
  import opened FundRequests
  import opened FundProofs
  import opened FundTheorems

  /** The book row that `p` points at is a fund transfer of the same cash, void or not alike. */
  predicate Tells(rows: seq<Row>, p: FundRow) {
    p.row < |rows| && var r := rows[p.row];
    r.purpose.FundTransfer? && r.cashIn == p.cashIn && r.cashOut == p.cashOut && r.voided == p.voided
  }

  /** Row `k` of the journal is the entry for row `i` of the book of `b`. */
  predicate Entry(journal: seq<FundRow>, b: Branch, i: nat, k: int) {
    0 <= k < |journal| && journal[k].branch == Some(b) && journal[k].row == i
  }

  ghost predicate EntriesTell(rows: seq<Row>, journal: seq<FundRow>, b: Branch) {
    forall k | 0 <= k < |journal| && journal[k].branch == Some(b) :: Tells(rows, journal[k])
  }

  ghost predicate EntriesApart(journal: seq<FundRow>, b: Branch) {
    forall j, k | 0 <= j < k < |journal| && journal[j].branch == Some(b) && journal[k].branch == Some(b) ::
      journal[j].row != journal[k].row
  }

  /** Every fund-transfer row of the book of `b` has exactly one entry in the journal, and every entry of
      `b` is such a row. */
  ghost predicate BookMatches(rows: seq<Row>, journal: seq<FundRow>, b: Branch) {
    && EntriesTell(rows, journal, b) && EntriesApart(journal, b)
    && forall i: nat | i < |rows| && rows[i].purpose.FundTransfer? :: exists k :: Entry(journal, b, i, k)
  }

  ghost predicate BooksMatch(s: Desk) { forall b | b in s.books :: BookMatches(s.books[b].rows, s.journal, b) }

  /* ---------- how a correspondence goes on ---------- */

  /** The fund-transfer rows of `rows'` are those of `rows`, where they were. */
  ghost predicate FundRowsKept(rows: seq<Row>, rows': seq<Row>) {
    && |rows| <= |rows'|
    && (forall i | 0 <= i < |rows| && (rows[i].purpose.FundTransfer? || rows'[i].purpose.FundTransfer?) ::
        rows'[i] == rows[i])
    && (forall i | |rows| <= i < |rows'| :: !rows'[i].purpose.FundTransfer?)
  }

  /** Entries that do not belong to the branch, and rows that are no fund transfers. */
  lemma BookStays(rows: seq<Row>, rows': seq<Row>, journal: seq<FundRow>, written: seq<FundRow>, b: Branch)
    requires BookMatches(rows, journal, b) && FundRowsKept(rows, rows')
    requires forall p | p in written :: p.branch != Some(b)
    ensures BookMatches(rows', journal + written, b)
  {
    var journal' := journal + written;
    assert forall k | |journal| <= k < |journal'| :: journal'[k] in written;
    forall k | 0 <= k < |journal'| && journal'[k].branch == Some(b) ensures k < |journal| && Tells(rows', journal'[k]) {
      assert Tells(rows, journal[k]);
    }
    forall i: nat | i < |rows'| && rows'[i].purpose.FundTransfer? ensures exists k :: Entry(journal', b, i, k) {
      var k :| Entry(journal, b, i, k);
      assert Entry(journal', b, i, k);
    }
  }

  /** One more fund-transfer row in the book and its entry, the last one written. */
  lemma BookGrows(rows: seq<Row>, r: Row, journal: seq<FundRow>, written: seq<FundRow>, b: Branch)
    requires BookMatches(rows, journal, b) && written != []
    requires forall i | 0 <= i < |written| - 1 :: written[i].branch != Some(b)
    requires var p := written[|written| - 1]; p.branch == Some(b) && p.row == |rows| && Tells(rows + [r], p)
    ensures BookMatches(rows + [r], journal + written, b)
  {
    var rows', journal' := rows + [r], journal + written;
    var n := |journal'| - 1;
    assert forall k | |journal| <= k < n :: journal'[k] == written[k - |journal|];
    forall k | 0 <= k < n && journal'[k].branch == Some(b) ensures k < |journal| && Tells(rows', journal'[k]) {
      assert Tells(rows, journal[k]);
    }
    assert Entry(journal', b, |rows|, n);
    forall i: nat | i < |rows| && rows[i].purpose.FundTransfer? ensures exists k :: Entry(journal', b, i, k) {
      var k :| Entry(journal, b, i, k);
      assert Entry(journal', b, i, k);
    }
  }

  /* ---------- cash totals ---------- */

  function LiveFundIds(rows: seq<Row>): set<nat> {
    set i: nat | i < |rows| && rows[i].purpose.FundTransfer? && !rows[i].voided
  }

  /** cash_in − cash_out over the non-void fund-transfer rows of a book. */
  function FundCash(rows: seq<Row>): int { Net(rows, LiveFundIds(rows)) }

  function CashAt(p: FundRow, at: Option<Branch>): int {
    if p.branch == at && !p.voided then p.cashIn - p.cashOut else 0
  }

  /** The same sum over the journal's rows of one branch, or of head office. */
  function JournalCashAt(journal: seq<FundRow>, at: Option<Branch>): int {
    if journal == [] then 0 else JournalCashAt(journal[..|journal| - 1], at) + CashAt(journal[|journal| - 1], at)
  }

  lemma {:induction false} JournalConcat(j: seq<FundRow>, k: seq<FundRow>, at: Option<Branch>)
    ensures JournalCashAt(j + k, at) == JournalCashAt(j, at) + JournalCashAt(k, at)
  {
    if k == [] {
      assert j + k == j;
    } else {
      var n := |k| - 1;
      JournalConcat(j, k[..n], at);
      assert (j + k)[..|j + k| - 1] == j + k[..n];
    }
  }

  lemma JournalOne(p: FundRow, at: Option<Branch>)
    ensures JournalCashAt([p], at) == CashAt(p, at)
  {
    assert [p][..0] == [];
  }

  /** The book rows of the non-void entries of `b`. */
  function EntryIds(journal: seq<FundRow>, b: Branch): set<nat> {
    if journal == [] then {}
    else
      var p := journal[|journal| - 1];
      EntryIds(journal[..|journal| - 1], b) + (if p.branch == Some(b) && !p.voided then {p.row} else {})
  }

  lemma {:induction false} EntryIdsMember(journal: seq<FundRow>, b: Branch, i: nat)
    ensures i in EntryIds(journal, b) <==> exists k :: Entry(journal, b, i, k) && !journal[k].voided
  {
    if journal != [] {
      var n := |journal| - 1;
      EntryIdsMember(journal[..n], b, i);
      if i in EntryIds(journal[..n], b) {
        var k :| Entry(journal[..n], b, i, k) && !journal[..n][k].voided;
        assert Entry(journal, b, i, k);
      } else if i in EntryIds(journal, b) {
        assert Entry(journal, b, i, n);
      }
      if k :| Entry(journal, b, i, k) && !journal[k].voided {
        if k < n { assert Entry(journal[..n], b, i, k); }
      }
    }
  }

  lemma {:induction false} EntriesCash(rows: seq<Row>, journal: seq<FundRow>, b: Branch)
    requires EntriesTell(rows, journal, b) && EntriesApart(journal, b)
    ensures Net(rows, EntryIds(journal, b)) == JournalCashAt(journal, Some(b))
  {
    if journal == [] {
      NetNone(rows, {});
    } else {
      var n := |journal| - 1;
      var p := journal[n];
      EntriesCash(rows, journal[..n], b);
      if p.branch == Some(b) && !p.voided {
        EntryIdsMember(journal[..n], b, p.row);
        assert p.row !in EntryIds(journal[..n], b);
        NetUnion(rows, EntryIds(journal[..n], b), {p.row});
        NetOne(rows, p.row);
      } else {
        assert EntryIds(journal, b) == EntryIds(journal[..n], b);
      }
    }
  }

  /** So the cash of a book's fund transfers is that of its entries. */
  lemma MatchingCash(rows: seq<Row>, journal: seq<FundRow>, b: Branch)
    requires BookMatches(rows, journal, b)
    ensures FundCash(rows) == JournalCashAt(journal, Some(b))
  {
    EntriesCash(rows, journal, b);
    forall i: nat ensures i in LiveFundIds(rows) <==> i in EntryIds(journal, b) {
      EntryIdsMember(journal, b, i);
      if i in LiveFundIds(rows) {
        var k :| Entry(journal, b, i, k);
        assert Tells(rows, journal[k]);
      }
    }
    assert LiveFundIds(rows) == EntryIds(journal, b);
  }

  /* ---------- what a step does to a book's fund rows ---------- */

  /** Postings of the other services are no fund transfers. */
  predicate PlainStep(step: Step) { step.Posting? ==> !step.purpose.FundTransfer? }

  lemma OtherStepsMoveNoFunds(b: Book, strict: bool, t: Tick, step: Step)
    requires Inv(b, strict) && Admissible(b, t, step) && PlainStep(step) && (!IsFundStep(step) || step.ReleaseRequest?)
    ensures FundRowsKept(b.rows, Next(b, strict, t, step).rows)
  {
    if AddedRow(b, strict, t, step).Some? {
      StepAddsRow(b, strict, t, step);
    } else if IsSessionStep(step) {
      SessionStepShape(b, strict, t, step);
      UpsertMarkerRows(b.rows, SessionDay(t, step), SessionMarker(step), t.later);
    } else {
      StepAddsNoRow(b, strict, t, step);
    }
  }

  /* ---------- each action ---------- */

  lemma EventMatches(s: Desk, strict: bool, t: Tick, branch: Branch, step: Step)
    requires BooksOk(s, strict) && BooksMatch(s) && branch in s.books && Admissible(s.books[branch], t, step)
    requires PlainStep(step) && (!IsFundStep(step) || step.ReleaseRequest?)
    ensures BooksMatch(OnBook(s, strict, branch, t, step))
  {
    OtherStepsMoveNoFunds(s.books[branch], strict, t, step);
    BookStays(s.books[branch].rows, Next(s.books[branch], strict, t, step).rows, s.journal, [], branch);
    assert s.journal + [] == s.journal;
  }

  /** The source's book after a confirmed debit. */
  lemma DebitedBook(b: Book, strict: bool, t: Tick, code: string, amount: nat)
    requires Inv(b, strict) && Ticks(b, t) && amount > 0 && LatestBalance(b, t.today) >= amount
    ensures DebitAccepted(b, strict, t, code, amount)
    ensures Next(b, strict, t, SendFunds(code, amount)).rows == b.rows + [TransferRow(t, code, amount, false)]
  {
    SendNeverStrandsRow(b, strict, t, code, amount);
    FundStepRow(b, strict, t, SendFunds(code, amount));
  }

  /** The destination's book after a failed receipt. */
  lemma FailedBook(b: Book, strict: bool, t: Tick, code: string, amount: nat, expense: bool, balanceWritten: bool)
    requires Inv(b, strict) && Ticks(b, t) && amount > 0
    ensures Next(b, strict, t, ReceiveFailed(code, amount, expense, balanceWritten)).rows
            == b.rows + [TransferRow(t, code, amount, !expense).(voided := true)]
  {
    FundStepRow(b, strict, t, ReceiveFailed(code, amount, expense, balanceWritten));
  }

  /** What a source confirmation that passes its checks does to the tables. */
  lemma SourceConfirmForm(s: Desk, strict: bool, t: Tick, id: nat, sum: Option<nat>)
    requires id < |s.requests| && SourceConfirm(s, strict, t, id, sum).Some?
    ensures var r := s.requests[id];
      var amount := if sum.Some? then sum.value else r.ReleasedAmount();
      var s' := SourceConfirm(s, strict, t, id, sum).value;
      && r.source.Some? && r.source.value in s.books && amount > 0
          && LatestBalance(s.books[r.source.value], t.today) >= amount
      && s'.books == s.books[r.source.value := Next(s.books[r.source.value], strict, t, SendFunds(r.Code(), amount))]
      && s'.journal == s.journal + [FundRow(id, SourceOut, r.source, |s.books[r.source.value].rows|, 0, amount, false)]
  {
  }

  lemma SourceConfirmMatches(s: Desk, strict: bool, t: Tick, id: nat, sum: Option<nat>)
    requires BooksOk(s, strict) && BooksMatch(s) && id < |s.requests| && forall b | b in s.books :: Ticks(s.books[b], t)
    requires SourceConfirm(s, strict, t, id, sum).Some?
    ensures BooksMatch(SourceConfirm(s, strict, t, id, sum).value)
  {
    var r := s.requests[id];
    SourceConfirmForm(s, strict, t, id, sum);
    var source, amount := r.source.value, if sum.Some? then sum.value else r.ReleasedAmount();
    DebitedBook(s.books[source], strict, t, r.Code(), amount);
    var p := FundRow(id, SourceOut, Some(source), |s.books[source].rows|, 0, amount, false);
    BookGrows(s.books[source].rows, TransferRow(t, r.Code(), amount, false), s.journal, [p], source);
    OthersStay(s, [p], source);
  }

  /** The books of the other branches. */
  lemma OthersStay(s: Desk, written: seq<FundRow>, branch: Branch)
    requires BooksMatch(s) && forall p | p in written :: p.branch.None? || p.branch == Some(branch)
    ensures forall b | b in s.books && b != branch :: BookMatches(s.books[b].rows, s.journal + written, b)
  {
    forall b | b in s.books && b != branch ensures BookMatches(s.books[b].rows, s.journal + written, b) {
      BookStays(s.books[b].rows, s.books[b].rows, s.journal, written, b);
    }
  }

  lemma LateFailureMatches(s: Desk, strict: bool, t: Tick, id: nat, amount: nat, balanceWritten: bool)
    requires BooksOk(s, strict) && BooksMatch(s) && id < |s.requests| && s.requests[id].branch in s.books && amount > 0
    requires Ticks(s.books[s.requests[id].branch], t)
    ensures var r := s.requests[id];
      BooksMatch(OnBook(s, strict, r.branch, t, ReceiveFailed(r.Code(), amount, r.expense, balanceWritten))
                   .(journal := s.journal + Voided(ReceiptWritten(s, id, amount))))
  {
    var r := s.requests[id];
    var written := Voided(ReceiptWritten(s, id, amount));
    FailedBook(s.books[r.branch], strict, t, r.Code(), amount, r.expense, balanceWritten);
    BookGrows(s.books[r.branch].rows, TransferRow(t, r.Code(), amount, !r.expense).(voided := true), s.journal, written,
        r.branch);
    OthersStay(s, written, r.branch);
  }

  /** Head-office rows belong to no book. */
  lemma EarlyFailureMatches(s: Desk, id: nat, amount: nat)
    requires BooksMatch(s) && id < |s.requests|
    ensures BooksMatch(s.(journal := s.journal + Voided(OwnerLeg(s.requests[id], id, amount))))
  {
    var written := Voided(OwnerLeg(s.requests[id], id, amount));
    forall b | b in s.books ensures BookMatches(s.books[b].rows, s.journal + written, b) {
      BookStays(s.books[b].rows, s.books[b].rows, s.journal, written, b);
    }
  }

  lemma FailedConfirmMatches(s: Desk, strict: bool, t: Tick, id: nat, received: Option<nat>, failure: Failure)
    requires BooksOk(s, strict) && BooksMatch(s) && id < |s.requests| && forall b | b in s.books :: Ticks(s.books[b], t)
    requires !Confirm(s, strict, t, id, received, failure).1
    ensures BooksMatch(Confirm(s, strict, t, id, received, failure).0)
  {
    var r := s.requests[id];
    FailedConfirmForms(s, strict, t, id, received, failure);
    if Receivable(s, id, received).Some? {
      var amount := Receivable(s, id, received).value;
      EarlyFailureMatches(s, id, amount);
      LateFailureMatches(s, strict, t, id, amount, !failure.AtBalance?);
    }
  }

  lemma ReceivedMatches(s: Desk, t: Tick, b': Book, id: nat, amount: nat, r': Request)
    requires BooksMatch(s) && id < |s.requests| && s.requests[id].branch in s.books
    requires var r := s.requests[id]; b'.rows == s.books[r.branch].rows + [TransferRow(t, r.Code(), amount, !r.expense)]
    ensures BooksMatch(Revised(s, s.requests[id].branch, b', id, r', ReceiptWritten(s, id, amount)))
  {
    var r := s.requests[id];
    var written := ReceiptWritten(s, id, amount);
    BookGrows(s.books[r.branch].rows, TransferRow(t, r.Code(), amount, !r.expense), s.journal, written, r.branch);
    OthersStay(s, written, r.branch);
  }

  lemma ReceivedConfirmMatches(s: Desk, strict: bool, t: Tick, id: nat, received: Option<nat>, failure: Failure)
    requires BooksOk(s, strict) && BooksMatch(s) && id < |s.requests|
        && (forall b | b in s.books :: Ticks(s.books[b], t))
    requires s.requests[id].branch in s.books ==>
      s.requests[id].Code() !in s.books[s.requests[id].branch].awaiting - {s.requests[id].no}
    requires Confirm(s, strict, t, id, received, failure).1
    ensures BooksMatch(Confirm(s, strict, t, id, received, failure).0)
  {
    var r := s.requests[id];
    ReceivedConfirmForm(s, strict, t, id, received, failure);
    var amount := Receivable(s, id, received).value;
    ReceivedBook(s.books[r.branch], strict, t, r.no, r.Code(), amount, r.expense);
    ReceivedMatches(s, t, Next(s.books[r.branch], strict, t, ReceiveFunds(r.no, r.Code(), amount, r.expense)), id,
        amount,
                    r.(status := Transferred, confirmedAt := Some(t.now), confirmed := Some(amount)));
  }

  predicate PlainAction(a: Action) { a.BranchEvent? ==> PlainStep(a.step) }

  lemma SourceActMatches(s: Desk, strict: bool, t: Tick, a: Action)
    requires BooksOk(s, strict) && BooksMatch(s) && Allowed(s, t, a) && a.DoSourceConfirm?
    ensures BooksMatch(Act(s, strict, t, a))
  {
    if a.id < |s.requests| && SourceConfirm(s, strict, t, a.id, a.sum).Some? {
      SourceConfirmMatches(s, strict, t, a.id, a.sum);
    }
  }

  lemma ConfirmActMatches(s: Desk, strict: bool, t: Tick, a: Action)
    requires BooksOk(s, strict) && BooksMatch(s) && Allowed(s, t, a) && a.DoConfirm?
    ensures BooksMatch(Act(s, strict, t, a))
  {
    if a.id < |s.requests| {
      if Confirm(s, strict, t, a.id, a.sum, a.failure).1 {
        ReceivedConfirmMatches(s, strict, t, a.id, a.sum, a.failure);
      }
      else { FailedConfirmMatches(s, strict, t, a.id, a.sum, a.failure); }
    }
  }

  lemma ReleaseMatches(s: Desk, strict: bool, t: Tick, a: Action)
    requires BooksOk(s, strict) && BooksMatch(s) && Allowed(s, t, a) && (a.DoDirect? || a.DoTransfer?)
    ensures BooksMatch(Act(s, strict, t, a))
  {
    if a.DoDirect? {
      if a.branch in s.books { EventMatches(s, strict, t, a.branch, ReleaseRequest(a.no)); }
    } else if a.id < |s.requests| && s.requests[a.id].branch in s.books {
      EventMatches(s, strict, t, s.requests[a.id].branch, ReleaseRequest(s.requests[a.id].no));
    }
  }

  lemma ActMatches(s: Desk, strict: bool, t: Tick, a: Action)
    requires BooksOk(s, strict) && BooksMatch(s) && Allowed(s, t, a) && PlainAction(a)
    ensures BooksMatch(Act(s, strict, t, a))
  {
    match a
    case DoDirect(_, _, _, _, _, _) => ReleaseMatches(s, strict, t, a);
    case DoTransfer(_, _, _, _) => ReleaseMatches(s, strict, t, a);
    case DoSourceConfirm(_, _) => SourceActMatches(s, strict, t, a);
    case DoConfirm(_, _, _) => ConfirmActMatches(s, strict, t, a);
    case BranchEvent(branch, step) =>
      if branch in s.books && !IsFundStep(step) { EventMatches(s, strict, t, branch, step); }
    case _ =>
  }

  /** In every run, the fund-transfer rows of each branch's book are exactly the rows the journal has for
      that branch, one for one. */
  lemma {:induction false} BooksMatchThroughout(s: Desk, strict: bool, trace: seq<(Tick, Action)>)
    requires FreshDesk(s) && AllowedRun(s, strict, trace) && forall x | x in trace :: PlainAction(x.1)
    ensures BooksMatch(RunDesk(s, strict, trace))
  {
    if trace == [] {
      forall b | b in s.books ensures BookMatches(s.books[b].rows, s.journal, b) {
        assert Fresh(s.books[b]);
      }
    } else {
      var n := |trace| - 1;
      LastAct(s, strict, trace);
      BooksMatchThroughout(s, strict, trace[..n]);
      FreshDeskInv(s, strict);
      RunKeepsDeskInv(s, strict, trace[..n]);
      ActMatches(RunDesk(s, strict, trace[..n]), strict, trace[n].0, trace[n].1);
    }
  }

  /* ---------- conservation over all tables ---------- */

  /** Fund-transfer cash of the books of `bs` together. */
  function TotalFundCash(books: map<Branch, Book>, bs: seq<Branch>): int
    requires forall b | b in bs :: b in books
  {
    if bs == [] then 0 else TotalFundCash(books, bs[..|bs| - 1]) + FundCash(books[bs[|bs| - 1]].rows)
  }

  function TotalJournalCash(journal: seq<FundRow>, bs: seq<Branch>): int {
    if bs == [] then 0 else TotalJournalCash(journal, bs[..|bs| - 1]) + JournalCashAt(journal, Some(bs[|bs| - 1]))
  }

  function LiveCash(p: FundRow): int { if p.voided then 0 else p.cashIn - p.cashOut }

  predicate Apart(bs: seq<Branch>) { forall i, j | 0 <= i < j < |bs| :: bs[i] != bs[j] }

  lemma {:induction false} TotalsMatch(books: map<Branch, Book>, journal: seq<FundRow>, bs: seq<Branch>)
    requires (forall b | b in bs :: b in books) && forall b | b in books :: BookMatches(books[b].rows, journal, b)
    ensures TotalFundCash(books, bs) == TotalJournalCash(journal, bs)
  {
    if bs != [] {
      assert bs[|bs| - 1] in bs;
      MatchingCash(books[bs[|bs| - 1]].rows, journal, bs[|bs| - 1]);
      TotalsMatch(books, journal, bs[..|bs| - 1]);
    }
  }

  /** A row counts once, for the branch it belongs to. */
  lemma {:induction false} RowCountsOnce(journal: seq<FundRow>, p: FundRow, bs: seq<Branch>)
    requires Apart(bs)
    ensures TotalJournalCash(journal + [p], bs)
            == TotalJournalCash(journal, bs) + (if p.branch.Some? && p.branch.value in bs then LiveCash(p) else 0)
  {
    if bs != [] {
      var n := |bs| - 1;
      assert forall b :: b in bs <==> b in bs[..n] || b == bs[n];
      RowCountsOnce(journal, p, bs[..n]);
      JournalConcat(journal, [p], Some(bs[n]));
      JournalOne(p, Some(bs[n]));
    }
  }

  lemma {:induction false} NothingCounts(bs: seq<Branch>)
    ensures TotalJournalCash([], bs) == 0
  {
    if bs != [] { NothingCounts(bs[..|bs| - 1]); }
  }

  /** The branches and head office together hold all rows of the journal. */
  lemma {:induction false} JournalSplits(journal: seq<FundRow>, rs: seq<Request>, bs: seq<Branch>)
    requires Apart(bs) && forall p | p in journal :: p.request < |rs| && (p.branch.Some? ==> p.branch.value in bs)
    ensures TotalJournalCash(journal, bs) + JournalCashAt(journal, None)
        == JournalCash(journal, rs, false) + JournalCash(journal, rs, true)
  {
    if journal == [] {
      NothingCounts(bs);
    } else {
      var n := |journal| - 1;
      assert journal[n] in journal && journal == journal[..n] + [journal[n]];
      JournalSplits(journal[..n], rs, bs);
      RowCountsOnce(journal[..n], journal[n], bs);
    }
  }

  /** In every run: what all books and head office hold in fund-transfer rows is minus what is on its way,
      minus what was sent and never counted on arrival, but for the requests that are expenses. */
  lemma TablesConserveCash(s0: Desk, strict: bool, trace: seq<(Tick, Action)>, bs: seq<Branch>)
    requires FreshDesk(s0) && AllowedRun(s0, strict, trace) && forall x | x in trace :: PlainAction(x.1)
    requires Apart(bs) && forall b :: b in bs <==> b in RunDesk(s0, strict, trace).books
    ensures var s := RunDesk(s0, strict, trace);
      TotalFundCash(s.books, bs) + JournalCashAt(s.journal, None)
      == -InTransit(s.requests) - Shortages(s.requests) + JournalCash(s.journal, s.requests, true)
  {
    var s := RunDesk(s0, strict, trace);
    assert BooksMatch(s) by { BooksMatchThroughout(s0, strict, trace); }
    assert Links(s) by {
      FreshDeskInv(s0, strict);
      RunKeepsDeskInv(s0, strict, trace);
    }
    TotalsMatch(s.books, s.journal, bs);
    forall p | p in s.journal ensures p.request < |s.requests| && (p.branch.Some? ==> p.branch.value in bs) {
      var k :| 0 <= k < |s.journal| && s.journal[k] == p;
      assert Linked(s, s.journal[k]);
    }
    JournalSplits(s.journal, s.requests, bs);
    assert ReachableDesk(s, strict);
    TransfersConserveCash(s, strict);
  }
}
