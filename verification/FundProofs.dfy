/** The invariant of the fund-transfer protocol. */
module FundProofs {
  import opened Options
  import opened Ledger
  import opened LedgerLemmas
  import opened LedgerRuns
  import opened LedgerInvariant
  import opened FundRequests

  /* ---------- what the journal must hold for a request ---------- */

  /** The content of a fund row, without its place in the tables. */
  datatype Leg = Leg(kind: Kind, branch: Option<Branch>, cashIn: nat, cashOut: nat)

  function LegOf(p: FundRow): Leg { Leg(p.kind, p.branch, p.cashIn, p.cashOut) }

  /** The non-void rows of one request, in order. */
  function Live(journal: seq<FundRow>, id: nat): seq<Leg> {
    if journal == [] then []
    else
      var p := journal[|journal| - 1];
      Live(journal[..|journal| - 1], id) + (if p.request == id && !p.voided then [LegOf(p)] else [])
  }

  function DebitScript(r: Request): seq<Leg> {
    if r.Routed() && (r.status.PendingConfirmation? || r.status.Transferred?) && r.sent.Some?
    then [Leg(SourceOut, r.source, 0, r.sent.value)] else []
  }

  function ReceiptScript(r: Request): seq<Leg> {
    if !r.status.Transferred? || r.confirmed.None? then []
    else if r.expense then [Leg(Arrival, Some(r.branch), 0, r.confirmed.value)]
    else if r.Routed() then [Leg(Arrival, Some(r.branch), r.confirmed.value, 0)]
    else [Leg(OwnerOut, None, 0, r.confirmed.value), Leg(Arrival, Some(r.branch), r.confirmed.value, 0)]
  }

  /** Exactly the rows a request in its status must have: one debit of the amount sent once a source
      branch has handed it over, and the receipt once it is complete. */
  function Script(r: Request): seq<Leg> { DebitScript(r) + ReceiptScript(r) }

  /* ---------- the invariant ---------- */

  predicate RequestOk(s: Desk, r: Request) {
    && r.no != "" && r.requested > 0 && r.branch in s.books
    && (r.source.Some? ==> r.source.value in s.books && r.source.value != r.branch)
    && (r.approved.Some? ==> 0 < r.approved.value <= r.requested)
    && (r.sent.Some? ==> 0 < r.sent.value <= r.requested)
    && match r.status
       case Waiting => r.sent.None? && r.transferredAt.None? && r.confirmed.None? && r.approved.None?
       case Cancelled => r.sent.None? && r.transferredAt.None? && r.confirmed.None?
       case Rejected => r.sent.None? && r.transferredAt.None? && r.confirmed.None?
       case Approved => r.sent.None? && r.transferredAt.None? && r.confirmed.None? && r.approved.Some?
       case PendingSource => r.sent.Some? && r.transferredAt.Some? && r.source.Some? && r.confirmed.None?
       case PendingConfirmation => r.sent.Some? && r.transferredAt.Some? && r.confirmed.None?
       case Transferred => r.sent.Some? && r.confirmed.Some? && 0 < r.confirmed.value <= r.sent.value
  }

  /** A branch row of the journal is a row of that branch's book. */
  predicate Linked(s: Desk, p: FundRow) {
    p.request < |s.requests|
    && (p.branch.Some? ==>
          && p.branch.value in s.books && p.row < |s.books[p.branch.value].rows|
          && var r := s.books[p.branch.value].rows[p.row];
             r.purpose == FundTransfer && r.cashIn == p.cashIn && r.cashOut == p.cashOut && r.voided == p.voided)
  }

  /** Request `i` waits for receipt at branch `b` under the number `no`. */
  predicate WaitsAs(rs: seq<Request>, b: Branch, no: string, i: int) {
    0 <= i < |rs| && rs[i].branch == b && rs[i].AwaitsReceipt() && rs[i].no == no
  }

  /** The numbers a branch's book hides are those of its requests awaiting receipt. */
  ghost predicate AwaitingOk(rs: seq<Request>, b: Branch, awaiting: set<string>) {
    && (forall i | 0 <= i < |rs| && rs[i].branch == b && rs[i].AwaitsReceipt() :: rs[i].no in awaiting)
    && (forall no | no in awaiting :: exists i :: WaitsAs(rs, b, no, i))
  }

  ghost predicate NumbersDistinct(rs: seq<Request>) {
    forall i, j | 0 <= i < j < |rs| :: rs[i].no != rs[j].no
  }

  ghost predicate RequestsOk(s: Desk) { forall i | 0 <= i < |s.requests| :: RequestOk(s, s.requests[i]) }
  ghost predicate Links(s: Desk) { forall k | 0 <= k < |s.journal| :: Linked(s, s.journal[k]) }
  ghost predicate Scripts(rs: seq<Request>, journal: seq<FundRow>) {
    forall i | 0 <= i < |rs| :: Live(journal, i) == Script(rs[i])
  }
  ghost predicate Awaits(s: Desk) { forall b | b in s.books :: AwaitingOk(s.requests, b, s.books[b].awaiting) }

  /** The desk's own tables fit together. */
  ghost predicate Tables(s: Desk) {
    RequestsOk(s) && Links(s) && Scripts(s.requests, s.journal) && Awaits(s) && NumbersDistinct(s.requests)
  }

  ghost predicate BooksOk(s: Desk, strict: bool) { forall b | b in s.books :: Inv(s.books[b], strict) }

  ghost predicate DeskInv(s: Desk, strict: bool) { Tables(s) && BooksOk(s, strict) }

  /* ---------- journal lemmas ---------- */

  lemma {:induction false} LiveConcat(j: seq<FundRow>, k: seq<FundRow>, id: nat)
    ensures Live(j + k, id) == Live(j, id) + Live(k, id)
  {
    if k == [] {
      assert j + k == j;
    } else {
      var n := |k| - 1;
      LiveConcat(j, k[..n], id);
      assert (j + k)[..|j + k| - 1] == j + k[..n];
    }
  }

  lemma {:induction false} LiveNone(j: seq<FundRow>, id: nat)
    requires forall p | p in j :: p.voided || p.request != id
    ensures Live(j, id) == []
  {
    if j != [] {
      LiveNone(j[..|j| - 1], id);
    }
  }

  lemma LiveOne(p: FundRow, id: nat)
    ensures Live([p], id) == if p.request == id && !p.voided then [LegOf(p)] else []
  {
    assert [p][..0] == [];
  }

  lemma LiveTwo(p: FundRow, q: FundRow)
    requires p.request == q.request && !p.voided && !q.voided
    ensures Live([p, q], p.request) == [LegOf(p), LegOf(q)]
  {
    assert [p, q] == [p] + [q];
    LiveConcat([p], [q], p.request);
    LiveOne(p, p.request);
    LiveOne(q, p.request);
  }

  /* ---------- book lemmas ---------- */

  /** Existing operational rows are where they were. */
  ghost predicate RowsKept(b: Book, b': Book) {
    |b'.rows| >= |b.rows| && forall i | 0 <= i < |b.rows| && !b.rows[i].IsMarker() :: b'.rows[i] == b.rows[i]
  }

  lemma StepKeepsRows(b: Book, strict: bool, t: Tick, step: Step)
    requires Inv(b, strict) && Admissible(b, t, step)
    ensures RowsKept(b, Next(b, strict, t, step))
    ensures !IsFundStep(step) ==> Next(b, strict, t, step).awaiting == b.awaiting
  {
    if AddedRow(b, strict, t, step).Some? {
      StepAddsRow(b, strict, t, step);
      assert forall i | 0 <= i < |b.rows| :: Next(b, strict, t, step).rows[i] == b.rows[i];
    } else if IsSessionStep(step) {
      SessionStepShape(b, strict, t, step);
      UpsertMarkerRows(b.rows, SessionDay(t, step), SessionMarker(step), t.later);
    } else {
      StepAddsNoRow(b, strict, t, step);
    }
  }

  /** One book takes a step, the others stay. */
  lemma OnBookKeepsBooks(s: Desk, strict: bool, branch: Branch, t: Tick, step: Step)
    requires BooksOk(s, strict) && branch in s.books && Admissible(s.books[branch], t, step)
    ensures BooksOk(OnBook(s, strict, branch, t, step), strict)
    ensures RowsKept(s.books[branch], OnBook(s, strict, branch, t, step).books[branch])
    ensures !IsFundStep(step) ==> OnBook(s, strict, branch, t, step).books[branch].awaiting == s.books[branch].awaiting
  {
    StepKeepsInv(s.books[branch], strict, t, step);
    StepKeepsRows(s.books[branch], strict, t, step);
  }

  /** The row of a fund step is the last of its book. */
  lemma FundStepRow(b: Book, strict: bool, t: Tick, step: Step)
    requires Inv(b, strict) && Admissible(b, t, step) && (step.ReceiveFunds? || step.ReceiveFailed? || step.SendFunds?)
    requires step.SendFunds? ==> LatestBalance(b, t.today) >= step.amount
    ensures AddedRow(b, strict, t, step).Some?
    ensures Next(b, strict, t, step).rows == b.rows + [AddedRow(b, strict, t, step).value]
    ensures !step.ReceiveFunds? ==> Next(b, strict, t, step).awaiting == b.awaiting
    ensures step.ReceiveFunds? && !AddedRow(b, strict, t, step).value.voided
        ==> Next(b, strict, t, step).awaiting == b.awaiting - {step.requestNo}
  {
    StepAddsRow(b, strict, t, step);
    if step.SendFunds? {
      SendNeverStrandsRow(b, strict, t, step.code, step.amount);
    }
  }

  /* ---------- table lemmas: no step of the finance service in sight ---------- */

  /** `s'` differs from `s` in the book of `branch`, whose existing rows are kept, and in its requests
      and journal, which only grow or are rewritten in place. */
  ghost predicate Extends(s: Desk, s': Desk, branch: Branch) {
    && branch in s.books && s'.books.Keys == s.books.Keys
    && (forall b | b in s.books && b != branch :: s'.books[b] == s.books[b])
    && RowsKept(s.books[branch], s'.books[branch])
    && |s'.requests| >= |s.requests| && s.journal <= s'.journal
  }

  lemma LinksExtend(s: Desk, s': Desk, branch: Branch)
    requires Links(s) && Extends(s, s', branch)
    requires forall k | |s.journal| <= k < |s'.journal| :: Linked(s', s'.journal[k])
    ensures Links(s')
  {
    forall k | 0 <= k < |s'.journal| ensures Linked(s', s'.journal[k]) {
      if k < |s.journal| {
        assert s'.journal[k] == s.journal[k];
        assert Linked(s, s.journal[k]);
      }
    }
  }

  lemma RequestsExtend(s: Desk, s': Desk)
    requires RequestsOk(s) && s'.books.Keys == s.books.Keys
    requires forall i | 0 <= i < |s'.requests| ::
        (i < |s.requests| && s'.requests[i] == s.requests[i]) || RequestOk(s', s'.requests[i])
    ensures RequestsOk(s')
  {
    forall i | 0 <= i < |s'.requests| ensures RequestOk(s', s'.requests[i]) {
      if i < |s.requests| { assert RequestOk(s, s.requests[i]); }
    }
  }

  /** How the hidden numbers follow the requests: nothing changes, one request starts to wait, or one
      stops. */
  lemma AwaitingFollows(rs: seq<Request>, rs': seq<Request>, b: Branch, awaiting: set<string>, id: nat)
    requires AwaitingOk(rs, b, awaiting) && NumbersDistinct(rs')
    requires |rs| <= |rs'| <= |rs| + 1 && id < |rs'| && (id == |rs| || |rs'| == |rs|)
    requires forall i | 0 <= i < |rs| && i != id :: rs'[i] == rs[i]
    requires id < |rs| ==> rs'[id].no == rs[id].no && rs'[id].branch == rs[id].branch
    ensures AwaitingOk(rs', b, if rs'[id].branch != b then awaiting
                               else if rs'[id].AwaitsReceipt() then awaiting + {rs'[id].no}
                                   else awaiting - {rs'[id].no})
  {
    var awaiting' := if rs'[id].branch != b then awaiting
                     else if rs'[id].AwaitsReceipt() then awaiting + {rs'[id].no} else awaiting - {rs'[id].no};
    forall i | 0 <= i < |rs'| && rs'[i].branch == b && rs'[i].AwaitsReceipt() ensures rs'[i].no in awaiting' {
      if i != id {
        assert rs[i].no in awaiting;
        assert rs'[i].no != rs'[id].no;
      }
    }
    forall no | no in awaiting' ensures exists i :: WaitsAs(rs', b, no, i) {
      if rs'[id].branch == b && no == rs'[id].no {
        assert WaitsAs(rs', b, no, id);
      } else {
        var i :| WaitsAs(rs, b, no, i);
        assert WaitsAs(rs', b, no, i);
      }
    }
  }

  /** The hidden numbers of branch `b` after request `id` became `r`. */
  function HiddenAfter(awaiting: set<string>, b: Branch, r: Request): set<string> {
    if r.branch != b then awaiting else if r.AwaitsReceipt() then awaiting + {r.no} else awaiting - {r.no}
  }

  lemma AwaitsExtend(s: Desk, s': Desk, id: nat)
    requires Awaits(s) && NumbersDistinct(s'.requests) && s'.books.Keys == s.books.Keys
    requires |s.requests| <= |s'.requests| <= |s.requests| + 1 && id < |s'.requests|
        && (id == |s.requests| || |s'.requests| == |s.requests|)
    requires forall i | 0 <= i < |s.requests| && i != id :: s'.requests[i] == s.requests[i]
    requires id < |s.requests| ==>
        s'.requests[id].no == s.requests[id].no && s'.requests[id].branch == s.requests[id].branch
    requires forall b | b in s.books :: s'.books[b].awaiting == HiddenAfter(s.books[b].awaiting, b, s'.requests[id])
    ensures Awaits(s')
  {
    forall b | b in s'.books ensures AwaitingOk(s'.requests, b, s'.books[b].awaiting) {
      AwaitingFollows(s.requests, s'.requests, b, s.books[b].awaiting, id);
    }
  }

  /** Rows appended for request `id`, which is rewritten to match. */
  lemma ScriptsExtend(s: Desk, s': Desk, id: nat, written: seq<FundRow>)
    requires Scripts(s.requests, s.journal) && id < |s.requests| && |s'.requests| == |s.requests|
    requires s'.journal == s.journal + written && forall p | p in written :: p.request == id
    requires forall i | 0 <= i < |s.requests| && i != id :: s'.requests[i] == s.requests[i]
    requires Script(s'.requests[id]) == Script(s.requests[id]) + Live(written, id)
    ensures Scripts(s'.requests, s'.journal)
  {
    forall i | 0 <= i < |s'.requests| ensures Live(s'.journal, i) == Script(s'.requests[i]) {
      LiveConcat(s.journal, written, i);
      if i != id {
        LiveNone(written, i);
      }
    }
  }

  /** The hidden numbers already follow a request that is not rewritten. */
  lemma HiddenNow(s: Desk, id: nat, b: Branch)
    requires Awaits(s) && NumbersDistinct(s.requests) && id < |s.requests| && b in s.books
    ensures HiddenAfter(s.books[b].awaiting, b, s.requests[id]) == s.books[b].awaiting
  {
    var r := s.requests[id];
    assert AwaitingOk(s.requests, b, s.books[b].awaiting);
    if r.branch == b && r.no in s.books[b].awaiting {
      var i :| WaitsAs(s.requests, b, r.no, i);
      assert i == id;
    }
  }

  /** A new request, with no rows yet, whose branch may have started to hide its number. */
  lemma NewRequestKeepsTables(s: Desk, s': Desk, r: Request)
    requires Tables(s) && Extends(s, s', r.branch) && s'.requests == s.requests + [r] && s'.journal == s.journal
    requires forall i | 0 <= i < |s.requests| :: s.requests[i].no != r.no
    requires RequestOk(s', r) && Script(r) == []
    requires s'.books[r.branch].awaiting == s.books[r.branch].awaiting + (if r.AwaitsReceipt() then {r.no} else {})
    ensures Tables(s')
  {
    var n := |s.requests|;
    assert s'.requests[n] == r;
    LinksExtend(s, s', r.branch);
    RequestsExtend(s, s');
    assert AwaitingOk(s.requests, r.branch, s.books[r.branch].awaiting);
    assert r.no !in s.books[r.branch].awaiting;
    AwaitsExtend(s, s', n);
    forall p | p in s.journal ensures p.request != n {
      var k :| 0 <= k < |s.journal| && s.journal[k] == p;
      assert Linked(s, s.journal[k]);
    }
    LiveNone(s.journal, n);
  }

  lemma LinksWritten(s: Desk, s': Desk, branch: Branch, written: seq<FundRow>)
    requires Links(s) && Extends(s, s', branch)
    requires s'.journal == s.journal + written && forall p | p in written :: Linked(s', p)
    ensures Links(s')
  {
    forall k | |s.journal| <= k < |s'.journal| ensures Linked(s', s'.journal[k]) {
      assert s'.journal[k] == written[k - |s.journal|];
    }
    LinksExtend(s, s', branch);
  }

  /** One request rewritten, its rows appended, its branch's hidden numbers following. */
  lemma RewriteKeepsTables(s: Desk, s': Desk, id: nat, branch: Branch, written: seq<FundRow>)
    requires Tables(s) && Extends(s, s', branch) && id < |s.requests|
    requires |s'.requests| == |s.requests| && forall i | 0 <= i < |s.requests|
        && i != id :: s'.requests[i] == s.requests[i]
    requires RequestOk(s', s'.requests[id])
    requires s'.requests[id].no == s.requests[id].no && s'.requests[id].branch == s.requests[id].branch
    requires s'.journal == s.journal + written && forall p | p in written :: p.request == id && Linked(s', p)
    requires Script(s'.requests[id]) == Script(s.requests[id]) + Live(written, id)
    requires forall b | b in s.books :: s'.books[b].awaiting == HiddenAfter(s.books[b].awaiting, b, s'.requests[id])
    ensures Tables(s')
  {
    assert Links(s') by { LinksWritten(s, s', branch, written); }
    assert RequestsOk(s') by { RequestsExtend(s, s'); }
    assert NumbersDistinct(s'.requests) by { NumbersKept(s.requests, s'.requests, id); }
    assert Awaits(s') by { AwaitsExtend(s, s', id); }
    assert Scripts(s'.requests, s'.journal) by { ScriptsExtend(s, s', id, written); }
  }

  lemma NumbersKept(rs: seq<Request>, rs': seq<Request>, id: nat)
    requires NumbersDistinct(rs) && |rs'| == |rs| && id < |rs| && rs'[id].no == rs[id].no
    requires forall i | 0 <= i < |rs| && i != id :: rs'[i] == rs[i]
    ensures NumbersDistinct(rs')
  {
    forall i, j | 0 <= i < j < |rs'| ensures rs'[i].no != rs'[j].no {
      assert rs[i].no != rs[j].no;
    }
  }

  /** One book changed, one request rewritten, rows written: the desk of the action lemmas below. */
  function Revised(s: Desk, branch: Branch, b': Book, id: nat, r': Request, written: seq<FundRow>): Desk
    requires id < |s.requests|
  {
    Desk(s.requests[id := r'], s.books[branch := b'], s.journal + written)
  }

  /** The revision of a request whose waiting state stays as it is. */
  lemma QuietRevision(s: Desk, branch: Branch, b': Book, id: nat, r': Request, written: seq<FundRow>)
    requires Tables(s) && branch in s.books && id < |s.requests|
    requires RowsKept(s.books[branch], b') && b'.awaiting == s.books[branch].awaiting
    requires RequestOk(s, r') && r'.no == s.requests[id].no && r'.branch == s.requests[id].branch
    requires r'.AwaitsReceipt() == s.requests[id].AwaitsReceipt()
    requires forall p | p in written :: p.request == id && Linked(Revised(s, branch, b', id, r', written), p)
    requires Script(r') == Script(s.requests[id]) + Live(written, id)
    ensures Tables(Revised(s, branch, b', id, r', written))
  {
    var s' := Revised(s, branch, b', id, r', written);
    forall b | b in s.books ensures s'.books[b].awaiting == HiddenAfter(s.books[b].awaiting, b, r') {
      HiddenNow(s, id, b);
    }
    RewriteKeepsTables(s, s', id, branch, written);
  }

  /** The revision of a request that starts or stops waiting at `branch`. */
  lemma WaitingRevision(s: Desk, branch: Branch, b': Book, id: nat, r': Request, written: seq<FundRow>)
    requires Tables(s) && branch in s.books && id < |s.requests|
    requires RowsKept(s.books[branch], b') && branch == s.requests[id].branch == r'.branch
    requires b'.awaiting == HiddenAfter(s.books[branch].awaiting, branch, r')
    requires RequestOk(s, r') && r'.no == s.requests[id].no
    requires forall p | p in written :: p.request == id && Linked(Revised(s, branch, b', id, r', written), p)
    requires Script(r') == Script(s.requests[id]) + Live(written, id)
    ensures Tables(Revised(s, branch, b', id, r', written))
  {
    RewriteKeepsTables(s, Revised(s, branch, b', id, r', written), id, branch, written);
  }

  /* ---------- each action ---------- */

  /** A branch's own events leave the desk's tables alone. */
  lemma EventTables(s: Desk, b': Book, branch: Branch)
    requires Tables(s) && branch in s.books && RowsKept(s.books[branch], b') && b'.awaiting == s.books[branch].awaiting
    ensures Tables(s.(books := s.books[branch := b']))
  {
    var s' := s.(books := s.books[branch := b']);
    LinksExtend(s, s', branch);
    RequestsExtend(s, s');
  }

  lemma BranchEventKeepsInv(s: Desk, strict: bool, t: Tick, branch: Branch, step: Step)
    requires DeskInv(s, strict) && branch in s.books && !IsFundStep(step) && Admissible(s.books[branch], t, step)
    ensures DeskInv(OnBook(s, strict, branch, t, step), strict)
  {
    OnBookKeepsBooks(s, strict, branch, t, step);
    EventTables(s, Next(s.books[branch], strict, t, step), branch);
  }

  lemma PlainRewriteTables(s: Desk, id: nat, r: Request)
    requires Tables(s) && id < |s.requests| && RequestOk(s, r)
    requires r.no == s.requests[id].no && r.branch == s.requests[id].branch
        && r.AwaitsReceipt() == s.requests[id].AwaitsReceipt()
    requires Script(r) == Script(s.requests[id])
    ensures Tables(WithRequest(s, id, r))
  {
    assert Script(r) == Script(s.requests[id]) + Live([], id);
    QuietRevision(s, r.branch, s.books[r.branch], id, r, []);
    assert s.journal + [] == s.journal && s.books[r.branch := s.books[r.branch]] == s.books;
  }

  lemma PlainRewriteKeepsInv(s: Desk, strict: bool, id: nat, r: Request)
    requires DeskInv(s, strict) && id < |s.requests| && RequestOk(s, r)
    requires r.no == s.requests[id].no && r.branch == s.requests[id].branch
        && r.AwaitsReceipt() == s.requests[id].AwaitsReceipt()
    requires Script(r) == Script(s.requests[id])
    ensures DeskInv(WithRequest(s, id, r), strict)
  {
    PlainRewriteTables(s, id, r);
  }

  lemma CreateKeepsInv(s: Desk, strict: bool, no: string, branch: Branch, amount: nat, expense: bool)
    requires DeskInv(s, strict) && no != "" && forall i | 0 <= i < |s.requests| :: s.requests[i].no != no
    requires Create(s, no, branch, amount, expense).Some?
    ensures DeskInv(Create(s, no, branch, amount, expense).value, strict)
  {
    var s' := Create(s, no, branch, amount, expense).value;
    NewRequestKeepsTables(s, s', s'.requests[|s.requests|]);
  }

  lemma ReleaseHides(b: Book, strict: bool, t: Tick, no: string)
    ensures Next(b, strict, t, ReleaseRequest(no)).awaiting == b.awaiting + {no}
  {
  }

  lemma DirectTables(s: Desk, b': Book, r: Request)
    requires Tables(s) && r.branch in s.books && RowsKept(s.books[r.branch], b')
        && b'.awaiting == s.books[r.branch].awaiting + {r.no}
    requires forall i | 0 <= i < |s.requests| :: s.requests[i].no != r.no
    requires RequestOk(s, r) && r.AwaitsReceipt() && (r.status.PendingConfirmation? ==> r.source.None?)
    ensures Tables(Desk(s.requests + [r], s.books[r.branch := b'], s.journal))
  {
    NewRequestKeepsTables(s, Desk(s.requests + [r], s.books[r.branch := b'], s.journal), r);
  }

  lemma DirectKeepsInv(s: Desk, strict: bool, t: Tick, no: string, from: Option<Branch>, branch: Branch, amount: nat,
                       expense: bool, reference: string)
    requires DeskInv(s, strict) && no != "" && (forall i | 0 <= i < |s.requests| :: s.requests[i].no != no)
    requires branch in s.books ==> Admissible(s.books[branch], t, ReleaseRequest(no))
    requires CreateDirect(s, strict, t, no, from, branch, amount, expense, reference).Some?
    ensures DeskInv(CreateDirect(s, strict, t, no, from, branch, amount, expense, reference).value, strict)
  {
    var s' := CreateDirect(s, strict, t, no, from, branch, amount, expense, reference).value;
    OnBookKeepsBooks(s, strict, branch, t, ReleaseRequest(no));
    ReleaseHides(s.books[branch], strict, t, no);
    DirectTables(s, s'.books[branch], s'.requests[|s.requests|]);
    assert s' == Desk(s.requests + [s'.requests[|s.requests|]], s.books[branch := s'.books[branch]], s.journal);
  }

  lemma TransferTables(s: Desk, b': Book, id: nat, r': Request)
    requires Tables(s) && id < |s.requests| && s.requests[id].status.Approved? && s.requests[id].branch in s.books
    requires r'.no == s.requests[id].no && r'.branch == s.requests[id].branch && RequestOk(s, r')
    requires RowsKept(s.books[r'.branch], b') && b'.awaiting == s.books[r'.branch].awaiting + {r'.no}
    requires r'.status == if r'.source.Some? then PendingSource else PendingConfirmation
    ensures Tables(Desk(s.requests[id := r'], s.books[r'.branch := b'], s.journal))
  {
    WaitingRevision(s, r'.branch, b', id, r', []);
    assert s.journal + [] == s.journal;
  }

  /** A release starts the wait for receipt and moves no cash. */
  lemma TransferKeepsInv(s: Desk, strict: bool, t: Tick, id: nat, source: Option<Branch>, amount: Option<nat>,
                         reference: string)
    requires DeskInv(s, strict) && id < |s.requests|
    requires s.requests[id].branch in s.books
        ==> Admissible(s.books[s.requests[id].branch], t, ReleaseRequest(s.requests[id].no))
    requires Transfer(s, strict, t, id, source, amount, reference).Some?
    ensures DeskInv(Transfer(s, strict, t, id, source, amount, reference).value, strict)
  {
    var s' := Transfer(s, strict, t, id, source, amount, reference).value;
    var r := s.requests[id];
    assert RequestOk(s, r);
    OnBookKeepsBooks(s, strict, r.branch, t, ReleaseRequest(r.no));
    ReleaseHides(s.books[r.branch], strict, t, r.no);
    TransferTables(s, s'.books[r.branch], id, s'.requests[id]);
  }

  lemma DebitRow(r: Request, r': Request, p: FundRow, id: nat)
    requires r.status.PendingSource? && r.source.Some? && r'.sent.Some? && r'.source == r.source
    requires r'.status.PendingConfirmation? && p == FundRow(id, SourceOut, r.source, p.row, 0, r'.sent.value, false)
    ensures Script(r') == Script(r) + Live([p], id)
  {
    LiveOne(p, id);
    assert Script(r) == [] && Script(r') == [LegOf(p)];
  }

  lemma DebitTables(s: Desk, source: Branch, b': Book, id: nat, amount: nat, at: int)
    requires Tables(s) && id < |s.requests| && s.requests[id].status.PendingSource?
        && s.requests[id].source == Some(source)
    requires RowsKept(s.books[source], b') && b'.awaiting == s.books[source].awaiting
    requires |b'.rows| > |s.books[source].rows|
    requires var r := b'.rows[|s.books[source].rows|];
        r.purpose == FundTransfer && r.cashIn == 0 && r.cashOut == amount && !r.voided
    requires 0 < amount <= s.requests[id].requested
    ensures var r' := s.requests[id].(status := PendingConfirmation, sent := Some(amount),
        sourceConfirmedAt := Some(at));
      Tables(Revised(s, source, b', id, r', [FundRow(id, SourceOut, Some(source), |s.books[source].rows|, 0, amount,
          false)]))
  {
    var r := s.requests[id];
    assert RequestOk(s, r);
    var r' := r.(status := PendingConfirmation, sent := Some(amount), sourceConfirmedAt := Some(at));
    var p := FundRow(id, SourceOut, Some(source), |s.books[source].rows|, 0, amount, false);
    DebitRow(r, r', p, id);
    QuietRevision(s, source, b', id, r', [p]);
  }

  /** A source confirmation that passes its checks always completes: the debit is never refused. */
  lemma SourceConfirmKeepsInv(s: Desk, strict: bool, t: Tick, id: nat, sum: Option<nat>)
    requires DeskInv(s, strict) && id < |s.requests| && forall b | b in s.books :: Ticks(s.books[b], t)
    requires SourceConfirm(s, strict, t, id, sum).Some?
    ensures DeskInv(SourceConfirm(s, strict, t, id, sum).value, strict)
    ensures SourceConfirm(s, strict, t, id, sum).value.requests[id].status.PendingConfirmation?
  {
    var r := s.requests[id];
    assert RequestOk(s, r) && r.status.PendingSource?;
    var source := r.source.value;
    var amount := if sum.Some? then sum.value else r.ReleasedAmount();
    var step := SendFunds(r.Code(), amount);
    SendNeverStrandsRow(s.books[source], strict, t, r.Code(), amount);
    OnBookKeepsBooks(s, strict, source, t, step);
    FundStepRow(s.books[source], strict, t, step);
    var s' := SourceConfirm(s, strict, t, id, sum).value;
    DebitTables(s, source, s'.books[source], id, amount, t.now);
  }

  /** Voided rows are no part of any script. */
  lemma VoidedIsSilent(ps: seq<FundRow>, id: nat)
    ensures Live(Voided(ps), id) == []
  {
    LiveNone(Voided(ps), id);
  }

  /** A failed receipt: the request as it was, its rows voided. */
  lemma FailedTables(s: Desk, b': Book, id: nat, written: seq<FundRow>)
    requires Tables(s) && id < |s.requests| && s.requests[id].branch in s.books
    requires var branch := s.requests[id].branch;
      RowsKept(s.books[branch], b') && b'.awaiting == s.books[branch].awaiting
      && forall p | p in Voided(written) :: p.request == id
          && Linked(Revised(s, branch, b', id, s.requests[id], Voided(written)), p)
    ensures Tables(Revised(s, s.requests[id].branch, b', id, s.requests[id], Voided(written)))
  {
    VoidedIsSilent(written, id);
    assert RequestOk(s, s.requests[id]);
    QuietRevision(s, s.requests[id].branch, b', id, s.requests[id], Voided(written));
  }

  /** The last row of `b'` is the arrival row of request `id` with the given void flag. */
  predicate ArrivalWritten(s: Desk, b': Book, id: nat, amount: nat, voided: bool)
    requires id < |s.requests| && s.requests[id].branch in s.books
  {
    var b := s.books[s.requests[id].branch];
    var p := ArrivalPosting(s, id, amount);
    |b'.rows| > |b.rows| && b'.rows[|b.rows|].purpose == FundTransfer && b'.rows[|b.rows|].cashIn == p.cashIn
    && b'.rows[|b.rows|].cashOut == p.cashOut && b'.rows[|b.rows|].voided == voided
  }

  /** The rows a confirmation of request `id` writes. */
  function ReceiptWritten(s: Desk, id: nat, amount: nat): seq<FundRow>
    requires id < |s.requests| && s.requests[id].branch in s.books
  {
    OwnerLeg(s.requests[id], id, amount) + [ArrivalPosting(s, id, amount)]
  }

  lemma WrittenLinked(s: Desk, b': Book, id: nat, amount: nat, r': Request, voided: bool)
    requires id < |s.requests| && s.requests[id].branch in s.books && ArrivalWritten(s, b', id, amount, voided)
    ensures var written := if voided then Voided(ReceiptWritten(s, id, amount)) else ReceiptWritten(s, id, amount);
      forall p | p in written :: p.request == id && Linked(Revised(s, s.requests[id].branch, b', id, r', written), p)
  {
    var written := if voided then Voided(ReceiptWritten(s, id, amount)) else ReceiptWritten(s, id, amount);
    forall p | p in written ensures p.request == id
        && Linked(Revised(s, s.requests[id].branch, b', id, r', written), p) {
      var k :| 0 <= k < |written| && written[k] == p;
      assert p == ReceiptWritten(s, id, amount)[k].(voided := voided);
    }
  }

  lemma ArrivalFailureKeepsInv(s: Desk, strict: bool, id: nat, amount: nat)
    requires DeskInv(s, strict) && id < |s.requests| && s.requests[id].branch in s.books
    ensures DeskInv(s.(journal := s.journal + Voided(OwnerLeg(s.requests[id], id, amount))), strict)
  {
    var r := s.requests[id];
    FailedTables(s, s.books[r.branch], id, OwnerLeg(r, id, amount));
    assert s.(journal := s.journal + Voided(OwnerLeg(r, id, amount)))
        == Revised(s, r.branch, s.books[r.branch], id, r, Voided(OwnerLeg(r, id, amount)));
  }

  lemma LateFailureKeepsInv(s: Desk, strict: bool, t: Tick, id: nat, amount: nat, balanceWritten: bool)
    requires DeskInv(s, strict) && id < |s.requests| && s.requests[id].branch in s.books
        && Ticks(s.books[s.requests[id].branch], t) && amount > 0
    ensures var r := s.requests[id];
      DeskInv(OnBook(s, strict, r.branch, t, ReceiveFailed(r.Code(), amount, r.expense,
          balanceWritten)).(journal := s.journal + Voided(ReceiptWritten(s, id, amount))), strict)
  {
    var r := s.requests[id];
    var step := ReceiveFailed(r.Code(), amount, r.expense, balanceWritten);
    OnBookKeepsBooks(s, strict, r.branch, t, step);
    FundStepRow(s.books[r.branch], strict, t, step);
    var b' := Next(s.books[r.branch], strict, t, step);
    WrittenLinked(s, b', id, amount, r, true);
    FailedTables(s, b', id, ReceiptWritten(s, id, amount));
    assert s.requests[id := r] == s.requests;
  }

  /** What a failed confirmation may leave behind. */
  lemma FailedConfirmForms(s: Desk, strict: bool, t: Tick, id: nat, received: Option<nat>, failure: Failure)
    requires id < |s.requests| && !Confirm(s, strict, t, id, received, failure).1
    ensures var (s', r) := (Confirm(s, strict, t, id, received, failure).0, s.requests[id]);
      s' == s
      || (&& Receivable(s, id, received).Some?
          && var amount := Receivable(s, id, received).value;
             s' == s.(journal := s.journal + Voided(OwnerLeg(r, id, amount)))
             || s' == OnBook(s, strict, r.branch, t, ReceiveFailed(r.Code(), amount, r.expense, !failure.AtBalance?))
                        .(journal := s.journal + Voided(ReceiptWritten(s, id, amount))))
  {
  }

  /** A confirmation that fails leaves at most voided rows, and every request as it was. */
  lemma FailedConfirmKeepsInv(s: Desk, strict: bool, t: Tick, id: nat, received: Option<nat>, failure: Failure)
    requires DeskInv(s, strict) && id < |s.requests| && forall b | b in s.books :: Ticks(s.books[b], t)
    requires !Confirm(s, strict, t, id, received, failure).1
    ensures DeskInv(Confirm(s, strict, t, id, received, failure).0, strict)
  {
    FailedConfirmForms(s, strict, t, id, received, failure);
    var s' := Confirm(s, strict, t, id, received, failure).0;
    if s' != s {
      var amount := Receivable(s, id, received).value;
      if s' == s.(journal := s.journal + Voided(OwnerLeg(s.requests[id], id, amount))) {
        ArrivalFailureKeepsInv(s, strict, id, amount);
      } else {
        LateFailureKeepsInv(s, strict, t, id, amount, !failure.AtBalance?);
      }
    }
  }

  lemma ReceiptRows(s: Desk, id: nat, amount: nat)
    requires id < |s.requests| && s.requests[id].branch in s.books
    ensures var r := s.requests[id];
      Live(OwnerLeg(r, id, amount) + [ArrivalPosting(s, id, amount)], id)
          == ReceiptScript(r.(status := Transferred, confirmed := Some(amount)))
  {
    var r := s.requests[id];
    var arrival := ArrivalPosting(s, id, amount);
    if OwnerLeg(r, id, amount) == [] {
      assert [] + [arrival] == [arrival];
      LiveOne(arrival, id);
    } else {
      assert [OwnerPosting(id, amount)] + [arrival] == [OwnerPosting(id, amount), arrival];
      LiveTwo(OwnerPosting(id, amount), arrival);
    }
  }

  lemma ReceivedTables(s: Desk, b': Book, id: nat, amount: nat, at: int)
    requires Tables(s) && id < |s.requests| && s.requests[id].status.PendingConfirmation?
        && s.requests[id].branch in s.books
    requires 0 < amount <= s.requests[id].ReleasedAmount()
    requires RowsKept(s.books[s.requests[id].branch], b')
        && b'.awaiting == s.books[s.requests[id].branch].awaiting - {s.requests[id].no}
    requires ArrivalWritten(s, b', id, amount, false)
    ensures var r' := s.requests[id].(status := Transferred, confirmedAt := Some(at), confirmed := Some(amount));
      Tables(Revised(s, r'.branch, b', id, r', ReceiptWritten(s, id, amount)))
  {
    var r := s.requests[id];
    assert RequestOk(s, r);
    var r' := r.(status := Transferred, confirmedAt := Some(at), confirmed := Some(amount));
    ReceiptRows(s, id, amount);
    WrittenLinked(s, b', id, amount, r', false);
    assert ReceiptScript(r) == [] && DebitScript(r') == DebitScript(r);
    assert Script(r') == Script(r) + Live(ReceiptWritten(s, id, amount), id);
    WaitingRevision(s, r.branch, b', id, r', ReceiptWritten(s, id, amount));
  }

  /** What a received confirmation leaves behind. */
  lemma ReceivedConfirmForm(s: Desk, strict: bool, t: Tick, id: nat, received: Option<nat>, failure: Failure)
    requires id < |s.requests| && Confirm(s, strict, t, id, received, failure).1
    ensures Receivable(s, id, received).Some? && IsPendingConfirmation(s.requests[id])
    ensures var (r, amount) := (s.requests[id], Receivable(s, id, received).value);
      var step := ReceiveFunds(r.no, r.Code(), amount, r.expense);
      && CashAccepted(s, strict, t, id, amount)
      && Confirm(s, strict, t, id, received, failure).0
         == Revised(s, r.branch, Next(s.books[r.branch], strict, t, step), id,
                    r.(status := Transferred, confirmedAt := Some(t.now), confirmed := Some(amount)),
                        ReceiptWritten(s, id, amount))
  {
  }

  /** The book of the destination after a receipt. */
  lemma ReceivedBook(b: Book, strict: bool, t: Tick, no: string, code: string, amount: nat, expense: bool)
    requires Inv(b, strict) && Admissible(b, t, ReceiveFunds(no, code, amount, expense))
        && ReceiveCash(b, strict, t, code, amount, expense).1
    ensures var b' := Next(b, strict, t, ReceiveFunds(no, code, amount, expense));
      Inv(b', strict) && RowsKept(b, b') && b'.awaiting == b.awaiting - {no}
          && b'.rows == b.rows + [TransferRow(t, code, amount, !expense)]
  {
    var step := ReceiveFunds(no, code, amount, expense);
    StepKeepsInv(b, strict, t, step);
    StepKeepsRows(b, strict, t, step);
    FundStepRow(b, strict, t, step);
  }

  lemma ReceivedConfirmKeepsInv(s: Desk, strict: bool, t: Tick, id: nat, received: Option<nat>, failure: Failure)
    requires DeskInv(s, strict) && id < |s.requests| && (forall b | b in s.books :: Ticks(s.books[b], t))
    requires s.requests[id].branch in s.books ==>
      s.requests[id].Code() !in s.books[s.requests[id].branch].awaiting - {s.requests[id].no}
    requires Confirm(s, strict, t, id, received, failure).1
    ensures DeskInv(Confirm(s, strict, t, id, received, failure).0, strict)
  {
    var r := s.requests[id];
    assert RequestOk(s, r);
    ReceivedConfirmForm(s, strict, t, id, received, failure);
    var amount := Receivable(s, id, received).value;
    ReceivedBook(s.books[r.branch], strict, t, r.no, r.Code(), amount, r.expense);
    ReceivedTables(s, Next(s.books[r.branch], strict, t, ReceiveFunds(r.no, r.Code(), amount, r.expense)), id, amount,
        t.now);
  }

  lemma ReviewKeepsInv(s: Desk, strict: bool, id: nat, approve: bool, granted: Option<nat>)
    requires DeskInv(s, strict) && id < |s.requests| && Review(s, id, approve, granted).Some?
    ensures DeskInv(Review(s, id, approve, granted).value, strict)
  {
    assert RequestOk(s, s.requests[id]);
    PlainRewriteKeepsInv(s, strict, id, Review(s, id, approve, granted).value.requests[id]);
  }

  lemma CancelKeepsInv(s: Desk, strict: bool, id: nat)
    requires DeskInv(s, strict) && id < |s.requests| && Cancel(s, id).Some?
    ensures DeskInv(Cancel(s, id).value, strict)
  {
    assert RequestOk(s, s.requests[id]);
    PlainRewriteKeepsInv(s, strict, id, Cancel(s, id).value.requests[id]);
  }

  lemma RequestActKeepsInv(s: Desk, strict: bool, t: Tick, a: Action)
    requires DeskInv(s, strict) && Allowed(s, t, a) && (a.DoCreate? || a.DoReview? || a.DoCancel?)
    ensures DeskInv(Act(s, strict, t, a), strict)
  {
    match a
    case DoCreate(no, branch, amount, expense) =>
      if Create(s, no, branch, amount, expense).Some? { CreateKeepsInv(s, strict, no, branch, amount, expense); }
    case DoReview(id, approve, granted) =>
      if id < |s.requests| && Review(s, id, approve, granted).Some? { ReviewKeepsInv(s, strict, id, approve, granted); }
    case DoCancel(id) =>
      if id < |s.requests| && Cancel(s, id).Some? { CancelKeepsInv(s, strict, id); }
  }

  lemma DirectActKeepsInv(s: Desk, strict: bool, t: Tick, a: Action)
    requires DeskInv(s, strict) && Allowed(s, t, a) && a.DoDirect?
    ensures DeskInv(Act(s, strict, t, a), strict)
  {
    if CreateDirect(s, strict, t, a.no, a.from, a.branch, a.amount, a.expense, a.reference).Some? {
      DirectKeepsInv(s, strict, t, a.no, a.from, a.branch, a.amount, a.expense, a.reference);
    }
  }

  lemma TransferActKeepsInv(s: Desk, strict: bool, t: Tick, a: Action)
    requires DeskInv(s, strict) && Allowed(s, t, a) && a.DoTransfer?
    ensures DeskInv(Act(s, strict, t, a), strict)
  {
    if a.id < |s.requests| && Transfer(s, strict, t, a.id, a.from, a.sum, a.reference).Some? {
      TransferKeepsInv(s, strict, t, a.id, a.from, a.sum, a.reference);
    }
  }

  lemma SourceActKeepsInv(s: Desk, strict: bool, t: Tick, a: Action)
    requires DeskInv(s, strict) && Allowed(s, t, a) && a.DoSourceConfirm?
    ensures DeskInv(Act(s, strict, t, a), strict)
  {
    if a.id < |s.requests| && SourceConfirm(s, strict, t, a.id, a.sum).Some? {
      SourceConfirmKeepsInv(s, strict, t, a.id, a.sum);
    }
  }

  lemma ConfirmActKeepsInv(s: Desk, strict: bool, t: Tick, a: Action)
    requires DeskInv(s, strict) && Allowed(s, t, a) && a.DoConfirm?
    ensures DeskInv(Act(s, strict, t, a), strict)
  {
    if a.id < |s.requests| {
      if Confirm(s, strict, t, a.id, a.sum, a.failure).1 {
        ReceivedConfirmKeepsInv(s, strict, t, a.id, a.sum, a.failure);
      }
      else { FailedConfirmKeepsInv(s, strict, t, a.id, a.sum, a.failure); }
    }
  }

  lemma EventKeepsInv(s: Desk, strict: bool, t: Tick, a: Action)
    requires DeskInv(s, strict) && Allowed(s, t, a) && a.BranchEvent?
    ensures DeskInv(Act(s, strict, t, a), strict)
  {
    if a.branch in s.books && !IsFundStep(a.step) { BranchEventKeepsInv(s, strict, t, a.branch, a.step); }
  }

  /** Every action keeps the invariant. */
  lemma ActKeepsInv(s: Desk, strict: bool, t: Tick, a: Action)
    requires DeskInv(s, strict) && Allowed(s, t, a)
    ensures DeskInv(Act(s, strict, t, a), strict)
  {
    match a
    case DoDirect(_, _, _, _, _, _) => DirectActKeepsInv(s, strict, t, a);
    case DoTransfer(_, _, _, _) => TransferActKeepsInv(s, strict, t, a);
    case DoSourceConfirm(_, _) => SourceActKeepsInv(s, strict, t, a);
    case DoConfirm(_, _, _) => ConfirmActKeepsInv(s, strict, t, a);
    case BranchEvent(_, _) => EventKeepsInv(s, strict, t, a);
    case _ => RequestActKeepsInv(s, strict, t, a);
  }

  lemma {:induction false} RunKeepsDeskInv(s: Desk, strict: bool, trace: seq<(Tick, Action)>)
    requires DeskInv(s, strict) && AllowedRun(s, strict, trace)
    ensures DeskInv(RunDesk(s, strict, trace), strict)
  {
    if trace != [] {
      var n := |trace| - 1;
      LastAct(s, strict, trace);
      RunKeepsDeskInv(s, strict, trace[..n]);
      ActKeepsInv(RunDesk(s, strict, trace[..n]), strict, trace[n].0, trace[n].1);
    }
  }

  lemma FreshDeskInv(s: Desk, strict: bool)
    requires FreshDesk(s)
    ensures DeskInv(s, strict)
  {
    forall b | b in s.books ensures Inv(s.books[b], strict) {
      assert Fresh(s.books[b]);
    }
  }

  lemma ReachableDeskInv(s: Desk, strict: bool)
    requires ReachableDesk(s, strict)
    ensures DeskInv(s, strict)
  {
    var s0, trace :| FreshDesk(s0) && AllowedRun(s0, strict, trace) && s == RunDesk(s0, strict, trace);
    FreshDeskInv(s0, strict);
    RunKeepsDeskInv(s0, strict, trace);
  }
}
