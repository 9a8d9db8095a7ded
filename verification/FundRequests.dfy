/** The fund-transfer protocol between branches: requests, the rows it writes into the branches'
    books, and the journal that says which row belongs to which request.  A request's id is its
    position in the table. */
module FundRequests {
  import opened Options
  import opened Ledger
  import opened LedgerRuns

  type Branch = string

  datatype Status = Waiting | Approved | PendingSource | PendingConfirmation | Transferred | Rejected | Cancelled

  /** A `fund_requests` row.  `expense`: the purpose contains "expense".  `reference`: the transfer
      reference, empty when none was given. */
  datatype Request = Request(no: string, branch: Branch, requested: nat, expense: bool, status: Status,
      approved: Option<nat>,
                             sent: Option<nat>, transferredAt: Option<int>, source: Option<Branch>, reference: string,
                             sourceConfirmedAt: Option<int>, confirmedAt: Option<int>, confirmed: Option<nat>)
  {
    predicate Routed() { source.Some? }

    predicate AwaitsReceipt() { status.PendingSource? || status.PendingConfirmation? }

    predicate Terminal() { status.Transferred? || status.Rejected? || status.Cancelled? }

    /** What the rows of this request carry as their reference. */
    function Code(): string { if reference != "" then reference else no }

    /** Released amount, with the fallbacks for rows that never stored one. */
    function ReleasedAmount(): nat {
      if sent.Some? then sent.value else if approved.Some? then approved.value else requested
    }
  }

  datatype Kind = SourceOut | OwnerOut | Arrival

  /** A fund-transfer row: the request it was written for, and its place, row `row` of the book of
      `branch`; head-office rows belong to no branch. */
  datatype FundRow = FundRow(request: nat, kind: Kind, branch: Option<Branch>, row: nat, cashIn: nat, cashOut: nat,
      voided: bool)

  datatype Desk = Desk(requests: seq<Request>, books: map<Branch, Book>, journal: seq<FundRow>)

  /* ---------- the pending-row predicates ---------- */

  predicate IsPendingConfirmation(r: Request) {
    r.status.PendingConfirmation?
    || (r.status.Approved? && r.transferredAt.Some? && r.sent.Some? && r.confirmedAt.None?)
  }

  predicate IsPendingSourceConfirmation(r: Request) {
    if r.status.PendingSource? then r.source.Some?
    else r.status.Approved? && r.source.Some? && r.transferredAt.Some? && r.sourceConfirmedAt.None?
  }

  /* ---------- operations ---------- */

  function WithRequest(s: Desk, id: nat, r: Request): Desk
    requires id < |s.requests|
  {
    s.(requests := s.requests[id := r])
  }

  /** One step on the book of `branch`. */
  ghost function OnBook(s: Desk, strict: bool, branch: Branch, t: Tick, step: Step): Desk
    requires branch in s.books
  {
    s.(books := s.books[branch := Next(s.books[branch], strict, t, step)])
  }

  /** A branch asks for funds. */
  function Create(s: Desk, no: string, branch: Branch, amount: nat, expense: bool): Option<Desk> {
    if branch !in s.books || amount == 0 then None
    else Some(s.(requests := s.requests + [Request(no, branch, amount, expense, Waiting, None, None, None, None, "",
        None, None, None)]))
  }

  /** Enough cash at the source, when there is one; the source is another branch. */
  ghost predicate SourceUsable(s: Desk, source: Option<Branch>, destination: Branch, amount: nat, today: int) {
    source.Some? ==>
      && source.value in s.books && source.value != destination
      && LatestBalance(s.books[source.value], today) >= amount
  }

  /** A super admin sends funds without a request. */
  ghost function CreateDirect(s: Desk, strict: bool, t: Tick, no: string, source: Option<Branch>, branch: Branch,
                              amount: nat,
                              expense: bool, reference: string): Option<Desk> {
    if branch !in s.books || amount == 0 || !SourceUsable(s, source, branch, amount, t.today) then None
    else
      var r := Request(no, branch, amount, expense, if source.Some? then PendingSource else PendingConfirmation,
          Some(amount),
                       Some(amount), Some(t.now), source, reference, None, None, None);
      Some(OnBook(s, strict, branch, t, ReleaseRequest(no)).(requests := s.requests + [r]))
  }

  /** Approve, for at most the requested amount, or reject. */
  function Review(s: Desk, id: nat, approve: bool, amount: Option<nat>): Option<Desk>
    requires id < |s.requests|
  {
    var r := s.requests[id];
    var granted := if amount.Some? then amount.value else r.requested;
    if !r.status.Waiting? then None
    else if !approve then Some(WithRequest(s, id, r.(status := Rejected, approved := None)))
    else if granted == 0 || granted > r.requested then None
    else Some(WithRequest(s, id, r.(status := Approved, approved := Some(granted))))
  }

  /** Release an approved request, from head office or through a source branch. */
  ghost function Transfer(s: Desk, strict: bool, t: Tick, id: nat, source: Option<Branch>, amount: Option<nat>,
                          reference: string): Option<Desk>
    requires id < |s.requests|
  {
    var r := s.requests[id];
    var from := if source.Some? then source else r.source;
    var sum := if amount.Some? then amount.value else if r.approved.Some? then r.approved.value else r.requested;
    if !r.status.Approved? || r.branch !in s.books || sum == 0 || sum > r.requested
        || !SourceUsable(s, from, r.branch, sum, t.today) then None
    else
      var r' := r.(status := if from.Some? then PendingSource else PendingConfirmation,
                   approved := if r.approved.Some? then r.approved else Some(sum),
                   sent := Some(sum), transferredAt := Some(t.now), source := from, reference := reference);
      Some(WithRequest(OnBook(s, strict, r.branch, t, ReleaseRequest(r.no)), id, r'))
  }

  /** Whether the source's balance accepts the debit, once its row is written. */
  ghost predicate DebitAccepted(b: Book, strict: bool, t: Tick, code: string, amount: nat) {
    var r := TransferRow(t, code, amount, false);
    ApplyNetChange(AddRow(b, r), strict, t.today, r.Cash(), true).Done?
  }

  /** The source branch hands the cash over: row, balance, then the request.  Nothing compensates a
      refused debit: its row would stay and the request would not move. */
  ghost function SourceConfirm(s: Desk, strict: bool, t: Tick, id: nat, sentAmount: Option<nat>): Option<Desk>
    requires id < |s.requests|
  {
    var r := s.requests[id];
    var amount := if sentAmount.Some? then sentAmount.value else r.ReleasedAmount();
    if r.source.None? || !IsPendingSourceConfirmation(r) || r.source.value !in s.books || r.branch !in s.books
        || amount == 0
       || amount > r.ReleasedAmount() || LatestBalance(s.books[r.source.value], t.today) < amount then None
    else
      var source := r.source.value;
      var p := FundRow(id, SourceOut, Some(source), |s.books[source].rows|, 0, amount, false);
      var s' := OnBook(s, strict, source, t, SendFunds(r.Code(), amount)).(journal := s.journal + [p]);
      if !DebitAccepted(s.books[source], strict, t, r.Code(), amount) then Some(s')
      else Some(WithRequest(s', id, r.(status := PendingConfirmation, sent := Some(amount),
          sourceConfirmedAt := Some(t.now))))
  }

  /** Where a confirmation may fail: at one of its writes, or nowhere. */
  datatype Failure = AtOwnerOut | AtArrival | AtBalance | AtStatus | Nowhere

  /** What a confirmation would store: refusal, or the received amount. */
  function Receivable(s: Desk, id: nat, received: Option<nat>): Option<nat>
    requires id < |s.requests|
  {
    var r := s.requests[id];
    var amount := if received.Some? then received.value else r.ReleasedAmount();
    if !IsPendingConfirmation(r) || r.branch !in s.books || amount == 0
        || amount > r.ReleasedAmount() then None else Some(amount)
  }

  function OwnerPosting(id: nat, amount: nat): FundRow { FundRow(id, OwnerOut, None, 0, 0, amount, false) }

  function ArrivalPosting(s: Desk, id: nat, amount: nat): FundRow
    requires id < |s.requests| && s.requests[id].branch in s.books
  {
    var r := s.requests[id];
    FundRow(id, Arrival, Some(r.branch), |s.books[r.branch].rows|, if r.expense then 0 else amount,
        if r.expense then amount else 0, false)
  }

  function OwnerLeg(r: Request, id: nat, amount: nat): seq<FundRow> {
    if r.Routed() || r.expense then [] else [OwnerPosting(id, amount)]
  }

  function Voided(ps: seq<FundRow>): seq<FundRow> { seq(|ps|, i requires 0 <= i < |ps| => ps[i].(voided := true)) }

  /** Whether the balance change of a confirmation is accepted. */
  ghost predicate CashAccepted(s: Desk, strict: bool, t: Tick, id: nat, amount: nat)
    requires id < |s.requests| && s.requests[id].branch in s.books
  {
    ReceiveCash(s.books[s.requests[id].branch], strict, t, s.requests[id].Code(), amount, s.requests[id].expense).1
  }

  /** The destination confirms receipt; `failure` says which write fails.  The rows written before a
      failure stay in the tables, voided.  The flag tells whether the funds were received. */
  ghost function Confirm(s: Desk, strict: bool, t: Tick, id: nat, received: Option<nat>, failure: Failure): (Desk, bool)
    requires id < |s.requests|
  {
    var r := s.requests[id];
    var receivable := Receivable(s, id, received);
    if r.status.Transferred? || receivable.None? then (s, false)
    else
      var amount := receivable.value;
      var owner := OwnerLeg(r, id, amount);
      var written := owner + [ArrivalPosting(s, id, amount)];
      if failure.AtOwnerOut? && owner != [] then (s, false)
      else if failure.AtArrival? then (s.(journal := s.journal + Voided(owner)), false)
      else if failure.AtBalance? || failure.AtStatus? || !CashAccepted(s, strict, t, id, amount) then
        (OnBook(s, strict, r.branch, t, ReceiveFailed(r.Code(), amount, r.expense,
            !failure.AtBalance?)).(journal := s.journal + Voided(written)), false)
      else
        (WithRequest(OnBook(s, strict, r.branch, t, ReceiveFunds(r.no, r.Code(), amount,
            r.expense)).(journal := s.journal + written),
                     id, r.(status := Transferred, confirmedAt := Some(t.now), confirmed := Some(amount))), true)
  }

  function Cancel(s: Desk, id: nat): Option<Desk>
    requires id < |s.requests|
  {
    if s.requests[id].status.Waiting? then Some(WithRequest(s, id, s.requests[id].(status := Cancelled))) else None
  }

  /* ---------- runs ---------- */

  datatype Action =
    | DoCreate(no: string, branch: Branch, amount: nat, expense: bool)
    | DoDirect(no: string, from: Option<Branch>, branch: Branch, amount: nat, expense: bool, reference: string)
    | DoReview(id: nat, approve: bool, granted: Option<nat>)
    | DoTransfer(id: nat, from: Option<Branch>, sum: Option<nat>, reference: string)
    | DoSourceConfirm(id: nat, sum: Option<nat>)
    | DoConfirm(id: nat, sum: Option<nat>, failure: Failure)
    | DoCancel(id: nat)
    | BranchEvent(branch: Branch, step: Step)

  predicate IsFundStep(step: Step) {
    step.SendFunds? || step.ReceiveFunds? || step.ReceiveFailed? || step.ReleaseRequest?
  }

  ghost function OrSame(s: Desk, o: Option<Desk>): Desk { if o.Some? then o.value else s }

  ghost function Act(s: Desk, strict: bool, t: Tick, a: Action): Desk {
    match a
    case DoCreate(no, branch, amount, expense) => OrSame(s, Create(s, no, branch, amount, expense))
    case DoDirect(no, from, branch, amount, expense, reference) =>
        OrSame(s, CreateDirect(s, strict, t, no, from, branch, amount, expense, reference))
    case DoReview(id, approve, granted) => if id < |s.requests| then OrSame(s, Review(s, id, approve, granted)) else s
    case DoTransfer(id, from, sum, reference) => if id < |s.requests|
        then OrSame(s, Transfer(s, strict, t, id, from, sum, reference)) else s
    case DoSourceConfirm(id, sum) => if id < |s.requests| then OrSame(s, SourceConfirm(s, strict, t, id, sum)) else s
    case DoConfirm(id, sum, failure) => if id < |s.requests| then Confirm(s, strict, t, id, sum, failure).0 else s
    case DoCancel(id) => if id < |s.requests| then OrSame(s, Cancel(s, id)) else s
    case BranchEvent(branch, step) =>
        if branch in s.books && !IsFundStep(step) then OnBook(s, strict, branch, t, step) else s
  }

  /** No inbound row of `b` carries `no` as its reference. */
  ghost predicate UnusedNumber(b: Book, no: string) {
    forall i | 0 <= i < |b.rows| && b.rows[i].IsInboundTransfer() :: b.rows[i].code != no
  }

  /** What the environment guarantees: time moves on, new request numbers are new, and a reference is
      never the number of another request that still waits for receipt at the same branch. */
  ghost predicate Allowed(s: Desk, t: Tick, a: Action) {
    && (forall b | b in s.books :: s.books[b].clock < t.now && s.books[b].today <= t.today) && t.now <= t.later
    && match a
       case DoCreate(no, _, _, _) => no != "" && forall i | 0 <= i < |s.requests| :: s.requests[i].no != no
       case DoDirect(no, _, branch, _, _, _) =>
         && no != "" && (forall i | 0 <= i < |s.requests| :: s.requests[i].no != no)
         && (branch in s.books ==> UnusedNumber(s.books[branch], no))
       case DoTransfer(id, _, _, _) => id < |s.requests| && s.requests[id].branch in s.books
           ==> UnusedNumber(s.books[s.requests[id].branch], s.requests[id].no)
       case DoConfirm(id, _, _) => id < |s.requests| && s.requests[id].branch in s.books
           ==> s.requests[id].Code() !in s.books[s.requests[id].branch].awaiting - {s.requests[id].no}
       case BranchEvent(branch, step) => branch in s.books ==> Admissible(s.books[branch], t, step)
       case _ => true
  }

  /** The desk after the actions of a run. */
  ghost function RunDesk(s: Desk, strict: bool, trace: seq<(Tick, Action)>): Desk
    decreases |trace|, 1
  {
    if trace == [] then s else AfterLastAct(s, strict, trace)
  }

  ghost function AfterLastAct(s: Desk, strict: bool, trace: seq<(Tick, Action)>): Desk
    requires trace != []
    decreases |trace|, 0
  {
    Act(RunDesk(s, strict, trace[..|trace| - 1]), strict, trace[|trace| - 1].0, trace[|trace| - 1].1)
  }

  ghost predicate AllowedRun(s: Desk, strict: bool, trace: seq<(Tick, Action)>)
    decreases |trace|, 1
  {
    trace == [] || LastAllowed(s, strict, trace)
  }

  ghost predicate LastAllowed(s: Desk, strict: bool, trace: seq<(Tick, Action)>)
    requires trace != []
    decreases |trace|, 0
  {
    && AllowedRun(s, strict, trace[..|trace| - 1])
    && Allowed(RunDesk(s, strict, trace[..|trace| - 1]), trace[|trace| - 1].0, trace[|trace| - 1].1)
  }

  /** The last action of a run. */
  lemma LastAct(s: Desk, strict: bool, trace: seq<(Tick, Action)>)
    requires trace != []
    ensures var (first, t, a) := (trace[..|trace| - 1], trace[|trace| - 1].0, trace[|trace| - 1].1);
      && RunDesk(s, strict, trace) == Act(RunDesk(s, strict, first), strict, t, a)
      && (AllowedRun(s, strict, trace) <==> AllowedRun(s, strict, first) && Allowed(RunDesk(s, strict, first), t, a))
  {
    assert RunDesk(s, strict, trace) == AfterLastAct(s, strict, trace);
    assert AllowedRun(s, strict, trace) <==> LastAllowed(s, strict, trace);
  }

  ghost predicate FreshDesk(s: Desk) {
    s.requests == [] && s.journal == [] && forall b | b in s.books :: Fresh(s.books[b]) && s.books[b].awaiting == {}
  }

  ghost predicate ReachableDesk(s: Desk, strict: bool) {
    exists s0, trace :: FreshDesk(s0) && AllowedRun(s0, strict, trace) && s == RunDesk(s0, strict, trace)
  }

  lemma ReachFreshDesk(s: Desk, strict: bool)
    requires FreshDesk(s)
    ensures ReachableDesk(s, strict)
  {
    assert AllowedRun(s, strict, []) && s == RunDesk(s, strict, []);
  }

  lemma ReachAct(s: Desk, strict: bool, t: Tick, a: Action)
    requires ReachableDesk(s, strict) && Allowed(s, t, a)
    ensures ReachableDesk(Act(s, strict, t, a), strict)
  {
    var s0, trace :| FreshDesk(s0) && AllowedRun(s0, strict, trace) && s == RunDesk(s0, strict, trace);
    assert (trace + [(t, a)])[..|trace|] == trace;
    LastAct(s0, strict, trace + [(t, a)]);
    assert AllowedRun(s0, strict, trace + [(t, a)]);
  }
}
