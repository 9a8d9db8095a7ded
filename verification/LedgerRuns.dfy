/** Runs of one branch's book, and the invariant every reachable state keeps. */
module LedgerRuns {
  import opened Options
  import opened Ledger
  import opened LedgerLemmas
  import opened OpeningCash

  /** When a step happens: its Manila date, its first clock reading and its last. */
  datatype Tick = Tick(today: int, now: int, later: int)

  datatype Step =
    | SuperAdminOpen(counted: int)
    | EmployeeOpen(counted: int)
    | Posting(date: int, purpose: Purpose, unit: UnitTag, code: string, cashIn: nat, cashOut: nat)
    | SendFunds(code: string, amount: nat)
    | ReceiveFunds(requestNo: string, code: string, amount: nat, expense: bool)
    | ReceiveFailed(code: string, amount: nat, expense: bool, balanceWritten: bool)
    | ReleaseRequest(requestNo: string)
    | ManualClose(physical: Option<int>)
    | Sweep(day: int)
    | GateCheck(pawnedItems: nat)
    | CompleteChecklist

  /* ---------- step bodies that combine several writes ---------- */

  /** A row written at `t`.  Postings carry the date their client gives. */
  function RowAt(t: Tick, date: int, p: Purpose, u: UnitTag, code: string, cashIn: nat, cashOut: nat): Row {
    Row(date, p, u, code, cashIn, cashOut, t.now, t.now, false)
  }

  function TransferRow(t: Tick, code: string, amount: nat, inbound: bool): Row {
    if inbound then RowAt(t, t.today, FundTransfer, FundIn, code, amount, 0)
    else RowAt(t, t.today, FundTransfer, FundOut, code, 0, amount)
  }

  /** Latest stored ending of the branch, 0 when nothing is stored; no row is dated after today. */
  ghost function LatestBalance(b: Book, today: int): int {
    match LatestBefore(b.balances.Keys, today + 1)
    case Some(d) => b.balances[d].ending
    case None => 0
  }

  /** Source confirmation: the funds check, then the journal row, then the balance.  A refusal by the
      last write would leave the row behind. */
  ghost function Send(b: Book, strict: bool, t: Tick, code: string, amount: nat): Outcome<Book> {
    if LatestBalance(b, t.today) < amount then Refused(InsufficientFunds)
    else
      var r := TransferRow(t, code, amount, false);
      match ApplyNetChange(AddRow(b, r), strict, t.today, r.Cash(), true)
      case Done(b') => Done(b')
      case Refused(_) => Done(AddRow(b, r))
  }

  /** Destination confirmation up to and including the balance change; the row of a refused change
      is voided. */
  ghost function ReceiveCash(b: Book, strict: bool, t: Tick, code: string, amount: nat, expense: bool): (Book, bool) {
    var r := TransferRow(t, code, amount, !expense);
    var b1 := AddRow(b, r);
    match ApplyNetChange(b1, strict, t.today, r.Cash(), true)
    case Done(b2) => (b2, true)
    case Refused(_) => (VoidRow(b1, |b.rows|), false)
  }

  /** The compensation after a later write failed: reverse the balance change, void the row. */
  ghost function UndoReceive(b: Book, strict: bool, day: int, id: nat): Book
    requires id < |b.rows|
  {
    var b1 := match ApplyNetChange(b, strict, day, -b.rows[id].Cash(), true)
              case Done(x) => x
              case Refused(_) => b;
    VoidRow(b1, id)
  }

  /** The modules gate; it may record a completed checklist for a branch without pawned items. */
  function ModulesAllowed(b: Book, day: int, pawnedItems: nat): (Book, bool) {
    if day in b.sessions && b.sessions[day].closed then (b, false)
    else if day in b.openings && b.openings[day].Pending? then (b, false)
    else if day in b.sessions then (b, true)
    else if day in b.openings then (b, true)
    else if pawnedItems == 0 then (b.(openings := b.openings[day := Completed]), true)
    else (b, false)
  }

  function CompleteOpening(b: Book, day: int): Book {
    if day in b.openings then b.(openings := b.openings[day := Completed]) else b
  }

  ghost function OrElse(b: Book, o: Outcome<Book>): Book { if o.Done? then o.value else b }

  ghost function Effect(b: Book, strict: bool, t: Tick, step: Step): Book {
    match step
    case SuperAdminOpen(amount) => OrElse(b, OpenDay(b, t.today, amount, t.now, t.later))
    case EmployeeOpen(amount) =>
      if amount != ExpectedOpening(b, t.today) then b
      else OrElse(b, OpenDay(b, t.today, amount, t.now, t.later))
    case Posting(date, p, u, code, cashIn, cashOut) =>
      OrElse(b, Post(b, strict, RowAt(t, date, p, u, code, cashIn, cashOut), t.today, false))
    case SendFunds(code, amount) => OrElse(b, Send(b, strict, t, code, amount))
    case ReceiveFunds(no, code, amount, expense) =>
      var (b', ok) := ReceiveCash(b, strict, t, code, amount, expense);
      if ok then b'.(awaiting := b'.awaiting - {no}) else b'
    case ReceiveFailed(code, amount, expense, balanceWritten) =>
      var (b', ok) := ReceiveCash(b, strict, t, code, amount, expense);
      if !balanceWritten then VoidRow(AddRow(b, TransferRow(t, code, amount, !expense)), |b.rows|)
      else if ok then UndoReceive(b', strict, t.today, |b.rows|)
      else b'
    case ReleaseRequest(no) => b.(awaiting := b.awaiting + {no})
    case ManualClose(physical) => OrElse(b, CloseDay(b, t.today, physical, t.now, t.later))
    case Sweep(day) => AutoCloseDay(b, day, t.later)
    case GateCheck(pawned) => ModulesAllowed(b, t.today, pawned).0
    case CompleteChecklist => CompleteOpening(b, t.today)
  }

  ghost function Next(b: Book, strict: bool, t: Tick, step: Step): Book {
    Effect(b, strict, t, step).(clock := t.later, today := t.today)
  }

  /** What the environment guarantees of a step: time moves on, sweeps touch no future day, postings
      are not journal markers and are dated today when they move cash, and no reference collides with
      the number of a request still waiting.  `LedgerTheorems.PostingAgreesExactly` says what a posting
      with another date does. */
  ghost predicate Admissible(b: Book, t: Tick, step: Step) {
    && b.clock < t.now <= t.later && b.today <= t.today
    && match step
       case Posting(date, p, u, code, cashIn, cashOut) =>
         !p.Start? && !p.End? && code !in b.awaiting && (date == t.today || cashIn == cashOut)
       case ReceiveFunds(no, code, amount, expense) => code !in b.awaiting - {no} && amount > 0
       case SendFunds(code, amount) => amount > 0
       case ReceiveFailed(code, amount, expense, _) => amount > 0
       case ReleaseRequest(no) => forall i | 0 <= i < |b.rows| && b.rows[i].IsInboundTransfer() :: b.rows[i].code != no
       case Sweep(day) => day <= t.today
       case _ => true
  }

  /** The book after the steps of a run. */
  ghost function Run(b: Book, strict: bool, trace: seq<(Tick, Step)>): Book
    decreases |trace|, 1
  {
    if trace == [] then b else AfterLast(b, strict, trace)
  }

  ghost function AfterLast(b: Book, strict: bool, trace: seq<(Tick, Step)>): Book
    requires trace != []
    decreases |trace|, 0
  {
    Next(Run(b, strict, trace[..|trace| - 1]), strict, trace[|trace| - 1].0, trace[|trace| - 1].1)
  }

  ghost predicate AdmissibleRun(b: Book, strict: bool, trace: seq<(Tick, Step)>)
    decreases |trace|, 1
  {
    trace == [] || LastAdmissible(b, strict, trace)
  }

  ghost predicate LastAdmissible(b: Book, strict: bool, trace: seq<(Tick, Step)>)
    requires trace != []
    decreases |trace|, 0
  {
    && AdmissibleRun(b, strict, trace[..|trace| - 1])
    && Admissible(Run(b, strict, trace[..|trace| - 1]), trace[|trace| - 1].0, trace[|trace| - 1].1)
  }

  /** The last step of a run. */
  lemma LastStep(b: Book, strict: bool, trace: seq<(Tick, Step)>)
    requires trace != []
    ensures var (first, t, step) := (trace[..|trace| - 1], trace[|trace| - 1].0, trace[|trace| - 1].1);
      && Run(b, strict, trace) == Next(Run(b, strict, first), strict, t, step)
      && (AdmissibleRun(b, strict, trace) <==>
          AdmissibleRun(b, strict, first) && Admissible(Run(b, strict, first), t, step))
  {
    assert Run(b, strict, trace) == AfterLast(b, strict, trace);
    assert AdmissibleRun(b, strict, trace) <==> LastAdmissible(b, strict, trace);
  }

  /** A run goes on by one step. */
  lemma OneMoreStep(b: Book, strict: bool, trace: seq<(Tick, Step)>, t: Tick, step: Step)
    requires AdmissibleRun(b, strict, trace) && Admissible(Run(b, strict, trace), t, step)
    ensures AdmissibleRun(b, strict, trace + [(t, step)])
    ensures Run(b, strict, trace + [(t, step)]) == Next(Run(b, strict, trace), strict, t, step)
  {
    assert (trace + [(t, step)])[..|trace|] == trace;
    LastStep(b, strict, trace + [(t, step)]);
  }

  /** A branch before its first event. */
  predicate Fresh(b: Book) {
    b.sessions == map[] && b.balances == map[] && b.openings == map[] && b.rows == [] && b.capital >= 0 && b.clock >= 0
  }

  ghost predicate Reachable(b: Book, strict: bool) {
    exists b0, trace :: Fresh(b0) && AdmissibleRun(b0, strict, trace) && b == Run(b0, strict, trace)
  }

  lemma ReachFresh(b: Book, strict: bool)
    requires Fresh(b)
    ensures Reachable(b, strict)
  {
    assert AdmissibleRun(b, strict, []) && b == Run(b, strict, []);
  }

  lemma ReachNext(b: Book, strict: bool, t: Tick, step: Step)
    requires Reachable(b, strict) && Admissible(b, t, step)
    ensures Reachable(Next(b, strict, t, step), strict)
  {
    var b0, trace :| Fresh(b0) && AdmissibleRun(b0, strict, trace) && b == Run(b0, strict, trace);
    OneMoreStep(b0, strict, trace, t, step);
  }

  /** A call that is turned down only moves the clock. */
  lemma ReachLater(b: Book, strict: bool, t: Tick)
    requires Reachable(b, strict) && b.clock < t.now <= t.later && b.today <= t.today
    ensures Reachable(b.(clock := t.later, today := t.today), strict)
  {
    ReachNext(b, strict, t, SuperAdminOpen(-1));
  }

  /* ---------- the invariant ---------- */

  ghost predicate RowsOk(b: Book) {
    && b.clock >= 0 && NoLaterThan(b.rows, b.clock) && MarkersLive(b.rows)
    && forall i | 0 <= i < |b.rows| :: b.rows[i].createdAt > 0
  }

  ghost predicate DatesOk(b: Book) {
    && (forall d | d in b.sessions :: d in b.balances && d <= b.today)
    && (forall d | d in b.balances :: d <= b.today)
  }

  ghost predicate SessionOk(b: Book, d: int)
    requires d in b.sessions
  {
    var s := b.sessions[d];
    && 0 < s.openedAt <= s.cutoffAt <= b.clock
    && forall i | i in s.sealedIds :: i < |b.rows| && b.rows[i].createdAt < s.cutoffAt
  }

  /** The fast and the simple form agree on an open session. */
  ghost predicate OpenAgrees(b: Book, d: int) {
    IsOpen(b, d) ==> d in b.balances && b.balances[d] == Balance(b.sessions[d].start,
        b.sessions[d].start + ShiftNet(b, d))
  }

  ghost predicate NoneHidden(b: Book) {
    forall i | 0 <= i < |b.rows| :: !b.rows[i].AwaitsReceipt(b.awaiting)
  }

  /** Before a day's first session only fund transfers move its cash. */
  ghost predicate EarlyRowsAreTransfers(b: Book) {
    forall i | 0 <= i < |b.rows| && b.rows[i].date !in b.sessions && !b.rows[i].voided ::
      b.rows[i].IsFundTransfer() || b.rows[i].Cash() == 0
  }

  /** A row that moves cash has left a balance row for its day. */
  ghost predicate CashIsBooked(b: Book) {
    forall i | 0 <= i < |b.rows| && !b.rows[i].voided && b.rows[i].Cash() != 0 :: b.rows[i].date in b.balances
  }

  ghost predicate NonNegative(b: Book) {
    forall d | d in b.balances :: b.balances[d].starting >= 0 && b.balances[d].ending >= 0
  }

  ghost predicate ChecklistOk(b: Book) {
    forall d | d in b.sessions :: b.sessions[d].closed <==> d !in b.openings
  }

  ghost predicate Inv(b: Book, strict: bool) {
    && RowsOk(b) && DatesOk(b) && b.capital >= 0
    && (forall d | d in b.sessions :: b.sessions[d].start >= 0 && SessionOk(b, d))
    && (forall d :: OpenAgrees(b, d))
    && NoneHidden(b) && EarlyRowsAreTransfers(b) && CashIsBooked(b) && ChecklistOk(b)
    && (strict ==> NonNegative(b))
  }

  lemma CutoffInPast(b: Book, strict: bool, d: int)
    requires Inv(b, strict)
    ensures Cutoff(b, d) <= b.clock
  {
    CutoffBound(b, d);
  }
}
