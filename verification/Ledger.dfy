/** The cash book of one branch: its stored tables as one value, and the reads that turn the
    tables into a balance.  Amounts are integer centavos, dates are day numbers, instants are
    milliseconds.

    The functions here say what each read or write means; the class in `BranchLedger.dfy` does
    the same work step by step, with loops and field updates, and is proved against them.
 */
module Ledger {

  import opened Options

  /** Why a posting was turned down; the tables are then as before. */
  datatype Refusal = RequiresStartingBalance | SessionClosed | InsufficientFunds | AlreadyOpen | StartMismatch
      | NoSession | NegativeAmount

  datatype Outcome<+T> = Done(value: T) | Refused(reason: Refusal)

  /** `transactions.purpose` and `transactions.unit`, after trimming and lower-casing. */
  datatype Purpose = Start | End | FundTransfer | CashTransfer | Business
  datatype UnitTag = FundIn | FundOut | Goods

  /** A `transactions` row; its id is its position in the table. */
  datatype Row = Row(date: int, purpose: Purpose, unit: UnitTag, code: string, cashIn: nat, cashOut: nat,
                     createdAt: int, updatedAt: int, voided: bool)
  {
    function Cash(): int { cashIn - cashOut }

    /** Start and End rows are zero-cash markers. */
    predicate IsMarker() { purpose.Start? || purpose.End? }

    predicate IsInboundTransfer() {
      !voided && cashIn > 0 && (unit.FundIn? || purpose.CashTransfer? || purpose.FundTransfer?)
    }

    predicate IsFundTransfer() {
      !voided && (unit.FundIn? || unit.FundOut? || purpose.CashTransfer? || purpose.FundTransfer?)
    }

    /** Inbound transfer whose receipt is not confirmed: its reference is a request still waiting. */
    predicate AwaitsReceipt(awaiting: set<string>) {
      IsInboundTransfer() && code != "" && code in awaiting
    }

    /** A row that moves the operational cash of `day`. */
    predicate Counts(day: int, awaiting: set<string>) {
      date == day && !voided && !IsMarker() && !AwaitsReceipt(awaiting)
    }
  }

  /** A `branch_day_sessions` row. */
  datatype Session = Session(start: int, closed: bool, openedAt: int, cutoffAt: int, sealedIds: set<nat>)

  /** A `daily_balances` row. */
  datatype Balance = Balance(starting: int, ending: int)

  /** `daily_opening.status`. */
  datatype Checklist = Pending | Completed

  /** All tables of one branch.  `awaiting` holds the numbers of the branch's fund requests that are
      pending_confirmation or pending_source_confirmation; `clock` and `today` are the last instant
      and the last Manila date at which the tables were touched. */
  datatype Book = Book(sessions: map<int, Session>, balances: map<int, Balance>, openings: map<int, Checklist>,
                       rows: seq<Row>, awaiting: set<string>, capital: int, clock: int, today: int)

  /* ---------- sums over rows ---------- */

  /** Net cash of the rows whose ids are in `ids`. */
  function Net(rows: seq<Row>, ids: set<nat>): int {
    if rows == [] then 0
    else
      var n := |rows| - 1;
      Net(rows[..n], ids) + (if n in ids then rows[n].Cash() else 0)
  }

  function Max(x: int, y: int): int { if x >= y then x else y }

  /* ---------- cutoff and filters ---------- */

  predicate IsLiveMarker(r: Row, day: int, p: Purpose) { r.date == day && r.purpose == p && !r.voided }

  /** Id of the live marker with the latest `updatedAt`, the earliest such row on a tie. */
  function LatestMarker(rows: seq<Row>, day: int, p: Purpose): (id: Option<nat>)
    ensures id.Some? ==> id.value < |rows| && IsLiveMarker(rows[id.value], day, p)
    ensures id.Some? ==> forall i | 0 <= i < |rows|
        && IsLiveMarker(rows[i], day, p) :: rows[i].updatedAt <= rows[id.value].updatedAt
    ensures id.None? ==> forall i | 0 <= i < |rows| :: !IsLiveMarker(rows[i], day, p)
  {
    if rows == [] then None
    else
      var n := |rows| - 1;
      var earlier := LatestMarker(rows[..n], day, p);
      if IsLiveMarker(rows[n], day, p) && (earlier.None? || rows[n].updatedAt > rows[earlier.value].updatedAt)
          then Some(n)
      else earlier
  }

  function MarkerTime(rows: seq<Row>, day: int, p: Purpose): int {
    match LatestMarker(rows, day, p)
    case None => 0
    case Some(i) => Max(rows[i].updatedAt, rows[i].createdAt)
  }

  /** Earliest instant whose rows belong to the current shift of `day`; 0 when nothing marks one. */
  function Cutoff(b: Book, day: int): int {
    var fromSession := if day in b.sessions then Max(b.sessions[day].cutoffAt, b.sessions[day].openedAt) else 0;
    Max(Max(fromSession, MarkerTime(b.rows, day, Start)), MarkerTime(b.rows, day, End))
  }

  function SealedOf(b: Book, day: int): set<nat> {
    if day in b.sessions then b.sessions[day].sealedIds else {}
  }

  /** The rows the current shift of `day` counts: since the cutoff and not sealed. */
  function ShiftIds(b: Book, day: int): set<nat> {
    set i: nat | i < |b.rows| && b.rows[i].Counts(day, b.awaiting) && i !in SealedOf(b, day)
                 && (Cutoff(b, day) <= 0 || b.rows[i].createdAt >= Cutoff(b, day))
  }

  /** Every row that moves the cash of `day`, no cutoff and no seal. */
  function FullDayIds(b: Book, day: int): set<nat> {
    set i: nat | i < |b.rows| && b.rows[i].Counts(day, b.awaiting)
  }

  /** Confirmed fund transfers posted before the current shift's cutoff. */
  function PreOpenFundIds(b: Book, day: int): set<nat> {
    set i: nat | i < |b.rows| && b.rows[i].Counts(day, b.awaiting) && b.rows[i].IsFundTransfer()
                 && Cutoff(b, day) > 0 && b.rows[i].createdAt < Cutoff(b, day)
  }

  /** Operational rows of `day` created strictly before `cutoff`. */
  function SealedBefore(rows: seq<Row>, day: int, cutoff: int): set<nat> {
    set i: nat | i < |rows| && rows[i].date == day && !rows[i].voided && !rows[i].IsMarker()
        && rows[i].createdAt < cutoff
  }

  function ShiftNet(b: Book, day: int): int { Net(b.rows, ShiftIds(b, day)) }
  function FullDayNet(b: Book, day: int): int { Net(b.rows, FullDayIds(b, day)) }
  function PreOpenFundNet(b: Book, day: int): int { Net(b.rows, PreOpenFundIds(b, day)) }

  /* ---------- balances ---------- */

  predicate IsOpen(b: Book, day: int) { day in b.sessions && !b.sessions[day].closed }

  predicate IsLatestBefore(dates: set<int>, day: int, d: int) {
    d in dates && d < day && forall e | e in dates && e < day :: e <= d
  }

  /** Latest of `dates` strictly before `day`. */
  ghost function LatestBefore(dates: set<int>, day: int): (d: Option<int>)
    ensures d.Some? ==> IsLatestBefore(dates, day, d.value)
    ensures d.None? ==> forall e | e in dates :: e >= day
  {
    if exists e :: e in dates && e < day then
      var e :| e in dates && e < day;
      LatestBeforeExists(dates, day, e);
      var m :| IsLatestBefore(dates, day, m);
      Some(m)
    else None
  }

  lemma LatestBeforeExists(dates: set<int>, day: int, d: int)
    requires d in dates && d < day
    ensures exists m :: IsLatestBefore(dates, day, m)
    decreases day - d
  {
    if e :| e in dates && d < e < day {
      LatestBeforeExists(dates, day, e);
    } else {
      assert IsLatestBefore(dates, day, d);
    }
  }

  /** Stored ending of the nearest earlier day, else the branch's opening capital. */
  ghost function PriorEnding(b: Book, day: int): int {
    match LatestBefore(b.balances.Keys, day)
    case Some(d) => b.balances[d].ending
    case None => b.capital
  }

  /** Simple form of the book balance: an open session's start plus its shift, else the stored
      ending, else what the nearest earlier day left. */
  ghost function RecomputedBalance(b: Book, day: int): int {
    if IsOpen(b, day) then b.sessions[day].start + ShiftNet(b, day)
    else if day in b.balances then b.balances[day].ending
    else PriorEnding(b, day)
  }

  /** Fast form: the stored ending whenever there is one. */
  ghost function IncrementalBalance(b: Book, day: int): int {
    if day in b.balances then b.balances[day].ending
    else if IsOpen(b, day) then b.sessions[day].start
    else RecomputedBalance(b, day)
  }

  /** Book ending of an open session, with the correction for transfers received before it opened. */
  ghost function OpenBookEnding(b: Book, day: int): int
    requires IsOpen(b, day)
  {
    var start := b.sessions[day].start;
    var pre := PreOpenFundNet(b, day);
    var plain := start + ShiftNet(b, day);
    // The 0.01 tolerance of the comparison is one centavo.
    var corrected := if pre > 0 && start < PriorEnding(b, day) + pre - 1 then plain + pre else plain;
    if day in b.balances then Max(corrected, b.balances[day].ending) else corrected
  }

  /* ---------- writes ---------- */

  /** Whether a cash movement of `delta` may be posted: the session gate first, then the funds. */
  ghost function PostingVerdict(b: Book, strict: bool, day: int, delta: int, bypassGate: bool,
                                baseline: int): Outcome<int> {
    if delta == 0 then Done(baseline)
    else if !bypassGate && day !in b.sessions then Refused(RequiresStartingBalance)
    else if !bypassGate && b.sessions[day].closed then Refused(SessionClosed)
    else if strict && baseline + delta < 0 then Refused(InsufficientFunds)
    else Done(baseline + delta)
  }

  /** The balance row of `day` once its ending is `ending`. */
  ghost function WithEnding(b: Book, day: int, ending: int): Balance {
    if day in b.balances then b.balances[day].(ending := ending)
    else Balance(if IsOpen(b, day) then b.sessions[day].start else PriorEnding(b, day), ending)
  }

  /** Adds `delta` to the stored balance of `day`. */
  ghost function ApplyNetChange(b: Book, strict: bool, day: int, delta: int, bypassGate: bool): Outcome<Book> {
    if delta == 0 then Done(b)
    else
      match PostingVerdict(b, strict, day, delta, bypassGate, IncrementalBalance(b, day))
      case Refused(why) => Refused(why)
      case Done(next) => Done(b.(balances := b.balances[day := WithEnding(b, day, next)]))
  }

  function AddRow(b: Book, r: Row): Book { b.(rows := b.rows + [r]) }

  function VoidRow(b: Book, id: nat): Book
    requires id < |b.rows|
  {
    b.(rows := b.rows[id := b.rows[id].(voided := true)])
  }

  /** A posting in one database transaction: journal row, then the balance of `day`, whatever the date
      of the row; refused as a whole. */
  ghost function Post(b: Book, strict: bool, r: Row, day: int, bypassGate: bool): Outcome<Book> {
    ApplyNetChange(AddRow(b, r), strict, day, r.Cash(), bypassGate)
  }

  /** First row of `day` with exactly the marker purpose. */
  function FindMarker(rows: seq<Row>, day: int, p: Purpose): (id: Option<nat>)
    ensures id.Some? ==> id.value < |rows| && rows[id.value].date == day && rows[id.value].purpose == p
    ensures id.None? ==> forall i | 0 <= i < |rows| :: !(rows[i].date == day && rows[i].purpose == p)
  {
    if rows == [] then None
    else
      var n := |rows| - 1;
      var earlier := FindMarker(rows[..n], day, p);
      if earlier.Some? then earlier
      else if rows[n].date == day && rows[n].purpose == p then Some(n)
      else None
  }

  /** Rewrites the day's marker row, or adds one. */
  function UpsertMarker(rows: seq<Row>, day: int, p: Purpose, at: int): seq<Row> {
    match FindMarker(rows, day, p)
    case Some(i) => rows[i := rows[i].(cashIn := 0, cashOut := 0, updatedAt := at)]
    case None => rows + [Row(day, p, Goods, "", 0, 0, at, at, false)]
  }

  /** Balance row left by confirming a count at opening. */
  function StartingBalance(amount: int): Balance { Balance(amount, Max(amount, 0)) }

  /** Balance row left by closing `day`: a positive count is stored verbatim, otherwise the book is;
      never below zero. */
  function ClosingBalance(b: Book, day: int, counted: int): Balance
    requires day in b.sessions
  {
    var start := b.sessions[day].start;
    Balance(start, Max(0, if counted > 0 then counted else start + ShiftNet(b, day)))
  }

  /** Start Day with a counted `amount`; the session row gets instant `now`, the marker `later`. */
  function OpenDay(b: Book, day: int, amount: int, now: int, later: int): Outcome<Book> {
    if amount < 0 then Refused(NegativeAmount)
    else if IsOpen(b, day) then Refused(AlreadyOpen)
    else Done(b.(
      balances := b.balances[day := StartingBalance(amount)],
      sessions := b.sessions[day := Session(amount, false, now, now, SealedBefore(b.rows, day, now))],
      rows := UpsertMarker(b.rows, day, Start, later),
      openings := b.openings[day := Pending]))
  }

  /** End Day by hand.  Closing a closed day changes nothing. */
  ghost function CloseDay(b: Book, day: int, physical: Option<int>, now: int, later: int): Outcome<Book> {
    if day !in b.sessions then Refused(NoSession)
    else if b.sessions[day].closed then Done(b)
    else
      var counted := if physical.Some? then physical.value else OpenBookEnding(b, day);
      Done(b.(
        balances := b.balances[day := ClosingBalance(b, day, counted)],
        sessions := b.sessions[day := b.sessions[day].(closed := true, cutoffAt := now,
            sealedIds := SealedBefore(b.rows, day, now))],
        openings := b.openings - {day},
        rows := UpsertMarker(b.rows, day, End, later)))
  }

  /** The 6 PM sweep on one open session: no count, and the cutoff and seal stay as they are. */
  function AutoCloseDay(b: Book, day: int, later: int): Book {
    if !IsOpen(b, day) then b
    else b.(
      balances := b.balances[day := ClosingBalance(b, day, 0)],
      sessions := b.sessions[day := b.sessions[day].(closed := true)],
      openings := b.openings - {day},
      rows := UpsertMarker(b.rows, day, End, later))
  }

  /** Rewrites an open session's cutoff and seal from the journal. */
  function Realign(b: Book, day: int, now: int): Book
    requires day in b.sessions
  {
    var cutoff := if Cutoff(b, day) > 0 then Cutoff(b, day) else now;
    b.(sessions := b.sessions[day := b.sessions[day].(cutoffAt := cutoff,
        sealedIds := SealedBefore(b.rows, day, cutoff))])
  }

  /** Realigns an open session and sets its balance row to the book. */
  ghost function Reconcile(b: Book, day: int, now: int): Book {
    if !IsOpen(b, day) then b
    else
      var b1 := Realign(b, day, now);
      b1.(balances := b1.balances[day := Balance(b1.sessions[day].start, OpenBookEnding(b1, day))])
  }
}
