/** Every admissible step keeps the invariant of the book. */
module LedgerInvariant {
  import opened Options
  import opened Ledger
  import opened LedgerLemmas
  import opened OpeningCash
  import opened LedgerRuns

  /** The clock readings of a step, after the tables were last touched. */
  predicate Ticks(b: Book, t: Tick) { b.clock < t.now <= t.later && b.today <= t.today }

  function At(b: Book, t: Tick): Book { b.(clock := t.later, today := t.today) }

  lemma PriorNonNegative(b: Book, strict: bool, day: int)
    requires Inv(b, strict) && strict
    ensures PriorEnding(b, day) >= 0
  {
  }

  /** A day without a balance row has no cash. */
  lemma UnbookedDay(b: Book, day: int)
    requires CashIsBooked(b) && day !in b.balances
    ensures FullDayNet(b, day) == 0
  {
    NetNone(b.rows, FullDayIds(b, day));
  }

  /** An untouched session keeps its agreement when the rows of its day are the same. */
  lemma StillAgrees(b: Book, b': Book, d: int)
    requires OpenAgrees(b, d)
    requires IsOpen(b', d) ==> d in b.sessions && b'.sessions[d] == b.sessions[d]
    requires d in b.balances ==> d in b'.balances && b'.balances[d] == b.balances[d]
    requires IsOpen(b', d) ==> SameDayRows(b, b', d) && Cutoff(b', d) == Cutoff(b, d)
    ensures OpenAgrees(b', d)
  {
    if IsOpen(b', d) {
      ShiftFrame(b, b', d);
    }
  }

  /** Appending a row that is no marker moves no cutoff. */
  lemma AppendKeepsCutoff(b: Book, b': Book, r: Row, d: int)
    requires b'.rows == b.rows + [r] && !r.IsMarker()
    requires d in b.sessions <==> d in b'.sessions
    requires d in b.sessions ==> b'.sessions[d] == b.sessions[d]
    ensures Cutoff(b', d) == Cutoff(b, d)
  {
    LatestMarkerAppend(b.rows, r, d, Start);
    LatestMarkerAppend(b.rows, r, d, End);
  }

  /** A row of today, or one that moves no cash, newer than the tables and hidden by no waiting request. */
  ghost predicate FreshRow(b: Book, b': Book, t: Tick, r: Row) {
    && Ticks(b, t) && (r.date == t.today || r.Cash() == 0) && r.createdAt == t.now && r.updatedAt <= t.later
        && !r.IsMarker()
    && b'.rows == b.rows + [r] && b'.sessions == b.sessions && b'.openings == b.openings && b'.capital == b.capital
    && b'.awaiting <= b.awaiting && b'.clock == t.later && b'.today == t.today
    && !r.AwaitsReceipt(b'.awaiting)
  }

  /** Everything but the balances survives a fresh row. */
  lemma FreshRowKeepsTables(b: Book, b': Book, strict: bool, t: Tick, r: Row)
    requires Inv(b, strict) && FreshRow(b, b', t, r)
    requires r.voided || t.today in b.sessions || r.IsFundTransfer() || r.Cash() == 0
    requires r.voided || r.Cash() == 0 || t.today in b'.balances
    requires b.balances.Keys <= b'.balances.Keys
    ensures CashIsBooked(b') && RowsOk(b') && NoneHidden(b') && EarlyRowsAreTransfers(b') && ChecklistOk(b')
    ensures forall d | d in b'.sessions :: b'.sessions[d].start >= 0 && SessionOk(b', d)
    ensures forall d | d in b'.sessions :: d <= b'.today
  {
    assert forall i | 0 <= i < |b.rows| :: b'.rows[i] == b.rows[i];
    assert b'.rows[|b.rows|] == r;
    forall d | d in b'.sessions ensures SessionOk(b', d) {
      assert SessionOk(b, d);
    }
  }

  lemma FreshRowSameDay(b: Book, b': Book, strict: bool, t: Tick, r: Row, d: int)
    requires Inv(b, strict) && FreshRow(b, b', t, r)
    ensures forall i | 0 <= i < |b.rows| :: b.rows[i].Counts(d, b'.awaiting) == b.rows[i].Counts(d, b.awaiting)
    ensures d != r.date || r.voided ==> SameDayRows(b, b', d)
    ensures Cutoff(b', d) == Cutoff(b, d)
  {
    assert forall i | 0 <= i < |b.rows| :: b'.rows[i] == b.rows[i];
    assert b'.rows[|b.rows|] == r;
    AppendKeepsCutoff(b, b', r, d);
  }

  /** The agreement on the date of a fresh row that counts. */
  lemma PostedDayAgrees(b: Book, b': Book, strict: bool, t: Tick, r: Row)
    requires Inv(b, strict) && FreshRow(b, b', t, r) && !r.voided && IsOpen(b, r.date)
    requires b'.balances == if r.Cash() == 0 then b.balances
                            else b.balances[t.today := WithEnding(b, t.today,
                                IncrementalBalance(b, t.today) + r.Cash())]
    ensures OpenAgrees(b', r.date)
  {
    assert OpenAgrees(b, r.date) && SessionOk(b, r.date);
    FreshRowSameDay(b, b', strict, t, r, r.date);
    CutoffInPast(b, strict, r.date);
    ShiftGrows(b, b', r);
  }

  /** A fresh row whose cash goes into the stored ending of its day keeps the whole invariant. */
  lemma PostedRowKeepsInv(b: Book, b': Book, strict: bool, t: Tick, r: Row)
    requires Inv(b, strict) && FreshRow(b, b', t, r) && !r.voided
    requires t.today in b.sessions || r.IsFundTransfer() || r.Cash() == 0
    requires b'.balances == if r.Cash() == 0 then b.balances
                            else b.balances[t.today := WithEnding(b, t.today,
                                IncrementalBalance(b, t.today) + r.Cash())]
    requires strict && r.Cash() != 0 ==> b'.balances[t.today].ending >= 0
    ensures Inv(b', strict)
  {
    FreshRowKeepsTables(b, b', strict, t, r);
    forall d ensures OpenAgrees(b', d) {
      if IsOpen(b', d) {
        if d == r.date {
          PostedDayAgrees(b, b', strict, t, r);
        } else {
          FreshRowSameDay(b, b', strict, t, r, d);
          assert OpenAgrees(b, d);
          StillAgrees(b, b', d);
        }
      }
    }
    if strict {
      PriorNonNegative(b, strict, t.today);
    }
  }

  /** A voided row, with the day's book balance where it was, keeps the invariant. */
  lemma VoidedRowKeepsInv(b: Book, b': Book, strict: bool, t: Tick, r: Row)
    requires Inv(b, strict) && FreshRow(b, b', t, r) && r.voided
    requires b'.balances == b.balances
          || b'.balances == b.balances[t.today := WithEnding(b, t.today, IncrementalBalance(b, t.today))]
    ensures Inv(b', strict)
  {
    FreshRowKeepsTables(b, b', strict, t, r);
    forall d ensures OpenAgrees(b', d) {
      assert OpenAgrees(b, d);
      FreshRowSameDay(b, b', strict, t, r, d);
      if IsOpen(b', d) {
        StillAgrees(b, b', d);
      }
    }
    if strict {
      PriorNonNegative(b, strict, t.today);
    }
  }

  /* ---------- what ApplyNetChange does to a book with one more row ---------- */

  lemma IncrementalIgnoresRow(b: Book, strict: bool, r: Row, day: int)
    requires Inv(b, strict)
    ensures IncrementalBalance(AddRow(b, r), day) == IncrementalBalance(b, day)
    ensures forall e :: WithEnding(AddRow(b, r), day, e) == WithEnding(b, day, e)
  {
    PriorEndingFrame(b, AddRow(b, r), day);
  }

  lemma PostingKeepsInv(b: Book, strict: bool, t: Tick, step: Step)
    requires Inv(b, strict) && Admissible(b, t, step) && step.Posting?
    ensures Inv(Next(b, strict, t, step), strict)
  {
    var r := RowAt(t, step.date, step.purpose, step.unit, step.code, step.cashIn, step.cashOut);
    IncrementalIgnoresRow(b, strict, r, t.today);
    var b' := Next(b, strict, t, step);
    if Post(b, strict, r, t.today, false).Done? {
      PostedRowKeepsInv(b, b', strict, t, r);
    } else {
      TimePasses(b, strict, t);
    }
  }

  /** Nothing but time passes. */
  lemma TimePasses(b: Book, strict: bool, t: Tick)
    requires Inv(b, strict) && Ticks(b, t)
    ensures Inv(At(b, t), strict)
  {
    var b' := At(b, t);
    forall d ensures OpenAgrees(b', d) {
      assert OpenAgrees(b, d);
      StillAgrees(b, b', d);
    }
    forall d | d in b'.sessions ensures SessionOk(b', d) {
      assert SessionOk(b, d);
    }
  }

  /** The latest stored ending is the balance the next posting starts from, so a source confirmation
      that passes the funds check is never refused afterwards. */
  lemma SendNeverStrandsRow(b: Book, strict: bool, t: Tick, code: string, amount: nat)
    requires Inv(b, strict) && Ticks(b, t) && amount > 0 && LatestBalance(b, t.today) >= amount
    ensures LatestBalance(b, t.today) == IncrementalBalance(b, t.today)
    ensures (var r := TransferRow(t, code, amount, false);
        ApplyNetChange(AddRow(b, r), strict, t.today, r.Cash(), true).Done?)
  {
    IncrementalIgnoresRow(b, strict, TransferRow(t, code, amount, false), t.today);
    var d := LatestBefore(b.balances.Keys, t.today + 1);
    if d.value < t.today {
      var e := LatestBefore(b.balances.Keys, t.today);
      assert d.value in b.balances.Keys;
      assert e.Some? && e.value == d.value;
    }
  }

  lemma SendKeepsInv(b: Book, strict: bool, t: Tick, step: Step)
    requires Inv(b, strict) && Admissible(b, t, step) && step.SendFunds?
    ensures Inv(Next(b, strict, t, step), strict)
  {
    if LatestBalance(b, t.today) < step.amount {
      TimePasses(b, strict, t);
    } else {
      var r := TransferRow(t, step.code, step.amount, false);
      SendNeverStrandsRow(b, strict, t, step.code, step.amount);
      IncrementalIgnoresRow(b, strict, r, t.today);
      PostedRowKeepsInv(b, Next(b, strict, t, step), strict, t, r);
    }
  }

  lemma ReceiveKeepsInv(b: Book, strict: bool, t: Tick, step: Step)
    requires Inv(b, strict) && Admissible(b, t, step) && step.ReceiveFunds?
    ensures Inv(Next(b, strict, t, step), strict)
  {
    var r := TransferRow(t, step.code, step.amount, !step.expense);
    IncrementalIgnoresRow(b, strict, r, t.today);
    var b' := Next(b, strict, t, step);
    if ReceiveCash(b, strict, t, step.code, step.amount, step.expense).1 {
      PostedRowKeepsInv(b, b', strict, t, r);
    } else {
      VoidedRowKeepsInv(b, b', strict, t, r.(voided := true));
    }
  }

  /** After the compensation the balance row of the day, created if it was missing, carries the book
      balance from before, and the row is void. */
  lemma UndoRestores(b: Book, strict: bool, t: Tick, code: string, amount: nat, expense: bool)
    requires Inv(b, strict) && Ticks(b, t) && amount > 0
    requires ReceiveCash(b, strict, t, code, amount, expense).1
    ensures UndoReceive(ReceiveCash(b, strict, t, code, amount, expense).0, strict, t.today, |b.rows|)
         == b.(rows := b.rows + [TransferRow(t, code, amount, !expense).(voided := true)],
               balances := b.balances[t.today := WithEnding(b, t.today, IncrementalBalance(b, t.today))])
  {
    var r := TransferRow(t, code, amount, !expense);
    IncrementalIgnoresRow(b, strict, r, t.today);
    var b1 := ReceiveCash(b, strict, t, code, amount, expense).0;
    assert b1.rows == b.rows + [r];
    assert b1.rows[|b.rows|].Cash() == r.Cash();
    if strict {
      PriorNonNegative(b, strict, t.today);
      assert IncrementalBalance(b, t.today) >= 0;
    }
    assert b1.rows[|b.rows| := r.(voided := true)] == b.rows + [r.(voided := true)];
  }

  lemma ReceiveFailedKeepsInv(b: Book, strict: bool, t: Tick, step: Step)
    requires Inv(b, strict) && Admissible(b, t, step) && step.ReceiveFailed?
    ensures Inv(Next(b, strict, t, step), strict)
  {
    var r := TransferRow(t, step.code, step.amount, !step.expense).(voided := true);
    if step.balanceWritten && ReceiveCash(b, strict, t, step.code, step.amount, step.expense).1 {
      UndoRestores(b, strict, t, step.code, step.amount, step.expense);
    }
    VoidedRowKeepsInv(b, Next(b, strict, t, step), strict, t, r);
  }

  /* ---------- opening and closing ---------- */

  /** A new Start or End marker on `day` changes no other day and no sum. */
  lemma MarkerKeepsRows(b: Book, b': Book, t: Tick, day: int, p: Purpose, d: int)
    requires RowsOk(b) && Ticks(b, t) && (p.Start? || p.End?)
    requires b'.rows == UpsertMarker(b.rows, day, p, t.later) && b'.awaiting == b.awaiting
    ensures SameDayRows(b, b', d)
    ensures d != day && (d in b.sessions <==> d in b'.sessions) && (d in b.sessions ==> b'.sessions[d] == b.sessions[d])
            ==> Cutoff(b', d) == Cutoff(b, d)
  {
    MarkerRowsSame(b, b', t, day, p, d);
    UpsertMarkerTimes(b.rows, day, p, t.later, b.clock, d, Start);
    UpsertMarkerTimes(b.rows, day, p, t.later, b.clock, d, End);
  }

  lemma MarkerRowsSame(b: Book, b': Book, t: Tick, day: int, p: Purpose, d: int)
    requires p.Start? || p.End?
    requires b'.rows == UpsertMarker(b.rows, day, p, t.later) && b'.awaiting == b.awaiting
    ensures SameDayRows(b, b', d)
  {
    UpsertMarkerRows(b.rows, day, p, t.later);
  }

  /** What a session write on `day` with its marker must satisfy. */
  ghost predicate SessionWrite(b: Book, b': Book, t: Tick, day: int, p: Purpose) {
    && Ticks(b, t) && (p.Start? || p.End?) && day <= t.today
    && b'.rows == UpsertMarker(b.rows, day, p, t.later) && b'.awaiting == b.awaiting && b'.capital == b.capital
    && b'.clock == t.later && b'.today == t.today
    && b'.sessions.Keys == b.sessions.Keys + {day} && b'.balances.Keys == b.balances.Keys + {day}
    && (forall d | d in b.sessions && d != day :: b'.sessions[d] == b.sessions[d])
    && (forall d | d in b.balances && d != day :: b'.balances[d] == b.balances[d])
    && (forall d | d != day :: d in b'.openings <==> d in b.openings)
    && (b'.sessions[day].closed <==> day !in b'.openings)
    && b'.sessions[day].start >= 0 && SessionOk(b', day)
    && b'.balances[day].starting >= 0 && b'.balances[day].ending >= 0
  }

  lemma SessionWriteKeepsRows(b: Book, b': Book, strict: bool, t: Tick, day: int, p: Purpose)
    requires Inv(b, strict) && SessionWrite(b, b', t, day, p)
    ensures RowsOk(b') && NoneHidden(b') && EarlyRowsAreTransfers(b') && CashIsBooked(b')
  {
    UpsertMarkerRows(b.rows, day, p, t.later);
  }

  lemma SessionWriteKeepsSessions(b: Book, b': Book, strict: bool, t: Tick, day: int, p: Purpose)
    requires Inv(b, strict) && SessionWrite(b, b', t, day, p)
    ensures forall d | d in b'.sessions :: b'.sessions[d].start >= 0 && SessionOk(b', d)
  {
    UpsertMarkerRows(b.rows, day, p, t.later);
    forall d | d in b'.sessions ensures b'.sessions[d].start >= 0 && SessionOk(b', d) {
      if d != day { assert SessionOk(b, d); }
    }
  }

  lemma SessionWriteKeepsInv(b: Book, b': Book, strict: bool, t: Tick, day: int, p: Purpose)
    requires Inv(b, strict) && SessionWrite(b, b', t, day, p) && OpenAgrees(b', day)
    ensures Inv(b', strict)
  {
    SessionWriteKeepsRows(b, b', strict, t, day, p);
    SessionWriteKeepsSessions(b, b', strict, t, day, p);
    forall d ensures OpenAgrees(b', d) {
      if d != day {
        assert OpenAgrees(b, d);
        MarkerKeepsRows(b, b', t, day, p, d);
        StillAgrees(b, b', d);
      }
    }
  }

  lemma OpeningCutoff(b: Book, strict: bool, t: Tick, day: int, amount: int)
    requires Inv(b, strict) && Ticks(b, t) && OpenDay(b, day, amount, t.now, t.later).Done?
    ensures Cutoff(OpenDay(b, day, amount, t.now, t.later).value, day) == t.later
  {
    UpsertMarkerTimes(b.rows, day, Start, t.later, b.clock, day, Start);
    UpsertMarkerTimes(b.rows, day, Start, t.later, b.clock, day, End);
    MarkerTimeBound(b.rows, day, End, b.clock);
  }

  /** A freshly opened shift counts nothing: its cutoff is the marker's own instant. */
  lemma NewShiftIsEmpty(b: Book, strict: bool, t: Tick, day: int, amount: int)
    requires Inv(b, strict) && Ticks(b, t) && OpenDay(b, day, amount, t.now, t.later).Done?
    ensures var b' := OpenDay(b, day, amount, t.now, t.later).value;
      Cutoff(b', day) == t.later && ShiftIds(b', day) == {} && ShiftNet(b', day) == 0
  {
    var b' := OpenDay(b, day, amount, t.now, t.later).value;
    OpeningCutoff(b, strict, t, day, amount);
    UpsertMarkerRows(b.rows, day, Start, t.later);
    NetNone(b'.rows, ShiftIds(b', day));
  }

  lemma OpenWrites(b: Book, strict: bool, t: Tick, amount: int)
    requires Inv(b, strict) && Ticks(b, t) && OpenDay(b, t.today, amount, t.now, t.later).Done?
    ensures SessionWrite(b, At(OpenDay(b, t.today, amount, t.now, t.later).value, t), t, t.today, Start)
  {
    UpsertMarkerRows(b.rows, t.today, Start, t.later);
  }

  lemma OpenedAgrees(b: Book, strict: bool, t: Tick, amount: int)
    requires Inv(b, strict) && Ticks(b, t) && OpenDay(b, t.today, amount, t.now, t.later).Done?
    ensures OpenAgrees(At(OpenDay(b, t.today, amount, t.now, t.later).value, t), t.today)
  {
    var b' := OpenDay(b, t.today, amount, t.now, t.later).value;
    NewShiftIsEmpty(b, strict, t, t.today, amount);
    assert ShiftIds(At(b', t), t.today) == ShiftIds(b', t.today);
  }

  lemma OpenKeepsInv(b: Book, strict: bool, t: Tick, amount: int)
    requires Inv(b, strict) && Ticks(b, t)
    ensures Inv(At(OrElse(b, OpenDay(b, t.today, amount, t.now, t.later)), t), strict)
  {
    var o := OpenDay(b, t.today, amount, t.now, t.later);
    if o.Refused? {
      TimePasses(b, strict, t);
    } else {
      OpenWrites(b, strict, t, amount);
      OpenedAgrees(b, strict, t, amount);
      SessionWriteKeepsInv(b, At(o.value, t), strict, t, t.today, Start);
    }
  }

  lemma CloseKeepsInv(b: Book, strict: bool, t: Tick, physical: Option<int>)
    requires Inv(b, strict) && Ticks(b, t)
    ensures Inv(At(OrElse(b, CloseDay(b, t.today, physical, t.now, t.later)), t), strict)
  {
    var o := CloseDay(b, t.today, physical, t.now, t.later);
    if o.Refused? || b.sessions[t.today].closed {
      TimePasses(b, strict, t);
    } else {
      assert SessionOk(b, t.today);
      UpsertMarkerRows(b.rows, t.today, End, t.later);
      SessionWriteKeepsInv(b, At(o.value, t), strict, t, t.today, End);
    }
  }

  lemma SweepKeepsInv(b: Book, strict: bool, t: Tick, day: int)
    requires Inv(b, strict) && Ticks(b, t) && day <= t.today
    ensures Inv(At(AutoCloseDay(b, day, t.later), t), strict)
  {
    if !IsOpen(b, day) {
      TimePasses(b, strict, t);
    } else {
      assert SessionOk(b, day);
      UpsertMarkerRows(b.rows, day, End, t.later);
      SessionWriteKeepsInv(b, At(AutoCloseDay(b, day, t.later), t), strict, t, day, End);
    }
  }

  /** Writes that touch neither rows, sessions nor balances. */
  lemma BookkeepingKeepsInv(b: Book, b': Book, strict: bool, t: Tick)
    requires Inv(b, strict) && Ticks(b, t)
    requires b' == At(b, t).(awaiting := b'.awaiting, openings := b'.openings)
    requires NoneHidden(b') && ChecklistOk(b')
    ensures Inv(b', strict)
  {
    forall d ensures OpenAgrees(b', d) {
      assert OpenAgrees(b, d);
      StillAgrees(b, b', d);
    }
    forall d | d in b'.sessions ensures SessionOk(b', d) {
      assert SessionOk(b, d);
    }
  }

  /* ---------- the shape of a step ---------- */

  predicate IsSessionStep(step: Step) { step.SuperAdminOpen? || step.EmployeeOpen? || step.ManualClose? || step.Sweep? }

  function SessionDay(t: Tick, step: Step): int { if step.Sweep? then step.day else t.today }
  function SessionMarker(step: Step): Purpose { if step.ManualClose? || step.Sweep? then End else Start }

  /** An opening or closing either changes nothing or rewrites one session and its marker. */
  lemma SessionStepShape(b: Book, strict: bool, t: Tick, step: Step)
    requires IsSessionStep(step)
    ensures var (b', at) := (Next(b, strict, t, step), SessionDay(t, step));
      && b'.awaiting == b.awaiting && b'.capital == b.capital
      && (b' == At(b, t)
          || (&& b'.rows == UpsertMarker(b.rows, at, SessionMarker(step), t.later)
              && b'.sessions.Keys == b.sessions.Keys + {at}
              && (forall d | d in b.sessions && d != at :: b'.sessions[d] == b.sessions[d])
              && (IsOpen(b', at) <==> !IsOpen(b, at))))
  {
  }

  /** The operational row a step leaves behind, if any. */
  ghost function AddedRow(b: Book, strict: bool, t: Tick, step: Step): Option<Row> {
    match step
    case Posting(date, p, u, code, cashIn, cashOut) =>
      var r := RowAt(t, date, p, u, code, cashIn, cashOut);
      if Post(b, strict, r, t.today, false).Done? then Some(r) else None
    case SendFunds(code, amount) =>
      if LatestBalance(b, t.today) >= amount then Some(TransferRow(t, code, amount, false)) else None
    case ReceiveFunds(no, code, amount, expense) =>
      var r := TransferRow(t, code, amount, !expense);
      Some(r.(voided := !ReceiveCash(b, strict, t, code, amount, expense).1))
    case ReceiveFailed(code, amount, expense, _) => Some(TransferRow(t, code, amount, !expense).(voided := true))
    case _ => None
  }

  lemma PostingAddsRow(b: Book, strict: bool, t: Tick, step: Step)
    requires Inv(b, strict) && Admissible(b, t, step) && step.Posting? && AddedRow(b, strict, t, step).Some?
    ensures FreshRow(b, Next(b, strict, t, step), t, AddedRow(b, strict, t, step).value)
  {
  }

  lemma SendAddsRow(b: Book, strict: bool, t: Tick, step: Step)
    requires Inv(b, strict) && Admissible(b, t, step) && step.SendFunds? && AddedRow(b, strict, t, step).Some?
    ensures FreshRow(b, Next(b, strict, t, step), t, AddedRow(b, strict, t, step).value)
  {
    SendNeverStrandsRow(b, strict, t, step.code, step.amount);
  }

  lemma ReceiveAddsRow(b: Book, strict: bool, t: Tick, step: Step)
    requires Inv(b, strict) && Admissible(b, t, step) && step.ReceiveFunds?
    ensures AddedRow(b, strict, t, step).Some?
        && FreshRow(b, Next(b, strict, t, step), t, AddedRow(b, strict, t, step).value)
  {
    var r := TransferRow(t, step.code, step.amount, !step.expense);
    assert VoidRow(AddRow(b, r), |b.rows|).rows == b.rows + [r.(voided := true)];
  }

  lemma ReceiveFailedAddsRow(b: Book, strict: bool, t: Tick, step: Step)
    requires Inv(b, strict) && Admissible(b, t, step) && step.ReceiveFailed?
    ensures AddedRow(b, strict, t, step).Some?
        && FreshRow(b, Next(b, strict, t, step), t, AddedRow(b, strict, t, step).value)
  {
    if step.balanceWritten && ReceiveCash(b, strict, t, step.code, step.amount, step.expense).1 {
      UndoRestores(b, strict, t, step.code, step.amount, step.expense);
    }
  }

  lemma StepAddsRow(b: Book, strict: bool, t: Tick, step: Step)
    requires Inv(b, strict) && Admissible(b, t, step) && AddedRow(b, strict, t, step).Some?
    ensures FreshRow(b, Next(b, strict, t, step), t, AddedRow(b, strict, t, step).value)
  {
    match step
    case Posting(_, _, _, _, _, _) => PostingAddsRow(b, strict, t, step);
    case SendFunds(_, _) => SendAddsRow(b, strict, t, step);
    case ReceiveFunds(_, _, _, _) => ReceiveAddsRow(b, strict, t, step);
    case ReceiveFailed(_, _, _, _) => ReceiveFailedAddsRow(b, strict, t, step);
  }

  lemma StepAddsNoRow(b: Book, strict: bool, t: Tick, step: Step)
    requires Inv(b, strict) && Admissible(b, t, step) && AddedRow(b, strict, t, step).None? && !IsSessionStep(step)
    ensures var b' := Next(b, strict, t, step);
      b'.rows == b.rows && b'.sessions == b.sessions && b'.balances == b.balances && forall d :: SameDayRows(b, b', d)
  {
  }

  /** Every admissible step keeps the invariant. */
  lemma StepKeepsInv(b: Book, strict: bool, t: Tick, step: Step)
    requires Inv(b, strict) && Admissible(b, t, step)
    ensures Inv(Next(b, strict, t, step), strict)
  {
    match step
    case SuperAdminOpen(counted) => OpenKeepsInv(b, strict, t, counted);
    case EmployeeOpen(counted) =>
      if counted != ExpectedOpening(b, t.today) { TimePasses(b, strict, t); } else {
        OpenKeepsInv(b, strict, t, counted);
      }
    case Posting(_, _, _, _, _, _) => PostingKeepsInv(b, strict, t, step);
    case SendFunds(_, _) => SendKeepsInv(b, strict, t, step);
    case ReceiveFunds(_, _, _, _) => ReceiveKeepsInv(b, strict, t, step);
    case ReceiveFailed(_, _, _, _) => ReceiveFailedKeepsInv(b, strict, t, step);
    case ReleaseRequest(_) => BookkeepingKeepsInv(b, Next(b, strict, t, step), strict, t);
    case ManualClose(physical) => CloseKeepsInv(b, strict, t, physical);
    case Sweep(day) => SweepKeepsInv(b, strict, t, day);
    case GateCheck(_) => BookkeepingKeepsInv(b, Next(b, strict, t, step), strict, t);
    case CompleteChecklist => BookkeepingKeepsInv(b, Next(b, strict, t, step), strict, t);
  }

  /** So every state of every run satisfies it. */
  lemma {:induction false} RunKeepsInv(b: Book, strict: bool, trace: seq<(Tick, Step)>)
    requires Inv(b, strict) && AdmissibleRun(b, strict, trace)
    ensures Inv(Run(b, strict, trace), strict)
  {
    if trace != [] {
      var n := |trace| - 1;
      LastStep(b, strict, trace);
      RunKeepsInv(b, strict, trace[..n]);
      StepKeepsInv(Run(b, strict, trace[..n]), strict, trace[n].0, trace[n].1);
    }
  }

  lemma ReachableInv(b: Book, strict: bool)
    requires Reachable(b, strict)
    ensures Inv(b, strict)
  {
    var b0, trace :| Fresh(b0) && AdmissibleRun(b0, strict, trace) && b == Run(b0, strict, trace);
    assert Inv(b0, strict);
    RunKeepsInv(b0, strict, trace);
  }
}
