/** Several shifts on one date: the cutoff and the seal split the day's rows, none is counted twice. */
module LedgerShifts {
  import opened Options
  import opened Ledger
  import opened LedgerLemmas
  import opened LedgerRuns
  import opened LedgerInvariant
  import opened LedgerTheorems

  /** A finished shift: its date, its cutoff, the instant it was closed, and the rows it counted. */
  datatype Shift = Shift(day: int, from: int, until: int, ids: set<nat>)

  /** The day whose shift a step ends. */
  ghost function EndedDay(b: Book, strict: bool, t: Tick, step: Step): Option<int> {
    var day := if step.Sweep? then step.day else t.today;
    if (step.ManualClose? || step.Sweep?) && IsOpen(b, day) then Some(day) else None
  }

  /** History of a run: the shifts its closings ended, oldest first. */
  ghost function Shifts(b: Book, strict: bool, trace: seq<(Tick, Step)>): seq<Shift> {
    if trace == [] then []
    else
      var before := Run(b, strict, trace[..|trace| - 1]);
      var (t, step) := trace[|trace| - 1];
      var earlier := Shifts(b, strict, trace[..|trace| - 1]);
      match EndedDay(before, strict, t, step)
      case None => earlier
      case Some(day) => earlier + [Shift(day, Cutoff(before, day), t.now, ShiftIds(before, day))]
  }

  /** The rows that move the cash of `day` and were created in `[from, until)`. */
  function Between(b: Book, day: int, from: int, until: int): set<nat> {
    set i: nat | i < |b.rows| && b.rows[i].Counts(day, b.awaiting) && from <= b.rows[i].createdAt < until
  }

  ghost predicate LogOk(b: Book, log: seq<Shift>) {
    && (forall k | 0 <= k < |log| :: ShiftOk(b, log[k]))
    && (forall k, l | 0 <= k < l < |log| && log[k].day == log[l].day :: log[k].until <= log[l].from)
    && (forall k, d | 0 <= k < |log| && log[k].day == d && IsOpen(b, d) :: log[k].until <= Cutoff(b, d))
  }

  ghost predicate ShiftOk(b: Book, s: Shift) {
    s.from <= s.until <= b.clock && s.day in b.sessions && s.ids == Between(b, s.day, s.from, s.until)
  }

  /** Later steps add no row to an interval that is already over. */
  lemma StepKeepsPast(b: Book, strict: bool, t: Tick, step: Step, day: int, from: int, until: int)
    requires Inv(b, strict) && Admissible(b, t, step) && until <= t.now
    ensures Between(Next(b, strict, t, step), day, from, until) == Between(b, day, from, until)
  {
    var b' := Next(b, strict, t, step);
    if AddedRow(b, strict, t, step).Some? {
      StepAddsRow(b, strict, t, step);
      var r := AddedRow(b, strict, t, step).value;
      FreshRowSameDay(b, b', strict, t, r, day);
      assert forall i | 0 <= i < |b.rows| :: b'.rows[i] == b.rows[i];
      assert b'.rows[|b.rows|] == r;
    } else if IsSessionStep(step) {
      SessionStepRows(b, strict, t, step, day);
    } else {
      StepAddsNoRow(b, strict, t, step);
      assert SameDayRows(b, b', day);
    }
  }

  lemma SessionStepRows(b: Book, strict: bool, t: Tick, step: Step, day: int)
    requires Inv(b, strict) && Admissible(b, t, step) && IsSessionStep(step)
    ensures SameDayRows(b, Next(b, strict, t, step), day)
  {
    var b' := Next(b, strict, t, step);
    if b'.rows != b.rows {
      MarkerKeepsRows(b, b', t, if step.Sweep? then step.day else t.today,
          if step.ManualClose? || step.Sweep? then End else Start, day);
    }
  }

  /** A closing ends the shift it finds: the rows counted are those created since the cutoff. */
  lemma EndedShiftOk(b: Book, strict: bool, t: Tick, day: int)
    requires Inv(b, strict) && Ticks(b, t) && IsOpen(b, day)
    ensures ShiftIds(b, day) == Between(b, day, Cutoff(b, day), t.now)
    ensures Cutoff(b, day) <= b.clock
  {
    SealIsRedundant(b, strict, day);
    CutoffInPast(b, strict, day);
  }

  lemma SessionsStay(b: Book, strict: bool, t: Tick, step: Step, day: int)
    requires Inv(b, strict) && Admissible(b, t, step) && day in b.sessions
    ensures day in Next(b, strict, t, step).sessions
  {
    if AddedRow(b, strict, t, step).Some? {
      StepAddsRow(b, strict, t, step);
    }
  }

  /** A shift that is open after the step was open before, or starts after everything logged. */
  lemma OpenCutoffAfterStep(b: Book, strict: bool, t: Tick, step: Step, day: int)
    requires Inv(b, strict) && Admissible(b, t, step) && IsOpen(Next(b, strict, t, step), day)
    ensures if IsOpen(b, day) then Cutoff(Next(b, strict, t, step), day) == Cutoff(b, day)
            else Cutoff(Next(b, strict, t, step), day) >= t.now
    ensures IsOpen(b, day) ==> EndedDay(b, strict, t, step) != Some(day)
  {
    if IsOpen(b, day) {
      StepKeepsPreOpenFunds(b, strict, t, step, day);
    } else if AddedRow(b, strict, t, step).Some? {
      StepAddsRow(b, strict, t, step);
    }
  }

  lemma StepKeepsLog(b: Book, strict: bool, t: Tick, step: Step, log: seq<Shift>)
    requires Inv(b, strict) && Admissible(b, t, step) && LogOk(b, log)
    ensures var log' := match EndedDay(b, strict, t, step)
              case None => log
              case Some(day) => log + [Shift(day, Cutoff(b, day), t.now, ShiftIds(b, day))];
            LogOk(Next(b, strict, t, step), log')
  {
    var b' := Next(b, strict, t, step);
    var ended := EndedDay(b, strict, t, step);
    if ended.Some? {
      EndedShiftOk(b, strict, t, ended.value);
    }
    var log' := match ended
      case None => log
      case Some(day) => log + [Shift(day, Cutoff(b, day), t.now, ShiftIds(b, day))];
    forall k | 0 <= k < |log'| ensures ShiftOk(b', log'[k]) {
      assert k < |log| ==> ShiftOk(b, log[k]);
      StepKeepsPast(b, strict, t, step, log'[k].day, log'[k].from, log'[k].until);
      SessionsStay(b, strict, t, step, log'[k].day);
    }
    forall k, d | 0 <= k < |log'| && log'[k].day == d && IsOpen(b', d) ensures log'[k].until <= Cutoff(b', d) {
      assert k < |log| ==> ShiftOk(b, log[k]);
      OpenCutoffAfterStep(b, strict, t, step, d);
    }
  }

  lemma {:induction false} RunKeepsLog(b: Book, strict: bool, trace: seq<(Tick, Step)>)
    requires Inv(b, strict) && AdmissibleRun(b, strict, trace)
    ensures LogOk(Run(b, strict, trace), Shifts(b, strict, trace))
  {
    if trace != [] {
      var n := |trace| - 1;
      LastStep(b, strict, trace);
      RunKeepsLog(b, strict, trace[..n]);
      RunKeepsInv(b, strict, trace[..n]);
      StepKeepsLog(Run(b, strict, trace[..n]), strict, trace[n].0, trace[n].1, Shifts(b, strict, trace[..n]));
    }
  }

  /* ---------- the two statements ---------- */

  lemma HistoryOk(b0: Book, strict: bool, trace: seq<(Tick, Step)>)
    requires Fresh(b0) && AdmissibleRun(b0, strict, trace)
    ensures Inv(Run(b0, strict, trace), strict) && LogOk(Run(b0, strict, trace), Shifts(b0, strict, trace))
  {
    assert Inv(b0, strict);
    RunKeepsLog(b0, strict, trace);
    RunKeepsInv(b0, strict, trace);
  }

  lemma LoggedDisjoint(b: Book, strict: bool, log: seq<Shift>)
    requires Inv(b, strict) && LogOk(b, log)
    ensures forall k, l | 0 <= k < l < |log| :: log[k].ids !! log[l].ids
    ensures forall k, d | 0 <= k < |log| :: log[k].ids !! RunningIds(b, d)
  {
    forall k, l | 0 <= k < l < |log| ensures log[k].ids !! log[l].ids {
      assert ShiftOk(b, log[k]) && ShiftOk(b, log[l]);
    }
    forall k, d | 0 <= k < |log| ensures log[k].ids !! RunningIds(b, d) {
      assert ShiftOk(b, log[k]);
      if IsOpen(b, d) { SealIsRedundant(b, strict, d); }
    }
  }

  /** No row is counted by two shifts, finished or running. */
  lemma RowCountedAtMostOnce(b0: Book, strict: bool, trace: seq<(Tick, Step)>)
    requires Fresh(b0) && AdmissibleRun(b0, strict, trace)
    ensures var b, log := Run(b0, strict, trace), Shifts(b0, strict, trace);
      && (forall k, l | 0 <= k < l < |log| :: log[k].ids !! log[l].ids)
      && (forall k, d | 0 <= k < |log| :: log[k].ids !! RunningIds(b, d))
  {
    HistoryOk(b0, strict, trace);
    LoggedDisjoint(Run(b0, strict, trace), strict, Shifts(b0, strict, trace));
  }

  /** The rows the shift now open on `day` counts. */
  function RunningIds(b: Book, day: int): set<nat> { if IsOpen(b, day) then ShiftIds(b, day) else {} }

  function LoggedIds(log: seq<Shift>, day: int): set<nat> {
    if log == [] then {}
    else LoggedIds(log[..|log| - 1], day) + (if log[|log| - 1].day == day then log[|log| - 1].ids else {})
  }

  /** Sum of the nets of the finished shifts of `day`. */
  function LoggedNet(rows: seq<Row>, log: seq<Shift>, day: int): int {
    if log == [] then 0
    else LoggedNet(rows, log[..|log| - 1], day) + (if log[|log| - 1].day == day then Net(rows, log[|log| - 1].ids)
        else 0)
  }

  lemma {:induction false} LoggedIdsMember(log: seq<Shift>, day: int, i: nat)
    ensures i in LoggedIds(log, day) <==> exists k :: 0 <= k < |log| && log[k].day == day && i in log[k].ids
  {
    if log != [] {
      var n := |log| - 1;
      LoggedIdsMember(log[..n], day, i);
      if k :| 0 <= k < |log| && log[k].day == day && i in log[k].ids {
        if k < n { assert log[..n][k] == log[k]; }
      }
    }
  }

  lemma {:induction false} LoggedNetIsNet(rows: seq<Row>, log: seq<Shift>, day: int)
    requires forall k, l | 0 <= k < l < |log| :: log[k].ids !! log[l].ids
    ensures LoggedNet(rows, log, day) == Net(rows, LoggedIds(log, day))
  {
    if log == [] {
      NetNone(rows, {});
    } else {
      var n := |log| - 1;
      LoggedNetIsNet(rows, log[..n], day);
      forall i: nat | i in LoggedIds(log[..n], day) ensures i !in log[n].ids {
        LoggedIdsMember(log[..n], day, i);
        var k :| 0 <= k < n && log[..n][k].day == day && i in log[..n][k].ids;
        assert log[..n][k] == log[k];
      }
      if log[n].day == day {
        NetUnion(rows, LoggedIds(log[..n], day), log[n].ids);
      } else {
        assert LoggedIds(log, day) == LoggedIds(log[..n], day);
      }
    }
  }

  /** Rows that move the cash of `day` but were created during none of its shifts. */
  ghost function OutsideIds(b: Book, log: seq<Shift>, day: int): set<nat> {
    set i: nat | i < |b.rows| && b.rows[i].Counts(day, b.awaiting)
                 && !(exists k ::
                     0 <= k < |log| && log[k].day == day && log[k].from <= b.rows[i].createdAt < log[k].until)
                 && !(IsOpen(b, day) && b.rows[i].createdAt >= Cutoff(b, day))
  }

  /** Every row of the day falls in exactly one part. */
  lemma PartsOfDay(b: Book, strict: bool, log: seq<Shift>, day: int)
    requires Inv(b, strict) && LogOk(b, log)
    ensures LoggedIds(log, day) <= FullDayIds(b, day)
    ensures LoggedIds(log, day) !! OutsideIds(b, log, day)
    ensures FullDayIds(b, day) == LoggedIds(log, day) + RunningIds(b, day) + OutsideIds(b, log, day)
  {
    if IsOpen(b, day) {
      SealIsRedundant(b, strict, day);
    }
    forall i: nat
      ensures i in LoggedIds(log, day) ==> i in FullDayIds(b, day) && i !in OutsideIds(b, log, day)
      ensures i in FullDayIds(b, day) ==>
          i in LoggedIds(log, day) || i in RunningIds(b, day) || i in OutsideIds(b, log, day)
    {
      LoggedIdsMember(log, day, i);
      if i in LoggedIds(log, day) {
        var k :| 0 <= k < |log| && log[k].day == day && i in log[k].ids;
        assert ShiftOk(b, log[k]);
      }
    }
  }

  lemma PartsAddUp(b: Book, strict: bool, log: seq<Shift>, day: int)
    requires Inv(b, strict) && LogOk(b, log)
    ensures FullDayNet(b, day) == LoggedNet(b.rows, log, day) + Net(b.rows, RunningIds(b, day))
        + Net(b.rows, OutsideIds(b, log, day))
  {
    var logged, running, outside := LoggedIds(log, day), RunningIds(b, day), OutsideIds(b, log, day);
    LoggedDisjoint(b, strict, log);
    LoggedNetIsNet(b.rows, log, day);
    PartsOfDay(b, strict, log, day);
    forall i: nat | i in logged ensures i !in running {
      LoggedIdsMember(log, day, i);
    }
    NetUnion(b.rows, logged, running);
    NetUnion(b.rows, logged + running, outside);
  }

  /** The full-day net is the sum of the shift nets plus the rows created outside every shift. */
  lemma FullDayIsSumOfShifts(b0: Book, strict: bool, trace: seq<(Tick, Step)>, day: int)
    requires Fresh(b0) && AdmissibleRun(b0, strict, trace)
    ensures var b, log := Run(b0, strict, trace), Shifts(b0, strict, trace);
      FullDayNet(b, day) == LoggedNet(b.rows, log, day) + Net(b.rows, RunningIds(b, day))
          + Net(b.rows, OutsideIds(b, log, day))
  {
    HistoryOk(b0, strict, trace);
    PartsAddUp(Run(b0, strict, trace), strict, Shifts(b0, strict, trace), day);
  }
}
