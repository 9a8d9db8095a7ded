/** The finance services of one branch as they run: tables held in fields, rewritten write by write.

    `Valid` says that the tables are those of some run of `LedgerRuns`.  Each service call (Start Day, End
    Day, the sweep, a posting, the gate, the checklist) performs steps of such a run and keeps it, so the
    theorems about reachable books hold between any two calls; the other methods are the reads and writes
    those calls are made of. */
module BranchLedger {
  import opened Options
  import opened Ledger
  import opened LedgerReads
  import opened LedgerRuns
  import opened LedgerInvariant
  import opened LedgerTheorems
  import opened LedgerEffects
  import opened OpeningCash
  import opened ReadCache

  class Branch {
    var sessions: map<int, Session>
    var balances: map<int, Balance>
    var openings: map<int, Checklist>
    var rows: seq<Row>
    var awaiting: set<string>
    var clock: int
    var today: int
    const capital: int
    const strict: bool

    /** The tables as one value. */
    function View(): Book
      reads this
    {
      Book(sessions, balances, openings, rows, awaiting, capital, clock, today)
    }

    ghost predicate Valid()
      reads this
    {
      Reachable(View(), strict)
    }

    constructor (capital: nat, strict: bool, clock: nat, today: int)
      ensures Valid() && Fresh(View()) && awaiting == {} && this.strict == strict
    {
      this.sessions, this.balances, this.openings, this.rows, this.awaiting := map[], map[], map[], [], {};
      this.clock, this.today, this.capital, this.strict := clock, today, capital, strict;
      new;
      ReachFresh(View(), strict);
    }

    /** A clock reading strictly after the previous one. */
    method ReadClock() returns (now: int)
      modifies `clock
      ensures clock == now > old(clock)
    {
      var elapsed: nat :| elapsed >= 1;
      clock := clock + elapsed;
      now := clock;
    }

    /* ---------- balances ---------- */

    /** Gate, funds check, then update or create the day's balance row.  A refusal changes nothing. */
    method ApplyNetChange(day: int, delta: int, bypassGate: bool) returns (refused: Option<Refusal>)
      modifies `balances
      ensures match Ledger.ApplyNetChange(old(View()), strict, day, delta, bypassGate)
              case Done(b') => refused == None && View() == b'
              case Refused(why) => refused == Some(why) && View() == old(View())
      ensures delta != 0 && !bypassGate && day !in sessions ==> refused == Some(RequiresStartingBalance)
      ensures delta != 0 && !bypassGate && day in sessions && sessions[day].closed ==> refused == Some(SessionClosed)
      ensures delta != 0 && (bypassGate || IsOpen(old(View()), day)) && day in old(balances) ==>
        && refused == (if strict && old(balances)[day].ending + delta < 0 then Some(InsufficientFunds) else None)
        && (refused.None? ==>
              balances == old(balances)[day := Balance(old(balances)[day].starting, old(balances)[day].ending + delta)])
    {
      var o := ApplyNetChangeTo(View(), strict, day, delta, bypassGate);
      match o
      case Refused(why) => refused := Some(why);
      case Done(b') =>
        balances := b'.balances;
        refused := None;
    }

    /** Balance row of a confirmed opening or closing count. */
    method PersistConfirmation(day: int, opening: bool, confirmed: int) returns (stored: Balance)
      requires !opening ==> day in sessions
      modifies `balances
      ensures stored == if opening then StartingBalance(confirmed) else ClosingBalance(old(View()), day, confirmed)
      ensures View() == old(View()).(balances := old(balances)[day := stored])
    {
      var starting, ending;
      if opening {
        starting := confirmed;
        ending := starting;
      } else {
        starting := sessions[day].start;
        if confirmed > 0 {
          ending := confirmed;
        } else {
          var net := SumOperationalNetCash(View(), day);
          ending := starting + net;
        }
      }
      if ending < 0 { ending := 0; }
      if opening && ending < starting { ending := starting; }
      stored := Balance(starting, ending);
      balances := balances[day := stored];
    }

    method UpsertJournalMarker(day: int, p: Purpose, at: int)
      modifies `rows
      ensures View() == old(View()).(rows := UpsertMarker(old(rows), day, p, at))
    {
      var found: Option<nat> := None;
      for i := 0 to |rows|
        invariant found == FindMarker(rows[..i], day, p)
      {
        assert rows[..i + 1][..i] == rows[..i];
        if found.None? && rows[i].date == day && rows[i].purpose == p {
          found := Some(i);
        }
      }
      assert rows[..|rows|] == rows;
      if found.Some? {
        rows := rows[found.value := rows[found.value].(cashIn := 0, cashOut := 0, updatedAt := at)];
      } else {
        rows := rows + [Row(day, p, Goods, "", 0, 0, at, at, false)];
      }
    }

    /* ---------- day sessions ---------- */

    /** Start Day.  An employee must enter the expected amount, which the finance service reads, or has in
        its cache, before the transaction; an open at another amount is a super admin's. */
    method SubmitStartingBalance(day: int, superAdmin: bool, amount: int, finance: OpeningCashReader)
      returns (refused: Option<Refusal>, ghost t: Tick, ghost read: Option<ExpectedReads>)
      requires Valid() && finance.Valid() && today <= day
      modifies this, finance
      ensures Valid() && finance.Valid()
      ensures t.today == day && old(clock) < t.now <= t.later
      ensures read.Some? <==> amount >= 0 && !superAdmin
      ensures read.Some? ==>
        ExpectedOk(CallerWindow(finance.database, old(finance.clock), finance.clock), read.value, day)
      ensures refused.None? <==>
        && amount >= 0 && !IsOpen(old(View()), day)
        && (read.Some? ==> amount == ExpectedOf(finance.database, read.value, day))
      ensures refused.Some? ==>
        refused.value == if amount < 0 then NegativeAmount
                         else if read.Some? && amount != ExpectedOf(finance.database, read.value, day)
                             then StartMismatch
                         else AlreadyOpen
      ensures refused.None? ==> View() == Next(old(View()), strict, t, SuperAdminOpen(amount))
      ensures refused.Some? ==> View() == At(old(View()), t)
      ensures refused.None? ==> OpenedAt(old(View()), View(), t, amount) && OtherDaysKept(old(View()), View(), day)
      ensures refused.None? && read.Some? ==>
        CoversWhatWasRead(finance.database, read.value, day, View().sessions[day].start)
      ensures read.Some? && CallerWindow(finance.database, old(finance.clock), finance.clock).Quiet(old(View())) ==>
        View() == Next(old(View()), strict, t, EmployeeOpen(amount))
    {
      ghost var before := View();
      read := None;
      if amount < 0 {
        t := Touch(day);
        ReachLater(before, strict, t);
        return Some(NegativeAmount), t, read;
      }
      if !superAdmin {
        var expected; ghost var r;
        expected, r := ReadExpected(finance, day, View());
        read := Some(r);
        if expected != amount {
          t := Touch(day);
          ReachLater(before, strict, t);
          EmployeeOpens(before, strict, t, amount);
          return Some(StartMismatch), t, read;
        }
      }
      refused, t := OpenInTransaction(day, amount);
      EmployeeOpens(before, strict, t, amount);
    }

    /** Time passes and nothing is written. */
    method Touch(day: int) returns (ghost t: Tick)
      modifies `clock, `today
      ensures t.today == day && old(clock) < t.now == t.later && View() == At(old(View()), t)
    {
      today := day;
      var now := ReadClock();
      t := Tick(day, now, now);
    }

    method OpenInTransaction(day: int, amount: int) returns (refused: Option<Refusal>, ghost t: Tick)
      requires Valid() && today <= day && amount >= 0
      modifies this
      ensures Valid() && t.today == day && old(clock) < t.now <= t.later
      ensures refused == if IsOpen(old(View()), day) then Some(AlreadyOpen) else None
      ensures refused.None? ==> View() == Next(old(View()), strict, t, SuperAdminOpen(amount))
      ensures refused.Some? ==> View() == At(old(View()), t)
      ensures refused.None? ==> OpenedAt(old(View()), View(), t, amount) && OtherDaysKept(old(View()), View(), day)
    {
      ghost var before := View();
      t := Touch(day);
      if day in sessions && !sessions[day].closed {
        ReachLater(before, strict, t);
        return Some(AlreadyOpen), t;
      }
      var now := clock;
      var later := WriteOpen(day, now, amount);
      t := Tick(day, now, later);
      ReachNext(before, strict, t, SuperAdminOpen(amount));
      OpenEffect(before, strict, t, amount);
      refused := None;
    }

    /** The writes of Start Day. */
    method WriteOpen(day: int, now: int, amount: int) returns (later: int)
      requires amount >= 0 && !IsOpen(View(), day) && now <= clock
      modifies this
      ensures clock == later && now <= later && old(clock) < later && today == old(today)
      ensures View() == OpenDay(old(View()), day, amount, now, later).value.(clock := later)
    {
      var sealedIds := ListSealedBefore(rows, day, now);
      var _ := PersistConfirmation(day, true, amount);
      sessions := sessions[day := Session(amount, false, now, now, sealedIds)];
      later := ReadClock();
      UpsertJournalMarker(day, Start, later);
      openings := openings[day := Pending];
    }

    /** The writes of End Day, with the count to store. */
    method WriteClose(day: int, now: int, confirmed: int) returns (later: int)
      requires day in sessions && now <= clock
      modifies this
      ensures clock == later && now <= later && old(clock) < later && today == old(today)
      ensures View() == old(View()).(
        balances := old(balances)[day := ClosingBalance(old(View()), day, confirmed)],
        sessions := old(sessions)[day := old(sessions)[day].(closed := true, cutoffAt := now,
            sealedIds := SealedBefore(old(rows), day, now))],
        openings := old(openings) - {day},
        rows := UpsertMarker(old(rows), day, End, later), clock := later)
    {
      var sealedIds := ListSealedBefore(rows, day, now);
      var _ := PersistConfirmation(day, false, confirmed);
      sessions := sessions[day := sessions[day].(closed := true, cutoffAt := now, sealedIds := sealedIds)];
      openings := openings - {day};
      later := ReadClock();
      UpsertJournalMarker(day, End, later);
    }

    /** End Day by hand. */
    method CloseTodayManual(day: int, physical: Option<int>) returns (refused: Option<Refusal>, ghost t: Tick)
      requires Valid() && today <= day
      modifies this
      ensures Valid() && t.today == day && old(clock) < t.now <= t.later
      ensures View() == Next(old(View()), strict, t, ManualClose(physical))
      ensures refused == if day in old(sessions) then None else Some(NoSession)
      ensures IsOpen(old(View()), day) ==>
        && day in old(balances) && OtherDaysKept(old(View()), View(), day) && sessions[day].closed && day !in openings
        && balances[day] == Balance(old(sessions)[day].start, StoredAtClose(old(View()), day, physical))
    {
      ghost var before := View();
      refused, t := CloseInTransaction(day, physical);
      CloseEffect(before, strict, t, physical);
      ReachNext(before, strict, t, ManualClose(physical));
    }

    method CloseInTransaction(day: int, physical: Option<int>) returns (refused: Option<Refusal>, ghost t: Tick)
      modifies this
      ensures t.today == day && old(clock) < t.now <= t.later
      ensures View() == Next(old(View()), strict, t, ManualClose(physical))
      ensures refused == if day in old(sessions) then None else Some(NoSession)
    {
      ghost var before := View();
      today := day;
      var now := ReadClock();
      t := Tick(day, now, now);
      if day !in sessions { return Some(NoSession), t; }
      refused := None;
      if sessions[day].closed { return; }
      var systemEnding := ComputeOpenSessionBookEnding(View(), day);
      var confirmed := if physical.Some? then physical.value else systemEnding.value;
      BookEndingIgnoresClock(before, View(), day);
      var later := WriteClose(day, now, confirmed);
      t := Tick(day, now, later);
    }

    /** One transaction of the 6 PM sweep. */
    method AutoCloseOne(day: int) returns (ghost t: Tick)
      modifies this
      ensures t.today == today == old(today) && old(clock) < t.now <= t.later
      ensures View() == Next(old(View()), strict, t, Sweep(day))
    {
      var now := ReadClock();
      t := Tick(today, now, now);
      if day !in sessions || sessions[day].closed { return; }
      assert ShiftIds(View(), day) == ShiftIds(old(View()), day);
      var _ := PersistConfirmation(day, false, 0);
      sessions := sessions[day := sessions[day].(closed := true)];
      openings := openings - {day};
      var later := ReadClock();
      UpsertJournalMarker(day, End, later);
      t := Tick(today, now, later);
    }

    /** The sweep of one session, as one more step of a run. */
    method SweepOne(day: int, ghost b0: Book, ghost trace: seq<(Tick, Step)>) returns (ghost longer: seq<(Tick, Step)>)
      requires Valid() && day in sessions && day <= today
      requires AdmissibleRun(b0, strict, trace) && View() == Run(b0, strict, trace)
      requires forall x | x in trace :: x.1.Sweep?
      modifies this
      ensures Valid()
      ensures AdmissibleRun(b0, strict, longer) && View() == Run(b0, strict, longer)
      ensures forall x | x in longer :: x.1.Sweep?
      ensures sessions.Keys == old(sessions.Keys) && today == old(today) && !IsOpen(View(), day)
      ensures forall d | IsOpen(View(), d) :: IsOpen(old(View()), d)
      ensures IsOpen(old(View()), day) ==> day in old(balances) && SweptTo(old(View()), View(), day)
      ensures forall d | d != day :: SameDay(old(View()), View(), d)
    {
      ghost var before := View();
      ghost var t := AutoCloseOne(day);
      SweepEffect(before, strict, t, day);
      ReachNext(before, strict, t, Sweep(day));
      OneMoreStep(b0, strict, trace, t, Sweep(day));
      longer := trace + [(t, Sweep(day))];
    }

    /** The sweep: every session found open is closed, one transaction each, in any order.  It is a run
        of sweep steps, and no session of the branch is open afterwards. */
    method AutoCloseStaleOpenSessions() returns (ghost trace: seq<(Tick, Step)>)
      requires Valid()
      modifies this
      ensures Valid()
      ensures forall x | x in trace :: x.1.Sweep?
      ensures AdmissibleRun(old(View()), strict, trace) && View() == Run(old(View()), strict, trace)
      ensures sessions.Keys == old(sessions.Keys)
      ensures forall d :: !IsOpen(View(), d)
      ensures forall d | IsOpen(old(View()), d) :: d in old(balances) && SweptTo(old(View()), View(), d)
      ensures forall d | !IsOpen(old(View()), d) :: SameDay(old(View()), View(), d)
    {
      ghost var b0 := View();
      trace := [];
      var stale := set d | d in sessions && !sessions[d].closed;
      ReachableInv(b0, strict);
      while exists d :: d in stale
        invariant Valid() && stale <= sessions.Keys == b0.sessions.Keys && today == b0.today
        invariant forall x | x in trace :: x.1.Sweep?
        invariant AdmissibleRun(b0, strict, trace) && View() == Run(b0, strict, trace)
        invariant SweptSoFar(b0, View(), stale)
        decreases |stale|
      {
        var d :| d in stale;
        ghost var before := View();
        trace := SweepOne(d, b0, trace);
        SweptOneMore(b0, before, View(), stale, d);
        stale := stale - {d};
      }
    }

    /** Repairs an open session's cutoff, seal and balance row.  No service calls it; it keeps the invariant
        exactly when the correction for transfers received before opening does not fire. */
    method ReconcileOpenSession(day: int)
      modifies this
      ensures clock >= old(clock)
      ensures View() == Reconcile(old(View()), day, clock).(clock := clock)
      ensures old(Valid()) ==> (Inv(View(), strict) <==> !CorrectionFires(old(View()), day))
    {
      ghost var before := View();
      if Valid() {
        ReachableInv(before, strict);
        ReconcileKeepsInvExactly(before, strict, day, clock);
        if IsOpen(before, day) { RealignKeepsShift(before, strict, day, clock); }
      }
      if day !in sessions || sessions[day].closed { return; }
      var cutoff := ResolveOperationalCutoff(View(), day);
      if cutoff <= 0 {
        cutoff := ReadClock();
      }
      var sealedIds := ListSealedBefore(rows, day, cutoff);
      sessions := sessions[day := sessions[day].(cutoffAt := cutoff, sealedIds := sealedIds)];
      assert View() == Realign(before, day, clock).(clock := clock);
      var ending := ComputeOpenSessionBookEnding(View(), day);
      BookEndingIgnoresClock(Realign(before, day, clock), View(), day);
      balances := balances[day := Balance(sessions[day].start, ending.value)];
    }

    /* ---------- postings ---------- */

    /** A posting in one transaction: a refused balance change takes the journal row back with it.  The row
        carries the client's date, the balance is that of `day`. */
    method Post(day: int, date: int, p: Purpose, u: UnitTag, code: string, cashIn: nat, cashOut: nat)
      returns (refused: Option<Refusal>, ghost t: Tick)
      requires Valid() && today <= day
      modifies this
      ensures t.today == day && old(clock) < t.now <= t.later
      ensures View() == Next(old(View()), strict, t, Posting(date, p, u, code, cashIn, cashOut))
      ensures refused.Some? ==> rows == old(rows) && balances == old(balances)
      ensures cashIn == cashOut ==> refused == None && balances == old(balances)
      ensures cashIn != cashOut && day !in old(sessions) ==> refused == Some(RequiresStartingBalance)
      ensures cashIn != cashOut && day in old(sessions) && old(sessions)[day].closed ==> refused == Some(SessionClosed)
      ensures cashIn != cashOut && IsOpen(old(View()), day) ==>
        && day in old(balances)
        && var ending := old(balances)[day].ending + cashIn - cashOut;
           && refused == (if strict && ending < 0 then Some(InsufficientFunds) else None)
           && (refused.None? ==> balances == old(balances)[day := Balance(old(balances)[day].starting, ending)])
      ensures refused.None? ==> rows == old(rows) + [Row(date, p, u, code, cashIn, cashOut, t.now, t.now, false)]
      ensures Admissible(old(View()), t, Posting(date, p, u, code, cashIn, cashOut)) || refused.Some? ==> Valid()
    {
      ghost var before := View();
      refused, t := PostInTransaction(day, Row(date, p, u, code, cashIn, cashOut, clock, clock, false));
      ghost var r := Row(date, p, u, code, cashIn, cashOut, t.now, t.now, false);
      if cashIn == cashOut { CashlessPosting(before, strict, r, day); } else { GatedPosting(before, strict, r, day); }
      if refused.Some? {
        ReachLater(before, strict, t);
      } else if Admissible(before, t, Posting(date, p, u, code, cashIn, cashOut)) {
        ReachNext(before, strict, t, Posting(date, p, u, code, cashIn, cashOut));
      }
    }

    /** The transaction of a posting; the row gets the instant it is written. */
    method PostInTransaction(day: int, row: Row) returns (refused: Option<Refusal>, ghost t: Tick)
      modifies this
      ensures t.today == day && old(clock) < t.now == t.later
      ensures match Ledger.Post(old(View()), strict, row.(createdAt := t.now, updatedAt := t.now), day, false)
              case Done(b') => refused == None && View() == At(b', t)
              case Refused(why) => refused == Some(why) && View() == At(old(View()), t)
    {
      ghost var before := View();
      t := Touch(day);
      var r := row.(createdAt := clock, updatedAt := clock);
      NetChangeIgnoresClock(AddRow(before, r), AddRow(View(), r), strict, day, r.Cash(), false);
      refused := WritePosting(day, r);
    }

    /** Row and balance of a posting, rolled back together. */
    method WritePosting(day: int, r: Row) returns (refused: Option<Refusal>)
      modifies `rows, `balances
      ensures match Ledger.Post(old(View()), strict, r, day, false)
              case Done(b') => refused == None && View() == b'
              case Refused(why) => refused == Some(why) && View() == old(View())
    {
      var savepoint := rows;
      rows := rows + [r];
      refused := ApplyNetChange(day, r.cashIn - r.cashOut, false);
      if refused.Some? {
        rows := savepoint;
      }
    }

    /* ---------- opening checklist ---------- */

    method IsModulesAllowed(day: int, pawnedItems: nat) returns (allowed: bool, ghost t: Tick)
      requires Valid() && today <= day
      modifies this
      ensures Valid() && t.today == day && old(clock) < t.now <= t.later
      ensures View() == Next(old(View()), strict, t, GateCheck(pawnedItems))
      ensures allowed == ModulesAllowed(old(View()), day, pawnedItems).1
      ensures day in sessions ==>
        (allowed <==> !sessions[day].closed && day in old(openings) && old(openings)[day].Completed?)
      ensures day !in sessions && day in old(openings) ==> (allowed <==> old(openings)[day].Completed?)
      ensures day !in sessions && day !in old(openings) ==> (allowed <==> pawnedItems == 0)
      ensures openings == if day !in sessions && day !in old(openings) && allowed then old(openings)[day := Completed]
                          else old(openings)
    {
      ghost var before := View();
      t := Touch(day);
      allowed := AskGate(day, pawnedItems);
      GateEffect(before, strict, t, pawnedItems);
      ReachNext(before, strict, t, GateCheck(pawnedItems));
    }

    /** The reads of the gate, and its one write. */
    method AskGate(day: int, pawnedItems: nat) returns (allowed: bool)
      modifies `openings
      ensures (View(), allowed) == ModulesAllowed(old(View()), day, pawnedItems)
    {
      if day in sessions && sessions[day].closed { return false; }
      if day in openings && openings[day].Pending? { return false; }
      if day in sessions && !sessions[day].closed { return true; }
      if day in openings && openings[day].Completed? { return true; }
      if pawnedItems == 0 {
        openings := openings[day := Completed];
        return true;
      }
      allowed := false;
    }

    method CompleteDailyOpening(day: int) returns (found: bool, ghost t: Tick)
      requires Valid() && today <= day
      modifies this
      ensures Valid() && t.today == day && old(clock) < t.now <= t.later
      ensures View() == Next(old(View()), strict, t, CompleteChecklist)
      ensures found <==> day in old(openings)
      ensures openings == if found then old(openings)[day := Completed] else old(openings)
    {
      ghost var before := View();
      t := Touch(day);
      found := CompleteRow(day);
      ReachNext(before, strict, t, CompleteChecklist);
    }

    method CompleteRow(day: int) returns (found: bool)
      modifies `openings
      ensures View() == CompleteOpening(old(View()), day)
      ensures found <==> day in old(openings)
    {
      if day !in openings { return false; }
      if openings[day].Completed? {
        assert openings[day := Completed] == openings;
        return true;
      }
      openings := openings[day := Completed];
      found := true;
    }
  }

  /** An open session was closed at its stored ending, not below 0. */
  predicate SweptTo(b: Book, b': Book, d: int)
    requires IsOpen(b, d) && d in b.balances
  {
    && d in b'.sessions && b'.sessions[d] == b.sessions[d].(closed := true)
    && d in b'.balances && b'.balances[d] == Balance(b.sessions[d].start, Max(0, b.balances[d].ending))
  }

  /** The session and the balance of `d` are as they were. */
  predicate SameDay(b: Book, b': Book, d: int) {
    && (d in b'.sessions <==> d in b.sessions) && (d in b.sessions ==> b'.sessions[d] == b.sessions[d])
    && (d in b'.balances <==> d in b.balances) && (d in b.balances ==> b'.balances[d] == b.balances[d])
  }

  /** Of the sessions open at first those still `stale` are as they were, the others swept; nothing else moved. */
  ghost predicate SweptSoFar(b0: Book, b: Book, stale: set<int>) {
    && (forall d | d in stale :: IsOpen(b0, d))
    && (forall d | IsOpen(b0, d) && d !in stale :: d in b0.balances && SweptTo(b0, b, d))
    && (forall d | !IsOpen(b0, d) || d in stale :: SameDay(b0, b, d))
  }

  lemma SweptOneMore(b0: Book, b: Book, b': Book, stale: set<int>, day: int)
    requires SweptSoFar(b0, b, stale) && day in stale && IsOpen(b, day) && day in b.balances && SweptTo(b, b', day)
    requires forall d | d != day :: SameDay(b, b', d)
    ensures SweptSoFar(b0, b', stale - {day})
  {
    forall d ensures IsOpen(b0, d) && d !in stale - {day} ==> d in b0.balances && SweptTo(b0, b', d)
      ensures !IsOpen(b0, d) || d in stale - {day} ==> SameDay(b0, b', d)
    {
      assert d != day ==> SameDay(b, b', d);
    }
  }

  /** An open at the expected amount is an employee's too; any other amount, or an open session, turns an
      employee away. */
  lemma EmployeeOpens(b: Book, strict: bool, t: Tick, amount: int)
    ensures amount == ExpectedOpening(b, t.today) ==>
              Next(b, strict, t, EmployeeOpen(amount)) == Next(b, strict, t, SuperAdminOpen(amount))
    ensures amount != ExpectedOpening(b, t.today) || IsOpen(b, t.today) ==>
              Next(b, strict, t, EmployeeOpen(amount)) == At(b, t)
    ensures amount >= 0 && !IsOpen(b, t.today) ==>
              t.today in Next(b, strict, t, SuperAdminOpen(amount)).sessions
              && Next(b, strict, t, SuperAdminOpen(amount)).sessions[t.today].start == amount
  {
  }

  /** The amount the finance service expects, and what follows when nothing was written since its reads. */
  method ReadExpected(finance: OpeningCashReader, day: int, ghost b: Book)
    returns (expected: int, ghost r: ExpectedReads)
    requires finance.Valid()
    modifies finance
    ensures finance.Valid() && expected == ExpectedOf(finance.database, r, day)
    ensures ExpectedOk(CallerWindow(finance.database, old(finance.clock), finance.clock), r, day)
    ensures CoversWhatWasRead(finance.database, r, day, expected)
    ensures CallerWindow(finance.database, old(finance.clock), finance.clock).Quiet(b) ==>
              expected == ExpectedOpening(b, day)
  {
    ghost var called := finance.clock;
    expected, r := finance.ExpectedOpeningCash(day);
    OpeningCoversClosing(CallerWindow(finance.database, called, finance.clock), r, day);
    if CallerWindow(finance.database, called, finance.clock).Quiet(b) {
      QuietExpected(CallerWindow(finance.database, called, finance.clock), b, r, day);
    }
  }

  /* ---------- reads do not look at the clock ---------- */

  ghost predicate SameTables(b: Book, b': Book) { b' == b.(clock := b'.clock, today := b'.today) }

  lemma BookEndingIgnoresClock(b: Book, b': Book, day: int)
    requires SameTables(b, b') && IsOpen(b, day)
    ensures OpenBookEnding(b', day) == OpenBookEnding(b, day)
    ensures ShiftNet(b', day) == ShiftNet(b, day)
  {
    assert ShiftIds(b', day) == ShiftIds(b, day) && PreOpenFundIds(b', day) == PreOpenFundIds(b, day);
  }

  lemma NetChangeIgnoresClock(b: Book, b': Book, strict: bool, day: int, delta: int, bypassGate: bool)
    requires SameTables(b, b')
    ensures match Ledger.ApplyNetChange(b, strict, day, delta, bypassGate)
            case Refused(why) => Ledger.ApplyNetChange(b', strict, day, delta, bypassGate) == Refused(why)
            case Done(x) =>
              Ledger.ApplyNetChange(b', strict, day, delta, bypassGate)
              == Done(x.(clock := b'.clock, today := b'.today))
  {
    assert ShiftIds(b', day) == ShiftIds(b, day);
  }
}
