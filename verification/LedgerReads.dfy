/** The reads of the finance service, step by step: each loop is proved to compute the value the
    `Ledger` module defines. */
module LedgerReads {
  import opened Options
  import opened Ledger
  import opened LedgerLemmas

  /** The rows with an id in `ids`, in table order. */
  function Selected(rows: seq<Row>, ids: set<nat>): seq<Row> {
    if rows == [] then []
    else
      var n := |rows| - 1;
      Selected(rows[..n], ids) + (if n in ids then [rows[n]] else [])
  }

  /** Net cash of the rows that are neither void nor markers. */
  function OperationalCash(rows: seq<Row>): int {
    if rows == [] then 0
    else
      var r := rows[|rows| - 1];
      OperationalCash(rows[..|rows| - 1]) + (if r.voided || r.IsMarker() then 0 else r.Cash())
  }

  lemma {:induction false} SelectedCash(rows: seq<Row>, ids: set<nat>)
    requires forall i: nat | i < |rows| && i in ids :: !rows[i].voided && !rows[i].IsMarker()
    ensures OperationalCash(Selected(rows, ids)) == Net(rows, ids)
  {
    if rows != [] {
      var n := |rows| - 1;
      SelectedCash(rows[..n], ids);
      var s := Selected(rows[..n], ids);
      if n in ids {
        assert (s + [rows[n]])[..|s|] == s;
      } else {
        assert s + [] == s;
      }
    }
  }

  /** operationalNetFromRows: markers and void rows move no cash. */
  method OperationalNetFromRows(rows: seq<Row>) returns (net: int)
    ensures net == OperationalCash(rows)
  {
    net := 0;
    for i := 0 to |rows|
      invariant net == OperationalCash(rows[..i])
    {
      assert rows[..i + 1][..i] == rows[..i];
      if rows[i].voided { continue; }
      if rows[i].IsMarker() { continue; }
      net := net + rows[i].cashIn - rows[i].cashOut;
    }
    assert rows[..|rows|] == rows;
  }

  /** The latest live marker of a day, as the descending query returns it. */
  method FindLatestMarker(rows: seq<Row>, day: int, p: Purpose) returns (at: int)
    ensures at == MarkerTime(rows, day, p)
  {
    var best: Option<nat> := None;
    for i := 0 to |rows|
      invariant best == LatestMarker(rows[..i], day, p)
    {
      assert rows[..i + 1][..i] == rows[..i];
      if IsLiveMarker(rows[i], day, p) && (best.None? || rows[i].updatedAt > rows[best.value].updatedAt) {
        best := Some(i);
      }
    }
    assert rows[..|rows|] == rows;
    at := if best.None? then 0 else Max(rows[best.value].updatedAt, rows[best.value].createdAt);
  }

  method ResolveOperationalCutoff(b: Book, day: int) returns (cutoff: int)
    ensures cutoff == Cutoff(b, day)
  {
    cutoff := 0;
    if day in b.sessions {
      cutoff := Max(b.sessions[day].cutoffAt, b.sessions[day].openedAt);
    }
    var start := FindLatestMarker(b.rows, day, Start);
    cutoff := Max(cutoff, start);
    var end := FindLatestMarker(b.rows, day, End);
    cutoff := Max(cutoff, end);
  }

  /** Keeps the rows of the current shift: not awaiting receipt, not sealed, not before the cutoff.
      Markers stay in the list; the sum skips them. */
  method FinalizeRowsForOperationalNet(b: Book, day: int) returns (out: seq<Row>)
    ensures OperationalCash(out) == ShiftNet(b, day)
    ensures forall r | r in out && !r.IsMarker() :: exists i :: i in ShiftIds(b, day) && b.rows[i] == r
    ensures forall i | i in ShiftIds(b, day) :: b.rows[i] in out
  {
    var cutoff := ResolveOperationalCutoff(b, day);
    var sealedIds := SealedOf(b, day);
    ghost var ids := ShiftIds(b, day);
    out := [];
    for k := 0 to |b.rows|
      invariant OperationalCash(out) == Net(b.rows[..k], ids)
      invariant forall r | r in out && !r.IsMarker() :: exists i :: i in ids && b.rows[i] == r
      invariant forall i | i in ids && i < k :: b.rows[i] in out
    {
      assert b.rows[..k + 1][..k] == b.rows[..k];
      var r := b.rows[k];
      if r.date != day || r.voided || r.AwaitsReceipt(b.awaiting) { continue; }
      if k in sealedIds { continue; }
      if cutoff > 0 && r.createdAt < cutoff { continue; }
      ghost var before := out;
      out := out + [r];
      assert out[..|out| - 1] == before;
      assert r in out;
    }
    assert b.rows[..|b.rows|] == b.rows;
  }

  method SumOperationalNetCash(b: Book, day: int) returns (net: int)
    ensures net == ShiftNet(b, day)
  {
    var out := FinalizeRowsForOperationalNet(b, day);
    net := OperationalNetFromRows(out);
  }

  /** Sum of the day's rows without cutoff or seal. */
  method SumFullDay(b: Book, day: int) returns (net: int)
    ensures net == FullDayNet(b, day)
  {
    var out: seq<Row> := [];
    ghost var ids := FullDayIds(b, day);
    for k := 0 to |b.rows|
      invariant OperationalCash(out) == Net(b.rows[..k], ids)
    {
      assert b.rows[..k + 1][..k] == b.rows[..k];
      var r := b.rows[k];
      if r.date == day && !r.voided && !r.AwaitsReceipt(b.awaiting) {
        ghost var before := out;
        out := out + [r];
        assert out[..|out| - 1] == before;
      }
    }
    assert b.rows[..|b.rows|] == b.rows;
    net := OperationalNetFromRows(out);
  }

  method SumPreOpenFundTransfers(b: Book, day: int) returns (net: int)
    ensures net == PreOpenFundNet(b, day)
  {
    var cutoff := ResolveOperationalCutoff(b, day);
    ghost var ids := PreOpenFundIds(b, day);
    if cutoff <= 0 {
      NetNone(b.rows, ids);
      return 0;
    }
    var out: seq<Row> := [];
    for k := 0 to |b.rows|
      invariant OperationalCash(out) == Net(b.rows[..k], ids)
    {
      assert b.rows[..k + 1][..k] == b.rows[..k];
      var r := b.rows[k];
      if r.date == day && !r.voided && r.IsFundTransfer() && r.createdAt < cutoff && !r.AwaitsReceipt(b.awaiting) {
        ghost var before := out;
        out := out + [r];
        assert out[..|out| - 1] == before;
      }
    }
    assert b.rows[..|b.rows|] == b.rows;
    net := OperationalNetFromRows(out);
  }

  /** The latest of the dates before `day`, as the descending query returns it. */
  method FindPriorDay(dates: set<int>, day: int) returns (prior: Option<int>)
    ensures prior == LatestBefore(dates, day)
  {
    prior := None;
    var rest := dates;
    while exists d :: d in rest
      invariant rest <= dates
      invariant prior.Some? ==> prior.value in dates && prior.value < day
      invariant forall d | d in dates && d !in rest && d < day :: prior.Some? && d <= prior.value
      decreases |rest|
    {
      var d :| d in rest;
      rest := rest - {d};
      if d < day && (prior.None? || d > prior.value) {
        prior := Some(d);
      }
    }
    if prior.Some? {
      assert IsLatestBefore(dates, day, prior.value);
    }
  }

  method PriorBookEnding(b: Book, day: int) returns (ending: int)
    ensures ending == PriorEnding(b, day)
  {
    var prior := FindPriorDay(b.balances.Keys, day);
    ending := if prior.Some? then b.balances[prior.value].ending else b.capital;
  }

  method ComputeOpenSessionBookEnding(b: Book, day: int) returns (ending: Option<int>)
    ensures ending == if IsOpen(b, day) then Some(OpenBookEnding(b, day)) else None
  {
    if day !in b.sessions || b.sessions[day].closed { return None; }
    var start := b.sessions[day].start;
    var shift := SumOperationalNetCash(b, day);
    var pre := SumPreOpenFundTransfers(b, day);
    var amount := start + shift;
    if pre > 0 {
      var priorClose := PriorBookEnding(b, day);
      if !(start >= priorClose + pre - 1) {
        amount := amount + pre;
      }
    }
    if day in b.balances {
      amount := Max(amount, b.balances[day].ending);
    }
    ending := Some(amount);
  }

  /** Full recompute; also the start to carry when the day has no balance row yet. */
  method ResolveCurrentBookBalance(b: Book, day: int) returns (baseline: int)
    ensures baseline == RecomputedBalance(b, day)
  {
    if day in b.sessions && !b.sessions[day].closed {
      var net := SumOperationalNetCash(b, day);
      return b.sessions[day].start + net;
    }
    if day in b.balances {
      return b.balances[day].ending;
    }
    baseline := PriorBookEnding(b, day);
  }

  method ResolveIncrementalBookBalance(b: Book, day: int) returns (baseline: int)
    ensures baseline == IncrementalBalance(b, day)
  {
    if day in b.balances {
      return b.balances[day].ending;
    }
    if day in b.sessions && !b.sessions[day].closed {
      return b.sessions[day].start;
    }
    baseline := ResolveCurrentBookBalance(b, day);
  }

  /** Ids of the operational rows created strictly before a shift's cutoff. */
  method ListSealedBefore(rows: seq<Row>, day: int, cutoff: int) returns (ids: set<nat>)
    ensures ids == SealedBefore(rows, day, cutoff)
  {
    ids := {};
    for i := 0 to |rows|
      invariant ids == SealedBefore(rows[..i], day, cutoff)
    {
      if rows[i].date == day && !rows[i].voided && !rows[i].IsMarker() && rows[i].createdAt < cutoff {
        ids := ids + {i};
      }
    }
    assert rows[..|rows|] == rows;
  }

  /** Gate, funds check, then update or create the day's balance row. */
  method ApplyNetChangeTo(b: Book, strict: bool, day: int, delta: int, bypassGate: bool) returns (o: Outcome<Book>)
    ensures o == ApplyNetChange(b, strict, day, delta, bypassGate)
    ensures delta != 0 && !bypassGate && day !in b.sessions ==> o == Refused(RequiresStartingBalance)
    ensures delta != 0 && !bypassGate && day in b.sessions && b.sessions[day].closed ==> o == Refused(SessionClosed)
    ensures delta != 0 && (bypassGate || IsOpen(b, day)) && day in b.balances ==>
              o == if strict && b.balances[day].ending + delta < 0 then Refused(InsufficientFunds)
                   else Done(b.(balances := b.balances[day := Balance(b.balances[day].starting,
                                                                      b.balances[day].ending + delta)]))
  {
    if delta == 0 { return Done(b); }
    if !bypassGate {
      if day !in b.sessions { return Refused(RequiresStartingBalance); }
      if b.sessions[day].closed { return Refused(SessionClosed); }
    }
    var baseline := ResolveIncrementalBookBalance(b, day);
    var next := baseline + delta;
    if strict && next < 0 { return Refused(InsufficientFunds); }
    if day in b.balances {
      return Done(b.(balances := b.balances[day := b.balances[day].(ending := next)]));
    }
    var starting: int;
    if day in b.sessions && !b.sessions[day].closed {
      starting := b.sessions[day].start;
    } else {
      starting := PriorBookEnding(b, day);
    }
    o := Done(b.(balances := b.balances[day := Balance(starting, next)]));
  }

  /** The check made before a transaction writes anything: the same gate and funds rule, on the
      recomputed balance. */
  method AssertNetChangePermitted(b: Book, strict: bool, day: int, delta: int) returns (permitted: bool)
    ensures permitted <==> PostingVerdict(b, strict, day, delta, false, RecomputedBalance(b, day)).Done?
    ensures permitted <==>
            delta == 0 || (IsOpen(b, day) && (!strict || b.sessions[day].start + ShiftNet(b, day) + delta >= 0))
  {
    if delta == 0 { return true; }
    if day !in b.sessions || b.sessions[day].closed { return false; }
    var baseline := ResolveCurrentBookBalance(b, day);
    permitted := !(strict && baseline + delta < 0);
  }
}
