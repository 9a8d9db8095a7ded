/** Facts about sums, cutoffs and filters that hold of any tables. */
module LedgerLemmas {
  import opened Ledger

  /* ---------- sums ---------- */

  lemma {:induction false} NetSame(rows: seq<Row>, ids: set<nat>, rows': seq<Row>, ids': set<nat>)
    requires |rows| == |rows'|
    requires forall i: nat | i < |rows| :: i in ids <==> i in ids'
    requires forall i: nat | i < |rows| && i in ids :: rows[i].Cash() == rows'[i].Cash()
    ensures Net(rows, ids) == Net(rows', ids')
  {
    if rows != [] {
      var n := |rows| - 1;
      NetSame(rows[..n], ids, rows'[..n], ids');
    }
  }

  lemma {:induction false} NetPrefix(rows: seq<Row>, ids: set<nat>, k: nat)
    requires k <= |rows|
    requires forall i: nat | k <= i < |rows| :: i !in ids
    ensures Net(rows, ids) == Net(rows[..k], ids)
  {
    if k == |rows| {
      assert rows[..k] == rows;
    } else {
      var n := |rows| - 1;
      NetPrefix(rows[..n], ids, k);
      assert rows[..n][..k] == rows[..k];
    }
  }

  lemma {:induction false} NetNone(rows: seq<Row>, ids: set<nat>)
    requires forall i: nat | i < |rows| && i in ids :: rows[i].Cash() == 0
    ensures Net(rows, ids) == 0
  {
    if rows != [] {
      var n := |rows| - 1;
      NetNone(rows[..n], ids);
    }
  }

  /** Disjoint sets of rows add up. */
  lemma {:induction false} NetUnion(rows: seq<Row>, a: set<nat>, c: set<nat>)
    requires a !! c
    ensures Net(rows, a + c) == Net(rows, a) + Net(rows, c)
  {
    if rows != [] {
      var n := |rows| - 1;
      NetUnion(rows[..n], a, c);
    }
  }

  lemma {:induction false} NetOne(rows: seq<Row>, i: nat)
    requires i < |rows|
    ensures Net(rows, {i}) == rows[i].Cash()
  {
    var n := |rows| - 1;
    if i < n {
      NetOne(rows[..n], i);
    } else {
      NetNone(rows[..n], {i});
    }
  }

  lemma NetAppend(rows: seq<Row>, ids: set<nat>, r: Row, ids': set<nat>)
    requires forall i: nat | i < |rows| :: i in ids <==> i in ids'
    ensures Net(rows + [r], ids') == Net(rows, ids) + (if |rows| in ids' then r.Cash() else 0)
  {
    assert (rows + [r])[..|rows|] == rows;
    NetSame(rows, ids, rows, ids');
  }

  /* ---------- markers and cutoffs ---------- */

  lemma LatestMarkerAppend(rows: seq<Row>, r: Row, day: int, p: Purpose)
    requires !IsLiveMarker(r, day, p)
    ensures LatestMarker(rows + [r], day, p) == LatestMarker(rows, day, p)
    ensures MarkerTime(rows + [r], day, p) == MarkerTime(rows, day, p)
  {
    assert (rows + [r])[..|rows|] == rows;
  }

  lemma {:induction false} LatestMarkerUpdate(rows: seq<Row>, id: nat, r: Row, day: int, p: Purpose)
    requires id < |rows|
    requires !IsLiveMarker(rows[id], day, p) && !IsLiveMarker(r, day, p)
    ensures LatestMarker(rows[id := r], day, p) == LatestMarker(rows, day, p)
  {
    var n := |rows| - 1;
    if id == n {
      assert rows[id := r][..n] == rows[..n];
    } else {
      assert rows[..n][id] == rows[id] && rows[id := r][n] == rows[n];
      assert rows[id := r][..n] == rows[..n][id := r];
      LatestMarkerUpdate(rows[..n], id, r, day, p);
    }
  }

  lemma MarkerTimeUpdate(rows: seq<Row>, id: nat, r: Row, day: int, p: Purpose)
    requires id < |rows|
    requires !IsLiveMarker(rows[id], day, p) && !IsLiveMarker(r, day, p)
    ensures MarkerTime(rows[id := r], day, p) == MarkerTime(rows, day, p)
  {
    LatestMarkerUpdate(rows, id, r, day, p);
  }

  /** No row carries an instant after `clock`. */
  ghost predicate NoLaterThan(rows: seq<Row>, clock: int) {
    forall i | 0 <= i < |rows| :: rows[i].createdAt <= clock && rows[i].updatedAt <= clock
  }

  ghost predicate MarkersLive(rows: seq<Row>) {
    forall i | 0 <= i < |rows| && rows[i].IsMarker() :: !rows[i].voided && rows[i].cashIn == rows[i].cashOut == 0
  }

  lemma MarkerTimeBound(rows: seq<Row>, day: int, p: Purpose, clock: int)
    requires NoLaterThan(rows, clock) && clock >= 0
    ensures MarkerTime(rows, day, p) <= clock
  {
  }

  lemma NewestMarkerTime(rows: seq<Row>, k: nat, day: int, p: Purpose)
    requires k < |rows| && IsLiveMarker(rows[k], day, p) && rows[k].createdAt <= rows[k].updatedAt
    requires forall i | 0 <= i < |rows| && i != k :: rows[i].updatedAt < rows[k].updatedAt
    ensures MarkerTime(rows, day, p) == rows[k].updatedAt
  {
    var id := LatestMarker(rows, day, p);
    assert id.Some?;
    assert id.value == k;
  }

  /** Upserting a marker makes its own instant the latest one and leaves every other marker alone. */
  lemma UpsertMarkerTimes(rows: seq<Row>, day: int, p: Purpose, at: int, clock: int, d: int, q: Purpose)
    requires p.Start? || p.End?
    requires MarkersLive(rows) && NoLaterThan(rows, clock) && clock < at
    ensures (d, q) == (day, p) ==> MarkerTime(UpsertMarker(rows, day, p, at), d, q) == at
    ensures (d, q) != (day, p) ==> MarkerTime(UpsertMarker(rows, day, p, at), d, q) == MarkerTime(rows, d, q)
  {
    var rows' := UpsertMarker(rows, day, p, at);
    var found := FindMarker(rows, day, p);
    if found.Some? {
      var k := found.value;
      assert rows[k].IsMarker();
      if (d, q) == (day, p) {
        NewestMarkerTime(rows', k, day, p);
      } else {
        MarkerTimeUpdate(rows, k, rows'[k], d, q);
      }
    } else if (d, q) == (day, p) {
      NewestMarkerTime(rows', |rows|, day, p);
    } else {
      LatestMarkerAppend(rows, rows'[|rows|], d, q);
    }
  }

  /** A marker that was rewritten at `at`. */
  predicate RestampedMarker(r: Row, r': Row, at: int) {
    && r.IsMarker() && r'.IsMarker() && r'.voided == r.voided && r'.cashIn == r'.cashOut == 0
    && r'.updatedAt == at && r'.createdAt == r.createdAt && r'.date == r.date
  }

  /** What an upsert does to the table: it may rewrite one marker or add one, nothing else. */
  lemma UpsertMarkerRows(rows: seq<Row>, day: int, p: Purpose, at: int)
    requires p.Start? || p.End?
    ensures var rows' := UpsertMarker(rows, day, p, at);
      && |rows| <= |rows'| <= |rows| + 1
      && (forall i | 0 <= i < |rows| :: rows'[i] == rows[i] || RestampedMarker(rows[i], rows'[i], at))
      && (forall i | |rows| <= i < |rows'| :: rows'[i] == Row(day, p, Goods, "", 0, 0, at, at, false))
  {
  }

  lemma CutoffBound(b: Book, day: int)
    requires NoLaterThan(b.rows, b.clock) && b.clock >= 0
    requires day in b.sessions ==> b.sessions[day].cutoffAt <= b.clock && b.sessions[day].openedAt <= b.clock
    ensures Cutoff(b, day) <= b.clock
  {
    MarkerTimeBound(b.rows, day, Start, b.clock);
    MarkerTimeBound(b.rows, day, End, b.clock);
  }

  /* ---------- frames ---------- */

  /** For `day`, the rows of `b'` are those of `b` plus rows that do not count. */
  ghost predicate SameDayRows(b: Book, b': Book, day: int) {
    && |b.rows| <= |b'.rows|
    && (forall i | 0 <= i < |b.rows| ::
          && b'.rows[i].Counts(day, b'.awaiting) == b.rows[i].Counts(day, b.awaiting)
          && (b.rows[i].Counts(day, b.awaiting) ==>
                && b'.rows[i].Cash() == b.rows[i].Cash() && b'.rows[i].createdAt == b.rows[i].createdAt
                && b'.rows[i].IsFundTransfer() == b.rows[i].IsFundTransfer()))
    && (forall i | |b.rows| <= i < |b'.rows| :: !b'.rows[i].Counts(day, b'.awaiting))
  }

  lemma FullDayFrame(b: Book, b': Book, day: int)
    requires SameDayRows(b, b', day)
    ensures FullDayNet(b', day) == FullDayNet(b, day)
  {
    NetPrefix(b'.rows, FullDayIds(b', day), |b.rows|);
    NetSame(b.rows, FullDayIds(b, day), b'.rows[..|b.rows|], FullDayIds(b', day));
  }

  lemma ShiftFrame(b: Book, b': Book, day: int)
    requires SameDayRows(b, b', day)
    requires Cutoff(b', day) == Cutoff(b, day)
    requires forall i: nat | i < |b.rows| :: i in SealedOf(b', day) <==> i in SealedOf(b, day)
    ensures ShiftNet(b', day) == ShiftNet(b, day)
    ensures PreOpenFundNet(b', day) == PreOpenFundNet(b, day)
  {
    var n := |b.rows|;
    NetPrefix(b'.rows, ShiftIds(b', day), n);
    NetSame(b.rows, ShiftIds(b, day), b'.rows[..n], ShiftIds(b', day));
    NetPrefix(b'.rows, PreOpenFundIds(b', day), n);
    NetSame(b.rows, PreOpenFundIds(b, day), b'.rows[..n], PreOpenFundIds(b', day));
  }

  /** Adding one row that counts for `day`, newer than the cutoff and unsealed. */
  lemma ShiftGrows(b: Book, b': Book, r: Row)
    requires b'.rows == b.rows + [r]
    requires r.Counts(r.date, b'.awaiting) && !r.IsMarker()
    requires forall i | 0 <= i < |b.rows| ::
        b.rows[i].Counts(r.date, b'.awaiting) == b.rows[i].Counts(r.date, b.awaiting)
    requires Cutoff(b', r.date) == Cutoff(b, r.date) <= r.createdAt
    requires SealedOf(b', r.date) == SealedOf(b, r.date) && |b.rows| !in SealedOf(b, r.date)
    ensures ShiftNet(b', r.date) == ShiftNet(b, r.date) + r.Cash()
    ensures PreOpenFundNet(b', r.date) == PreOpenFundNet(b, r.date)
  {
    var n := |b.rows|;
    assert forall i: nat | i < n :: b'.rows[i] == b.rows[i];
    NetAppend(b.rows, ShiftIds(b, r.date), r, ShiftIds(b', r.date));
    assert n in ShiftIds(b', r.date) by { assert b'.rows[n] == r; }
    NetAppend(b.rows, PreOpenFundIds(b, r.date), r, PreOpenFundIds(b', r.date));
  }

  /** Adding one row that counts for its day. */
  lemma FullDayGrows(b: Book, b': Book, r: Row)
    requires b'.rows == b.rows + [r] && r.Counts(r.date, b'.awaiting)
    requires forall i | 0 <= i < |b.rows| ::
        b.rows[i].Counts(r.date, b'.awaiting) == b.rows[i].Counts(r.date, b.awaiting)
    ensures FullDayNet(b', r.date) == FullDayNet(b, r.date) + r.Cash()
  {
    assert forall i: nat | i < |b.rows| :: b'.rows[i] == b.rows[i];
    assert b'.rows[|b.rows|] == r;
    NetAppend(b.rows, FullDayIds(b, r.date), r, FullDayIds(b', r.date));
  }

  lemma PriorEndingFrame(b: Book, b': Book, day: int)
    requires b'.capital == b.capital
    requires forall d | d < day ::
        (d in b'.balances <==> d in b.balances) && (d in b.balances ==> b'.balances[d].ending == b.balances[d].ending)
    ensures PriorEnding(b', day) == PriorEnding(b, day)
  {
    var x, x' := LatestBefore(b.balances.Keys, day), LatestBefore(b'.balances.Keys, day);
    if x.Some? { assert x.value in b'.balances.Keys; }
    if x'.Some? { assert x'.value in b.balances.Keys; }
  }
}
