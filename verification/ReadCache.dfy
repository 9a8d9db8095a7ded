/** The two 8-second read caches in front of the opening-cash computation.

    The computation is not one transaction: its reads happen one after another while the tables may
    change, and the net of a day may come out of a cache.  A reads record (`ExpectedReads`) says at
    which instant each read saw the database; `ExpectedOf` is the value the code computes from those
    reads, and `ExpectedOk` says that every read it depends on lies in a `Window`. */
module ReadCache {
  import opened Options
  import opened Ledger
  import opened LedgerReads
  import opened OpeningCash

  const LEDGER_READ_CACHE_MS := 8000

  /** A cached value is at most this old when it is returned. */
  const OLDEST := LEDGER_READ_CACHE_MS - 1

  /** A database whose content at every millisecond is `db`, with the instants at which it may have
      been read: full-day nets from `netsFrom` on, everything else from `from` on, up to `until`. */
  datatype Window = Window(db: int -> Book, netsFrom: int, from: int, until: int)
  {
    predicate Has(t: int) { from <= t <= until }
    predicate HasNet(t: int) { netsFrom <= t <= until }

    ghost predicate Within(o: Window) { o.db == db && o.netsFrom <= netsFrom && o.from <= from && until <= o.until }

    /** Nothing was written from `netsFrom` on. */
    ghost predicate Quiet(b: Book) { netsFrom <= from && forall t | netsFrom <= t <= until :: db(t) == b }
  }

  function SessionOf(b: Book, day: int): Option<Session> { if day in b.sessions then Some(b.sessions[day]) else None }
  function BalanceOf(b: Book, day: int): Option<Balance> { if day in b.balances then Some(b.balances[day]) else None }
  function EndingOrZero(y: Option<Balance>): int { if y.Some? then y.value.ending else 0 }
  ghost function OpenEndingOrZero(b: Book, day: int): int { if IsOpen(b, day) then OpenBookEnding(b, day) else 0 }

  /* ---------- the computation as a function of its reads ---------- */

  /** Reads of the book position of a day. */
  datatype EndingReads = EndingReads(session: int, balance: int, net: int, prior: int, book: int)

  ghost function SettledEnding(x: Option<Session>, y: Option<Balance>, net: int, prior: int): int {
    if x.Some? && x.value.closed && y.Some? then Max(y.value.ending, prior + net)
    else
      var computed := (if x.Some? then x.value.start else if y.Some? then y.value.starting else prior) + net;
      if y.Some? then Max(computed, y.value.ending) else computed
  }

  ghost function EndingOf(db: int -> Book, r: EndingReads, day: int): int {
    var x := SessionOf(db(r.session), day);
    if x.Some? && !x.value.closed then OpenEndingOrZero(db(r.book), day)
    else SettledEnding(x, BalanceOf(db(r.balance), day), FullDayNet(db(r.net), day), PriorEnding(db(r.prior), day))
  }

  ghost predicate EndingOk(w: Window, r: EndingReads, day: int) {
    var x := SessionOf(w.db(r.session), day);
    && w.Has(r.session) && w.Has(r.balance)
    && if x.Some? && !x.value.closed then w.Has(r.book) else w.HasNet(r.net) && w.Has(r.prior)
  }

  /** Reads that carry a closing to a later day, or to the same one. */
  datatype CarryReads = CarryReads(span: seq<int>, prior: int, net: int)

  /** Sum of the nets of `from, from + 1, …`, the i-th read at `times[i]`. */
  ghost function SpanOf(db: int -> Book, from: int, times: seq<int>): int {
    if times == [] then 0
    else
      var n := |times| - 1;
      SpanOf(db, from, times[..n]) + FullDayNet(db(times[n]), from + n)
  }

  ghost function CarriedOf(db: int -> Book, r: CarryReads, s: int, amount: int, day: int): int {
    if s < day then amount + SpanOf(db, s + 1, r.span)
    else Max(amount, PriorEnding(db(r.prior), day) + FullDayNet(db(r.net), day))
  }

  ghost predicate CarryOk(w: Window, r: CarryReads, s: int, day: int) {
    if s < day then |r.span| == day - s && forall i | 0 <= i < |r.span| :: w.HasNet(r.span[i])
    else w.Has(r.prior) && w.HasNet(r.net)
  }

  /** Reads of the amount carried from the last closed session. */
  datatype LastReads = LastReads(closed: int, balance: int, ending: EndingReads, carry: CarryReads)

  ghost function LastOf(db: int -> Book, r: LastReads, day: int): int {
    match LastClosed(db(r.closed), day)
    case None => 0
    case Some(s) =>
      var y := BalanceOf(db(r.balance), s);
      CarriedOf(db, r.carry, s, if y.Some? then y.value.ending else EndingOf(db, r.ending, s), day)
  }

  ghost predicate LastOk(w: Window, r: LastReads, day: int) {
    w.Has(r.closed) &&
    match LastClosed(w.db(r.closed), day)
    case None => true
    case Some(s) => w.Has(r.balance) && (BalanceOf(w.db(r.balance), s).None? ==>
        EndingOk(w, r.ending, s)) && CarryOk(w, r.carry, s, day)
  }

  /** Reads of the suggested basis. */
  datatype BasisReads = BasisReads(closed: int, session: int, balance: int, carry: CarryReads, today: int,
                                   ending: EndingReads, net: int, capital: int)

  /** The confirmed closing of day `s`: stored, and its session still closed when read. */
  function ConfirmedClosing(db: int -> Book, r: BasisReads, s: int): Option<int> {
    var x := SessionOf(db(r.session), s);
    var y := BalanceOf(db(r.balance), s);
    if x.Some? && x.value.closed && y.Some? then Some(y.value.ending) else None
  }

  ghost function BasisOf(db: int -> Book, r: BasisReads, day: int): int {
    match LastClosed(db(r.closed), day)
    case None =>
      var prior := EndingOf(db, r.ending, day - 1);
      Max(Max(db(r.capital).capital, prior), Max(prior + FullDayNet(db(r.net), day),
          EndingOrZero(BalanceOf(db(r.today), day))))
    case Some(s) =>
      var closing := ConfirmedClosing(db, r, s);
      if closing.Some? then
        var amount := CarriedOf(db, r.carry, s, closing.value, day);
        var y := BalanceOf(db(r.today), day);
        if y.Some? then Max(amount, y.value.ending) else amount
      else if s == day then Max(0, EndingOf(db, r.ending, day - 1) + FullDayNet(db(r.net), day))
      else EndingOf(db, r.ending, s)
  }

  ghost predicate BasisOk(w: Window, r: BasisReads, day: int) {
    w.Has(r.closed) &&
    match LastClosed(w.db(r.closed), day)
    case None => EndingOk(w, r.ending, day - 1) && w.HasNet(r.net) && w.Has(r.today) && w.Has(r.capital)
    case Some(s) =>
      && w.Has(r.session) && w.Has(r.balance)
      && if ConfirmedClosing(w.db, r, s).Some? then CarryOk(w, r.carry, s, day) && w.Has(r.today)
         else if s == day then EndingOk(w, r.ending, day - 1) && w.HasNet(r.net)
         else EndingOk(w, r.ending, s)
  }

  /** Reads of the expected opening. */
  datatype ExpectedReads = ExpectedReads(last: LastReads, basis: BasisReads, prior: int, net: int, today: int)

  ghost function ExpectedOf(db: int -> Book, r: ExpectedReads, day: int): int {
    MergeExpected(Max(BasisOf(db, r.basis, day), LastOf(db, r.last, day)), PriorEnding(db(r.prior), day),
                  FullDayNet(db(r.net), day), EndingOrZero(BalanceOf(db(r.today), day)))
  }

  ghost predicate ExpectedOk(w: Window, r: ExpectedReads, day: int) {
    LastOk(w, r.last, day) && BasisOk(w, r.basis, day) && w.Has(r.prior) && w.HasNet(r.net) && w.Has(r.today)
  }

  /* ---------- lemmas about reads records ---------- */

  lemma WiderExpected(w: Window, o: Window, r: ExpectedReads, day: int)
    requires w.Within(o) && ExpectedOk(w, r, day)
    ensures ExpectedOk(o, r, day)
  {
  }

  lemma WiderEnding(w: Window, o: Window, r: EndingReads, day: int)
    requires w.Within(o) && EndingOk(w, r, day)
    ensures EndingOk(o, r, day)
  {
  }

  lemma WiderCarry(w: Window, o: Window, r: CarryReads, s: int, day: int)
    requires w.Within(o) && CarryOk(w, r, s, day)
    ensures CarryOk(o, r, s, day)
  {
  }

  lemma WiderLast(w: Window, o: Window, r: LastReads, day: int)
    requires w.Within(o) && LastOk(w, r, day)
    ensures LastOk(o, r, day)
  {
  }

  lemma WiderBasis(w: Window, o: Window, r: BasisReads, day: int)
    requires w.Within(o) && BasisOk(w, r, day)
    ensures BasisOk(o, r, day)
  {
  }

  lemma {:induction false} QuietSpan(w: Window, b: Book, from: int, times: seq<int>)
    requires w.Quiet(b) && forall i | 0 <= i < |times| :: w.HasNet(times[i])
    ensures SpanOf(w.db, from, times) == NetSpan(b, from, from + |times| - 1)
  {
    if times != [] {
      var n := |times| - 1;
      QuietSpan(w, b, from, times[..n]);
      assert w.HasNet(times[n]);
    }
  }

  lemma QuietEnding(w: Window, b: Book, r: EndingReads, day: int)
    requires w.Quiet(b) && EndingOk(w, r, day)
    ensures EndingOf(w.db, r, day) == LedgerEnding(b, day)
  {
  }

  lemma QuietCarried(w: Window, b: Book, r: CarryReads, s: int, amount: int, day: int)
    requires w.Quiet(b) && CarryOk(w, r, s, day)
    ensures CarriedOf(w.db, r, s, amount, day) == CarriedFrom(b, s, amount, day)
  {
    if s < day { QuietSpan(w, b, s + 1, r.span); }
  }

  lemma QuietLast(w: Window, b: Book, r: LastReads, day: int)
    requires w.Quiet(b) && LastOk(w, r, day)
    ensures LastOf(w.db, r, day) == LastClosedAmount(b, day)
  {
    var s := LastClosed(b, day);
    if s.Some? {
      if s.value !in b.balances { QuietEnding(w, b, r.ending, s.value); }
      QuietCarried(w, b, r.carry, s.value, if s.value in b.balances then b.balances[s.value].ending
          else LedgerEnding(b, s.value), day);
    }
  }

  lemma QuietBasis(w: Window, b: Book, r: BasisReads, day: int)
    requires w.Quiet(b) && BasisOk(w, r, day)
    ensures BasisOf(w.db, r, day) == SuggestedBasis(b, day)
  {
    var s := LastClosed(b, day);
    if s.Some? {
      assert s.value in ClosedDates(b);
      if s.value in b.balances { QuietCarried(w, b, r.carry, s.value, b.balances[s.value].ending, day); }
      else if s.value == day { QuietEnding(w, b, r.ending, day - 1); }
      else { QuietEnding(w, b, r.ending, s.value); }
    } else {
      QuietEnding(w, b, r.ending, day - 1);
    }
  }

  /** Reads of tables that do not change give the answer of one snapshot. */
  lemma QuietExpected(w: Window, b: Book, r: ExpectedReads, day: int)
    requires w.Quiet(b) && ExpectedOk(w, r, day)
    ensures ExpectedOf(w.db, r, day) == ExpectedOpening(b, day)
  {
    QuietLast(w, b, r.last, day);
    QuietBasis(w, b, r.basis, day);
  }

  /** What an opening computed from reads `r` covers: the last closing as it was read, and the net of every
      day since as it was read. */
  ghost predicate CoversWhatWasRead(db: int -> Book, r: ExpectedReads, day: int, amount: int) {
    forall s | LastClosed(db(r.last.closed), day) == Some(s) && s < day && s in db(r.last.balance).balances ::
      amount >= db(r.last.balance).balances[s].ending + SpanOf(db, s + 1, r.last.carry.span)
      && |r.last.carry.span| == day - s
  }

  /** An expected opening, cached or not, is never below the last closing plus all net cash since, as they
      were read; those reads lie in the window. */
  lemma OpeningCoversClosing(w: Window, r: ExpectedReads, day: int)
    requires ExpectedOk(w, r, day)
    ensures CoversWhatWasRead(w.db, r, day, ExpectedOf(w.db, r, day))
    ensures LastClosed(w.db(r.last.closed), day).Some? ==> w.Has(r.last.closed) && w.Has(r.last.balance)
    ensures forall s | LastClosed(w.db(r.last.closed), day) == Some(s) && s < day ::
              forall i | 0 <= i < |r.last.carry.span| :: w.HasNet(r.last.carry.span[i])
  {
  }

  /* ---------- the service ---------- */

  datatype Entry = Entry(at: int, value: int)

  /** Every cached net was read no earlier than its stamp says. */
  ghost predicate NetsOk(db: int -> Book, clock: int, cache: map<int, Entry>, reads': map<int, int>) {
    && reads'.Keys == cache.Keys
    && forall d | d in cache :: cache[d].at <= reads'[d] <= clock && cache[d].value == FullDayNet(db(reads'[d]), d)
  }

  /** A cached opening was computed from reads no earlier than its stamp says, but for its nets, which
      may have been cached themselves. */
  ghost predicate OpeningOk(db: int -> Book, clock: int, e: Entry, r: ExpectedReads, day: int) {
    e.at <= clock && e.value == ExpectedOf(db, r, day) && ExpectedOk(Window(db, e.at - OLDEST, e.at, clock), r, day)
  }

  ghost predicate OpeningsOk(db: int -> Book, clock: int, cache: map<int, Entry>, reads': map<int, ExpectedReads>) {
    reads'.Keys == cache.Keys && forall d | d in cache :: OpeningOk(db, clock, cache[d], reads'[d], d)
  }

  lemma OpeningStaysOk(db: int -> Book, clock: int, later: int, e: Entry, r: ExpectedReads, day: int)
    requires OpeningOk(db, clock, e, r, day) && clock <= later
    ensures OpeningOk(db, later, e, r, day)
  {
    WiderExpected(Window(db, e.at - OLDEST, e.at, clock), Window(db, e.at - OLDEST, e.at, later), r, day);
  }

  lemma OpeningsStayOk(db: int -> Book, clock: int, later: int, cache: map<int, Entry>, reads': map<int, ExpectedReads>)
    requires OpeningsOk(db, clock, cache, reads') && clock <= later
    ensures OpeningsOk(db, later, cache, reads')
  {
    forall d | d in cache ensures OpeningOk(db, later, cache[d], reads'[d], d) {
      OpeningStaysOk(db, clock, later, cache[d], reads'[d], d);
    }
  }

  lemma NetsStayOk(db: int -> Book, clock: int, later: int, cache: map<int, Entry>, reads': map<int, int>)
    requires NetsOk(db, clock, cache, reads') && clock <= later
    ensures NetsOk(db, later, cache, reads')
  {
  }

  lemma OpeningsAdd(db: int -> Book, clock: int, cache: map<int, Entry>, reads': map<int, ExpectedReads>, day: int,
                    e: Entry, r: ExpectedReads)
    requires OpeningsOk(db, clock, cache, reads')
    requires OpeningOk(db, clock, e, r, day)
    ensures OpeningsOk(db, clock, cache[day := e], reads'[day := r])
  {
  }

  /** The opening-cash reads of one branch, with their caches.  `database(t)` is what the tables hold
      at millisecond `t`; the clock may move on between any two statements. */
  class OpeningCashReader {
    const database: int -> Book
    var clock: int
    var fullDayNetCache: map<int, Entry>
    var expectedOpeningCache: map<int, Entry>
    /** When the cached nets were read, and the reads behind the cached openings. */
    ghost var netReads: map<int, int>
    ghost var openingReads: map<int, ExpectedReads>

    /** What a computation started at `started` may depend on. */
    ghost function Since(started: int): Window
      reads this
    {
      Window(database, started - OLDEST, started, clock)
    }

    ghost predicate NetsValid()
      reads this
    {
      NetsOk(database, clock, fullDayNetCache, netReads)
    }

    ghost predicate Valid()
      reads this
    {
      NetsValid() && OpeningsOk(database, clock, expectedOpeningCache, openingReads)
    }

    constructor (database: int -> Book, clock: int)
      ensures Valid() && this.clock == clock && this.database == database
    {
      this.database, this.clock, this.fullDayNetCache, this.expectedOpeningCache := database, clock, map[], map[];
      this.netReads, this.openingReads := map[], map[];
    }

    /** Some time passes. */
    method Now() returns (now: int)
      requires NetsValid()
      modifies `clock
      ensures NetsValid() && old(clock) <= now == clock
    {
      now :| now >= clock;
      NetsStayOk(database, clock, now, fullDayNetCache, netReads);
      clock := now;
    }

    /** A query: some time passes, then the tables are read. */
    method Query() returns (b: Book)
      requires NetsValid()
      modifies `clock
      ensures NetsValid() && old(clock) <= clock && b == database(clock)
    {
      var now := Now();
      b := database(now);
    }

    /** Net of a day, read less than 8000 ms before the call. */
    method FullDayOperationalNetCash(day: int) returns (net: int, ghost readAt: int)
      requires NetsValid()
      modifies `clock, `fullDayNetCache, `netReads
      ensures NetsValid() && old(clock) <= clock
      ensures net == FullDayNet(database(readAt), day) && old(clock) - LEDGER_READ_CACHE_MS < readAt <= clock
    {
      var now := Now();
      if day in fullDayNetCache && now - fullDayNetCache[day].at < LEDGER_READ_CACHE_MS {
        return fullDayNetCache[day].value, netReads[day];
      }
      var b := Query();
      net := SumFullDay(b, day);
      readAt := clock;
      fullDayNetCache := fullDayNetCache[day := Entry(now, net)];
      netReads := netReads[day := readAt];
    }

    method PriorBookEnding(day: int) returns (ending: int)
      requires NetsValid()
      modifies `clock
      ensures NetsValid() && old(clock) <= clock && ending == PriorEnding(database(clock), day)
    {
      var b := Query();
      ending := LedgerReads.PriorBookEnding(b, day);
    }

    /** The newest closed session on or before `day`. */
    method FindLastClosed(day: int) returns (s: Option<int>)
      requires NetsValid()
      modifies `clock
      ensures NetsValid() && old(clock) <= clock && s == LastClosed(database(clock), day)
    {
      var b := Query();
      var closedDates := set d | d in b.sessions && b.sessions[d].closed;
      s := FindPriorDay(closedDates, day + 1);
    }

    method LedgerBookEnding(day: int, ghost started: int) returns (ending: int, ghost r: EndingReads)
      requires NetsValid() && started <= clock
      modifies `clock, `fullDayNetCache, `netReads
      ensures NetsValid() && old(clock) <= clock
      ensures ending == EndingOf(database, r, day) && EndingOk(Since(started), r, day)
    {
      var b1 := Query();
      ghost var t1 := clock;
      var x := SessionOf(b1, day);
      var b2 := Query();
      ghost var t2 := clock;
      var y := BalanceOf(b2, day);
      if x.Some? && !x.value.closed {
        var b3 := Query();
        var book := ComputeOpenSessionBookEnding(b3, day);
        return if book.Some? then book.value else 0, EndingReads(t1, t2, t1, t1, clock);
      }
      var net; ghost var t3;
      net, t3 := FullDayOperationalNetCash(day);
      var start;
      ghost var t4 := t1;
      if x.Some? {
        start := x.value.start;
      } else if y.Some? {
        start := y.value.starting;
      } else {
        start := PriorBookEnding(day);
        t4 := clock;
      }
      if x.Some? && x.value.closed && y.Some? {
        var prior := PriorBookEnding(day);
        return Max(y.value.ending, prior + net), EndingReads(t1, t2, t3, clock, t1);
      }
      ending := start + net;
      if y.Some? {
        ending := Max(ending, y.value.ending);
      }
      r := EndingReads(t1, t2, t3, t4, t1);
    }

    /** Carries `closing` of the closed day `s` to `day`, one full-day net after the other. */
    method Carry(s: int, closing: int, day: int, ghost started: int) returns (amount: int, ghost r: CarryReads)
      requires NetsValid() && started <= clock
      modifies `clock, `fullDayNetCache, `netReads
      ensures NetsValid() && old(clock) <= clock
      ensures s <= day ==> amount == CarriedOf(database, r, s, closing, day) && CarryOk(Since(started), r, s, day)
    {
      amount := closing;
      r := CarryReads([], clock, clock);
      if s < day {
        ghost var times: seq<int> := [];
        var cursor := s + 1;
        while cursor <= day
          invariant NetsValid() && old(clock) <= clock && s + 1 <= cursor <= day + 1
          invariant |times| == cursor - s - 1 && amount == closing + SpanOf(database, s + 1, times)
          invariant forall i | 0 <= i < |times| :: Since(started).HasNet(times[i])
        {
          var net; ghost var t;
          net, t := FullDayOperationalNetCash(cursor);
          amount := amount + net;
          assert (times + [t])[..|times|] == times;
          times := times + [t];
          cursor := cursor + 1;
        }
        r := CarryReads(times, clock, clock);
      } else if s == day {
        var prior := PriorBookEnding(day);
        ghost var t1 := clock;
        var net; ghost var t2;
        net, t2 := FullDayOperationalNetCash(day);
        amount := Max(amount, prior + net);
        r := CarryReads([], t1, t2);
      }
    }

    method LastClosedEndDayAmount(day: int, ghost started: int) returns (amount: int, ghost r: LastReads)
      requires NetsValid() && started <= clock
      modifies `clock, `fullDayNetCache, `netReads
      ensures NetsValid() && old(clock) <= clock
      ensures amount == LastOf(database, r, day) && LastOk(Since(started), r, day)
    {
      var s := FindLastClosed(day);
      ghost var t1 := clock;
      ghost var e := EndingReads(t1, t1, t1, t1, t1);
      ghost var c := CarryReads([], t1, t1);
      if s.None? { return 0, LastReads(t1, t1, e, c); }
      var b := Query();
      ghost var t2 := clock;
      var y := BalanceOf(b, s.value);
      var closing;
      if y.Some? {
        closing := y.value.ending;
      } else {
        closing, e := LedgerBookEnding(s.value, started);
      }
      ghost var w := Since(started);
      amount, c := Carry(s.value, closing, day, started);
      if y.None? { WiderEnding(w, Since(started), e, s.value); }
      r := LastReads(t1, t2, e, c);
    }

    method SuggestedStartingBasis(day: int, ghost started: int) returns (amount: int, ghost r: BasisReads)
      requires NetsValid() && started <= clock
      modifies `clock, `fullDayNetCache, `netReads
      ensures NetsValid() && old(clock) <= clock
      ensures amount == BasisOf(database, r, day) && BasisOk(Since(started), r, day)
    {
      var s := FindLastClosed(day);
      ghost var t := clock;
      ghost var e := EndingReads(t, t, t, t, t);
      ghost var c := CarryReads([], t, t);
      if s.Some? {
        var b := Query();
        ghost var t1 := clock;
        var x := SessionOf(b, s.value);
        b := Query();
        ghost var t2 := clock;
        var y := BalanceOf(b, s.value);
        r := BasisReads(t, t1, t2, c, t, e, t, t);
        if x.Some? && x.value.closed && y.Some? {
          amount, r := ConfirmedBasis(s.value, y.value.ending, day, started, r);
          return;
        }
        amount, r := LegacyBasis(s.value, day, started, r);
        return;
      }
      amount, r := FirstBasis(day, started, BasisReads(t, t, t, c, t, e, t, t));
    }

    /** The three continuations of `SuggestedStartingBasis`; `r0` holds the reads made so far. */
    method ConfirmedBasis(s: int, closing: int, day: int, ghost started: int,
                          ghost r0: BasisReads) returns (amount: int, ghost r: BasisReads)
      requires NetsValid() && started <= clock && LastClosed(database(r0.closed), day) == Some(s)
      requires ConfirmedClosing(database, r0, s) == Some(closing)
      requires Since(started).Has(r0.closed) && Since(started).Has(r0.session) && Since(started).Has(r0.balance)
      modifies `clock, `fullDayNetCache, `netReads
      ensures NetsValid() && old(clock) <= clock
      ensures amount == BasisOf(database, r, day) && BasisOk(Since(started), r, day)
    {
      ghost var c;
      amount, c := Carry(s, closing, day, started);
      ghost var w := Since(started);
      var b := Query();
      var y := BalanceOf(b, day);
      if y.Some? {
        amount := Max(amount, y.value.ending);
      }
      WiderCarry(w, Since(started), c, s, day);
      r := r0.(carry := c, today := clock);
    }

    method LegacyBasis(s: int, day: int, ghost started: int, ghost r0: BasisReads) returns (amount: int,
                       ghost r: BasisReads)
      requires NetsValid() && started <= clock && LastClosed(database(r0.closed), day) == Some(s)
      requires ConfirmedClosing(database, r0, s) == None
      requires Since(started).Has(r0.closed) && Since(started).Has(r0.session) && Since(started).Has(r0.balance)
      modifies `clock, `fullDayNetCache, `netReads
      ensures NetsValid() && old(clock) <= clock
      ensures amount == BasisOf(database, r, day) && BasisOk(Since(started), r, day)
    {
      ghost var e;
      if s == day {
        var prior, net; ghost var t;
        prior, e := LedgerBookEnding(day - 1, started);
        ghost var w := Since(started);
        net, t := FullDayOperationalNetCash(day);
        WiderEnding(w, Since(started), e, day - 1);
        return Max(0, prior + net), r0.(ending := e, net := t);
      }
      amount, e := LedgerBookEnding(s, started);
      r := r0.(ending := e);
    }

    method FirstBasis(day: int, ghost started: int, ghost r0: BasisReads) returns (amount: int, ghost r: BasisReads)
      requires NetsValid() && started <= clock && LastClosed(database(r0.closed), day) == None
          && Since(started).Has(r0.closed)
      modifies `clock, `fullDayNetCache, `netReads
      ensures NetsValid() && old(clock) <= clock
      ensures amount == BasisOf(database, r, day) && BasisOk(Since(started), r, day)
    {
      var b := Query();
      ghost var t1 := clock;
      var capital := b.capital;
      var prior, net; ghost var e, t2;
      prior, e := LedgerBookEnding(day - 1, started);
      ghost var w := Since(started);
      net, t2 := FullDayOperationalNetCash(day);
      b := Query();
      WiderEnding(w, Since(started), e, day - 1);
      amount := Max(Max(capital, prior), Max(prior + net, EndingOrZero(BalanceOf(b, day))));
      r := r0.(ending := e, net := t2, today := clock, capital := t1);
    }

    /** The expected opening, from the cache when that is young enough. */
    method CachedOrComputed(day: int) returns (amount: int, ghost r: ExpectedReads)
      requires Valid()
      modifies this
      ensures Valid() && old(clock) <= clock
      ensures amount == ExpectedOf(database, r, day) && ExpectedOk(CallerWindow(database, old(clock), clock), r, day)
    {
      ghost var called := clock;
      var now := Now();
      OpeningsStayOk(database, called, clock, expectedOpeningCache, openingReads);
      if day in expectedOpeningCache && now - expectedOpeningCache[day].at < LEDGER_READ_CACHE_MS {
        amount, r := expectedOpeningCache[day].value, openingReads[day];
        Settle(database, called, clock, expectedOpeningCache[day], r, day);
        return;
      }
      amount, r := ComputeExpectedOpening(day, now);
      OpeningsStayOk(database, now, clock, expectedOpeningCache, openingReads);
      Settle(database, called, clock, Entry(now, amount), r, day);
      Remember(day, Entry(now, amount), r);
    }

    /** The expected opening is the value of reads that saw the database less than 8000 ms before the
        call, and its nets less than 16000 ms before; so it is the uncached answer when nothing was
        written since then. */
    method ExpectedOpeningCash(day: int) returns (amount: int, ghost r: ExpectedReads)
      requires Valid()
      modifies this
      ensures Valid() && old(clock) <= clock
      ensures amount == ExpectedOf(database, r, day) && ExpectedOk(CallerWindow(database, old(clock), clock), r, day)
      ensures CallerWindow(database, old(clock), clock).Quiet(database(clock))
          ==> amount == ExpectedOpening(database(clock), day)
    {
      ghost var called := clock;
      amount, r := CachedOrComputed(day);
      if CallerWindow(database, called, clock).Quiet(database(clock)) {
        QuietExpected(CallerWindow(database, called, clock), database(clock), r, day);
      }
    }

    method Remember(day: int, e: Entry, ghost r: ExpectedReads)
      requires Valid() && OpeningOk(database, clock, e, r, day)
      modifies `expectedOpeningCache, `openingReads
      ensures Valid()
    {
      OpeningsAdd(database, clock, expectedOpeningCache, openingReads, day, e, r);
      expectedOpeningCache := expectedOpeningCache[day := e];
      openingReads := openingReads[day := r];
    }

    method ComputeExpectedOpening(day: int, ghost started: int) returns (amount: int, ghost r: ExpectedReads)
      requires NetsValid() && started <= clock
      modifies `clock, `fullDayNetCache, `netReads
      ensures NetsValid() && old(clock) <= clock
      ensures OpeningOk(database, clock, Entry(started, amount), r, day)
    {
      var last, basis; ghost var r1, r2;
      last, r1 := LastClosedEndDayAmount(day, started);
      ghost var w1 := Since(started);
      basis, r2 := SuggestedStartingBasis(day, started);
      ghost var w2 := Since(started);
      var prior := PriorBookEnding(day);
      ghost var t3 := clock;
      var net; ghost var t4;
      net, t4 := FullDayOperationalNetCash(day);
      var b := Query();
      r := ExpectedReads(r1, r2, t3, t4, clock);
      Assemble(w1, w2, Since(started), last, basis, r, day);
      amount := MergeExpected(Max(basis, last), prior, net, EndingOrZero(BalanceOf(b, day)));
    }
  }

  /** The parts of an opening, read one after the other, make an opening. */
  lemma Assemble(w1: Window, w2: Window, w: Window, last: int, basis: int, r: ExpectedReads, day: int)
    requires w1.Within(w) && w2.Within(w) && w.netsFrom == w.from - OLDEST && w.from <= w.until
    requires last == LastOf(w.db, r.last, day) && LastOk(w1, r.last, day)
    requires basis == BasisOf(w.db, r.basis, day) && BasisOk(w2, r.basis, day)
    requires w.Has(r.prior) && w.HasNet(r.net) && w.Has(r.today)
    ensures OpeningOk(w.db, w.until,
                      Entry(w.from, MergeExpected(Max(basis, last), PriorEnding(w.db(r.prior), day),
                          FullDayNet(w.db(r.net), day),
                                                  EndingOrZero(BalanceOf(w.db(r.today), day)))), r, day)
  {
    WiderLast(w1, w, r.last, day);
    WiderBasis(w2, w, r.basis, day);
    assert Window(w.db, w.from - OLDEST, w.from, w.until) == w;
  }

  /** A young enough opening is made of reads the caller may see. */
  lemma Settle(db: int -> Book, called: int, clock: int, e: Entry, r: ExpectedReads, day: int)
    requires OpeningOk(db, clock, e, r, day) && called - e.at < LEDGER_READ_CACHE_MS
    ensures e.value == ExpectedOf(db, r, day) && ExpectedOk(CallerWindow(db, called, clock), r, day)
  {
    WiderExpected(Window(db, e.at - OLDEST, e.at, clock), CallerWindow(db, called, clock), r, day);
  }

  /** What the caller of a cached opening gets to see: reads after the call minus 8000 ms, nets after
      the call minus 16000 ms. */
  function CallerWindow(db: int -> Book, called: int, until: int): (w: Window)
    ensures w.from > called - 8000 && w.netsFrom > called - 16000
  {
    Window(db, called - 2 * OLDEST, called - OLDEST, until)
  }
}
