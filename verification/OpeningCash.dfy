/** The cash an employee is expected to count at Start Day: the chain of reads that computes it, and
    its closed form. */
module OpeningCash {
  import opened Options
  import opened Ledger

  ghost function LastClosed(b: Book, day: int): Option<int> {
    LatestBefore(ClosedDates(b), day + 1)
  }

  function ClosedDates(b: Book): set<int> { set d | d in b.sessions && b.sessions[d].closed }

  /** Sum of the full-day nets of the days `from..to`, both included. */
  function NetSpan(b: Book, from: int, to: int): int
    decreases to - from
  {
    if from > to then 0 else NetSpan(b, from, to - 1) + FullDayNet(b, to)
  }

  function StoredEndingOrZero(b: Book, day: int): int {
    if day in b.balances then b.balances[day].ending else 0
  }

  /** Book position at the end of `day`. */
  ghost function LedgerEnding(b: Book, day: int): int {
    if IsOpen(b, day) then OpenBookEnding(b, day)
    else
      var net := FullDayNet(b, day);
      if day in b.sessions && day in b.balances then Max(b.balances[day].ending, PriorEnding(b, day) + net)
      else if day in b.sessions then b.sessions[day].start + net
      else if day in b.balances then Max(b.balances[day].starting + net, b.balances[day].ending)
      else PriorEnding(b, day) + net
  }

  /** `amount` carried from the closed day `s` to `day`. */
  ghost function CarriedFrom(b: Book, s: int, amount: int, day: int): int {
    if s < day then amount + NetSpan(b, s + 1, day)
    else Max(amount, PriorEnding(b, day) + FullDayNet(b, day))
  }

  ghost function LastClosedAmount(b: Book, day: int): int {
    match LastClosed(b, day)
    case None => 0
    case Some(s) => CarriedFrom(b, s, if s in b.balances then b.balances[s].ending else LedgerEnding(b, s), day)
  }

  ghost function SuggestedBasis(b: Book, day: int): int {
    match LastClosed(b, day)
    case Some(s) =>
      if s in b.balances then
        var amount := CarriedFrom(b, s, b.balances[s].ending, day);
        if day in b.balances then Max(amount, b.balances[day].ending) else amount
      else if s == day then Max(0, LedgerEnding(b, day - 1) + FullDayNet(b, day))
      else LedgerEnding(b, s)
    case None =>
      var prior := LedgerEnding(b, day - 1);
      Max(Max(b.capital, prior), Max(prior + FullDayNet(b, day), StoredEndingOrZero(b, day)))
  }

  function MergeExpected(basis: int, priorClose: int, todayNet: int, todayStored: int): int {
    Max(Max(basis, priorClose + todayNet), todayStored)
  }

  /** The amount a non-super-admin must count to open `day`. */
  ghost function ExpectedOpening(b: Book, day: int): int {
    MergeExpected(Max(SuggestedBasis(b, day), LastClosedAmount(b, day)),
                  PriorEnding(b, day), FullDayNet(b, day), StoredEndingOrZero(b, day))
  }

  /** The whole chain collapses to one maximum once the last closed session has its balance row. */
  lemma ExpectedOpeningClosedForm(b: Book, day: int, s: int)
    requires LastClosed(b, day) == Some(s) && s in b.balances
    ensures s < day ==> (ExpectedOpening(b, day) ==
                         Max(Max(b.balances[s].ending + NetSpan(b, s + 1, day),
                             PriorEnding(b, day) + FullDayNet(b, day)),
                             StoredEndingOrZero(b, day)))
    ensures s == day ==> (ExpectedOpening(b, day) == Max(b.balances[day].ending,
        PriorEnding(b, day) + FullDayNet(b, day)))
    ensures s <= day
  {
  }
}
