/** The modules gate and the opening-status endpoint decide the same thing, by different routes. */
module OpeningChecklist {
  import opened Ledger
  import opened LedgerRuns
  import opened LedgerInvariant

  datatype ChecklistStep = CashOnHand | InventoryAudit | Complete

  predicate RequiresStartingBalance(b: Book, day: int) { day !in b.sessions || b.sessions[day].closed }

  /** Tally and audit requests are let through while the checklist is pending on a day not closed. */
  predicate InventoryAuditAllowed(b: Book, day: int) {
    !(day in b.sessions && b.sessions[day].closed) && day in b.openings && b.openings[day].Pending?
  }

  /** The opening status of an employee: the tables after the gate ran, the step shown, and the flag. */
  function OpeningStatus(b: Book, day: int, pawnedItems: nat): (Book, ChecklistStep, bool) {
    var (b', allowed) := ModulesAllowed(b, day, pawnedItems);
    if !allowed then
      (b', if day in b'.openings && b'.openings[day].Pending? then InventoryAudit else CashOnHand, false)
    else if day in b'.openings && b'.openings[day].Completed? then (b', Complete, true)
    else if day in b'.openings then (b', InventoryAudit, false)
    else if RequiresStartingBalance(b', day) then (b', CashOnHand, false)
    else if pawnedItems == 0 then (b', Complete, true)
    else (b', CashOnHand, false)
  }

  /** For any tables the two disagree in exactly one case: an open session without its checklist row
      in a branch that holds pawned items. */
  lemma StatusAgreesExactly(b: Book, day: int, pawnedItems: nat)
    ensures OpeningStatus(b, day, pawnedItems).2 == ModulesAllowed(b, day, pawnedItems).1 <==>
            !(IsOpen(b, day) && day !in b.openings && pawnedItems > 0)
  {
  }

  /** That case is never reached, so the endpoint's flag is the gate's answer; and the gate never lets
      modules and the inventory audit run together, before or after it wrote. */
  lemma StatusIsGate(b: Book, strict: bool, day: int, pawnedItems: nat)
    requires Reachable(b, strict)
    ensures OpeningStatus(b, day, pawnedItems).2 == ModulesAllowed(b, day, pawnedItems).1
    ensures ModulesAllowed(b, day, pawnedItems).1 ==>
              !InventoryAuditAllowed(b, day) && !InventoryAuditAllowed(ModulesAllowed(b, day, pawnedItems).0, day)
    ensures OpeningStatus(b, day, pawnedItems).1 == InventoryAudit <==> InventoryAuditAllowed(b, day)
    ensures OpeningStatus(b, day, pawnedItems).2 <==> OpeningStatus(b, day, pawnedItems).1 == Complete
  {
    ReachableInv(b, strict);
  }

  /** Asking the gate twice gives the same answer and writes nothing more. */
  lemma GateIsStable(b: Book, day: int, pawnedItems: nat)
    ensures var (b', allowed) := ModulesAllowed(b, day, pawnedItems);
      ModulesAllowed(b', day, pawnedItems) == (b', allowed)
  {
  }

  /** The whole path of an opening day: gated until cash is counted, audit only until the audit is
      submitted, then all modules until the day is closed. */
  lemma ChecklistPath(b: Book, strict: bool, t: Tick, counted: int, pawnedItems: nat)
    requires Reachable(b, strict) && counted >= 0 && !IsOpen(b, t.today) && b.clock < t.now <= t.later
        && b.today <= t.today
    ensures var opened1 := OpenDay(b, t.today, counted, t.now, t.later).value;
      && InventoryAuditAllowed(opened1, t.today) && !ModulesAllowed(opened1, t.today, pawnedItems).1
      && var done := CompleteOpening(opened1, t.today);
         && ModulesAllowed(done, t.today, pawnedItems) == (done, true) && !InventoryAuditAllowed(done, t.today)
         && !ModulesAllowed(AutoCloseDay(done, t.today, t.later), t.today, pawnedItems).1
         && !InventoryAuditAllowed(AutoCloseDay(done, t.today, t.later), t.today)
  {
  }
}
