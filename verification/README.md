# Verified model of the pawnshop backend

A Dafny model of the parts of the backend that keep state worth arguing about, with proofs of what that
state keeps to over every run. `dafny verify dfyconfig.toml` checks all of it.

- **Branch cash ledger and day sessions** (`Ledger`, `LedgerLemmas`, `OpeningCash`, `LedgerRuns`,
  `LedgerInvariant`, `LedgerTheorems`, `LedgerShifts`, `OpeningChecklist`, `LedgerReads`, `BranchLedger`,
  `ReadCache`, `LedgerEffects`, `LedgerExamples`). One branch's tables are the value `Book`; `LedgerRuns`
  lists every step that changes them and what the environment guarantees of a step. The theorems hold in
  every state a run can reach. The class `BranchLedger.Branch` does the same work field by field: its `Valid` says that the
  tables are those of some run, and every service call keeps it. `LedgerReads` holds the loops, and
  `ReadCache` models the two 8-second caches over a database that may change between any two reads.
- **Fund transfers** (`FundRequests`, `FundProofs`, `FundTheorems`, `FundLedgers`, `FundDesk`,
  `FundEffects`, `FundExamples`). Requests, the branches' books, and a journal that says which row was
  written for which request. A confirmation may fail at each of its writes. `FundDesk.Service` writes the tables one statement
  at a time; between two operations its tables are those of some run of the protocol.
- **Password-change requests** (`PasswordRequests`, `PasswordProofs`, `PasswordService`,
  `PasswordEffects`, `PasswordExamples`). An append-only log, the records rebuilt from its first 5000 rows
  before each command, the password each user has, and the state machine without a log that the commands are meant to drive.
- **Duplicate customers** (`CustomerNames`, `CustomerMerge`, `CustomerService`), **civil dates**
  (`Calendar`, `DateStrings`), **item custody** (`ItemTransfers`, `InventoryService`) and **field
  encryption** (`Base64`, `FieldEncryption`, `EncryptionExamples`). `Options` and `Strings` hold what they share.

The modules named `...Effects` say of each operation, in terms of stored rows alone, which calls are turned
down, what is stored and what is left alone; the other theorems are about what operations do together.

Amounts are integer centavos, dates of the ledger are day numbers, instants are milliseconds.

## Results that are conditions

Some promises do not hold of the code as it is; each has its exact condition, and where it fails a lemma
that exhibits it.

- A posting keeps the two balances of today equal exactly when its row is dated today or moves no cash; the
  endpoint lets the caller choose the date: `PostingAgreesExactly`, `BackdatedPostingDrifts`.
- The evening sweep keeps a stored ending exactly when it is not negative: `SweepKeepsBalance`,
  `SweepMayRaiseEnding`.
- A physical count of zero at End Day is not stored when the book has cash: `CountedEndingIsStored`,
  `CountedZeroIsReplaced`.
- Reconciling an open session keeps the two balances equal exactly when the pre-open correction does not
  fire: `ReconcileKeepsInvExactly`, `CorrectionMayFire`.
- A failed and compensated receipt leaves a balance row behind on a day that had none. The latest stored
  ending, which decides what a branch may release, moves exactly when that row is the branch's first and its
  capital is not 0: `FailedConfirmLatestExactly`, `CompensationMayFreeFunds`. The expected opening changes
  exactly when all else expected that day is negative: `FailedConfirmExpectedExactly`,
  `CompensationMayLowerExpectation`.
- Replaying the log is the state machine exactly up to 5000 rows: `RebuiltIsMachineExactly`,
  `LongLogIsNotRebuilt`. Past them a command can be repeated, as it can when its log row is lost:
  `RepeatAcceptedExactly`. A second activation must present the password the first one set, so the same
  call never passes twice: `FurtherActivationExactly`, `SameActivationRefused`. One approval can then set
  two passwords: `TwoPasswordsOneApproval`.
- A receipt of an item whose second write fails loses custody: `ReceiptKeepsCustodyExactly`,
  `LostReceiptLosesCustody`.
- A loop over date strings does not end at 9999-12-31: `GuardFailsExactly`. There the two next-day functions
  part: `NextDayParts`.
- More than five layers of encryption leave a display name encrypted: `DisplayNameExactly`,
  `SixLayersStay`.
- The opening status would differ from the gate for an open session without a checklist row; no reachable
  state has one: `StatusAgreesExactly`, `StatusIsGate`.

## What the environment is taken to guarantee

- One environment per branch, rows locked by the finance transactions, a clock that strictly increases
  between steps, opening capital of at least 0. In runs, postings that move cash are dated today; what any
  other date does is a result above.
- The database accepts all seven fund statuses and the 'Fund Transfer' purpose, request numbers are new,
  and a transfer reference is never the number of another request still waiting at the same branch.
- Random request ids are new; user ids, branches and addresses carry no surrounding white space. A user has
  one account, whose password other services may set between two commands.
- The customer query returns the live customers of the branch, earliest first, in any order on a tie;
  transfers keep an item from being deleted.
- AES-256-GCM is an inverse pair on texts (sections 7.1 and 7.2 of NIST SP 800-38D), including the UTF-8
  conversion; initialisation vectors are given. A text is a sequence of Unicode scalar values: strings with a
  lone surrogate do not survive UTF-8 and are not texts here. `lower` stands for the platform's toLowerCase.

## Model

| member | source | states |
|---|---|---|
| `LedgerTheorems.FastBalanceIsSimpleBalance` | src/modules/branch-finance/services/finance-daily-balance.service.ts:361-469 | in every reachable state, several shifts a day and gate-bypassing transfers included, the stored-ending balance equals the full recompute; an open session's stored ending is its start plus the net since its cutoff |
| `LedgerTheorems.PreCheckPredictsPosting` | src/modules/branch-finance/services/finance-daily-balance.service.ts:184-210 | the pre-check on the recomputed balance accepts exactly the postings that are then applied, whatever the date of their row, and a posting that moves cash leaves that balance plus its delta; `LedgerEffects.GatedPosting` and `PreCheckExactly` say which those are |
| `LedgerTheorems.PostingDrift` | src/modules/transactions/services/transactions.service.ts:984-991 | the delta of a posting goes into the ending of today, its row into the net of its own date: by how much the two balances of each day then differ |
| `LedgerTheorems.PostingAgreesExactly` | src/modules/transactions/services/transactions.service.ts:662-678 | after an accepted posting the two balances of today agree if and only if its row is dated today or moves no cash |
| `LedgerExamples.BackdatedPostingDrifts` | src/modules/transactions/services/transactions.service.ts:662-678 | a reachable book on which a posting dated yesterday is accepted and leaves the two balances apart |
| `LedgerTheorems.StoredBalancesNonNegative` | src/modules/branch-finance/services/finance-daily-balance.service.ts:1348-1584 | with negative cash disallowed every stored start and ending is ≥ 0, and a session has its balance row |
| `LedgerTheorems.SweepKeepsBalance` | src/modules/branch-finance/services/branch-day-session.service.ts:665-771 | auto-close leaves the balance row as it is if and only if the stored ending is ≥ 0 (always in strict mode), and otherwise stores 0 |
| `LedgerExamples.SweepMayRaiseEnding` | src/modules/branch-finance/services/branch-day-session.service.ts:665-771 | a reachable open book with a negative stored ending, which the sweep raises |
| `LedgerTheorems.CountedEndingIsStored` | src/modules/branch-finance/services/finance-daily-balance.service.ts:1452-1584 | End Day stores the physical count if and only if it is positive or the book has nothing left: a counted zero is replaced by the book balance |
| `LedgerExamples.CountedZeroIsReplaced` | src/modules/branch-finance/services/finance-daily-balance.service.ts:1452-1584 | a reachable open book counted at 0 and closed with cash |
| `LedgerTheorems.SealIsRedundant` | src/modules/branch-finance/services/finance-daily-balance.service.ts:493-547 | for an open session the seal removes no row that the cutoff keeps |
| `LedgerTheorems.ReconcileKeepsShift` | src/modules/branch-finance/services/finance-daily-balance.service.ts:1256-1341 | reconciling an open session changes no counted row and never lowers the stored ending |
| `LedgerTheorems.ReconcileIsIdempotent` | src/modules/branch-finance/services/finance-daily-balance.service.ts:1256-1341 | reconciling twice is reconciling once |
| `LedgerTheorems.ReconcileKeepsInvExactly` | src/modules/branch-finance/services/finance-daily-balance.service.ts:1256-1341 | reconciling keeps the invariant of the book, and its balance rows, if and only if the pre-open correction does not fire |
| `LedgerExamples.CorrectionMayFire` | src/modules/branch-finance/services/finance-daily-balance.service.ts:647-721 | a reachable open book on which the correction fires, so that reconciling drives the two balances apart |
| `LedgerTheorems.FirstOpenCovers` | src/modules/branch-finance/services/finance-daily-balance.service.ts:1142-1206 | a first open at the expected amount already holds all transfers received before it |
| `LedgerTheorems.FirstShiftBookEnding` | src/modules/branch-finance/services/finance-daily-balance.service.ts:595-721 | on such a first shift, in strict mode, the pre-open correction never fires: book ending = start + shift net = stored ending as long as the shift lasts, over every run |
| `LedgerTheorems.ExpectedOpeningIsMaximum` | src/modules/branch-finance/services/finance-daily-balance.service.ts:920-1206 | in every reachable state with a closed session the chain of reads is one maximum, with its two forms for a session closed earlier or today |
| `LedgerTheorems.EmployeeNeverStartsShort` | src/modules/branch-finance/services/branch-day-session.service.ts:362-531 | an employee who opens a later day at the freshly computed amount starts with at least the last closing plus all net cash since |
| `ReadCache.OpeningCoversClosing` | src/modules/branch-finance/services/branch-day-session.service.ts:373-397 | the same for the amount the service reads, cached or not: at least the last closing as read less than 8000 ms before the call, plus each net since as read less than 16000 ms before it |
| `OpeningCash.ExpectedOpeningClosedForm` | src/modules/branch-finance/utils/finance-ledger.util.ts:86-96 | closed form of the chain for any tables in which the last closed session has its balance row |
| `LedgerShifts.RowCountedAtMostOnce` | src/modules/branch-finance/services/finance-daily-balance.service.ts:303-354 | for any number of shifts on one date, no row is counted by two of them, finished or running |
| `LedgerShifts.FullDayIsSumOfShifts` | src/modules/branch-finance/services/finance-daily-balance.service.ts:769-815 | the full-day net is the sum of the shift nets plus the rows created outside every shift |
| `LedgerInvariant.StepKeepsInv` | src/modules/branch-finance/services/finance-daily-balance.service.ts:1348-1447 | every admissible open, posting, transfer step, close, sweep and checklist step keeps the invariant of the book |
| `LedgerInvariant.ReachableInv` | src/modules/branch-finance/services/finance-daily-balance.service.ts:361-469 | so every reachable state satisfies it |
| `LedgerInvariant.SendNeverStrandsRow` | src/modules/fund-requests/services/fund-requests.service.ts:1738-1783 | a source confirmation that passes the latest-balance check is never refused by the debit that follows its journal row |
| `LedgerInvariant.UndoRestores` | src/modules/fund-requests/services/fund-requests.service.ts:1859-1902 | reversing an applied receipt puts the day's balance back where it was, and is never refused |
| `LedgerEffects.GatedPosting` | src/modules/transactions/services/transactions.service.ts:918-995 | in every reachable book a posting that moves cash is refused without a session (starting balance required), on a closed one (session closed), and on an open one exactly when negative cash is disallowed and the stored ending plus its cash is below 0; otherwise its row is added, the stored ending moves by its cash, and nothing else changes |
| `LedgerEffects.GatedChange` | src/modules/branch-finance/services/finance-daily-balance.service.ts:1348-1447 | the same of a change to the balance alone |
| `LedgerEffects.CashlessPosting` | src/modules/transactions/services/transactions.service.ts:918-995 | a posting that moves no cash only adds its row, whatever the day |
| `LedgerEffects.PreCheckExactly` | src/modules/branch-finance/services/finance-daily-balance.service.ts:184-210 | the check made first says yes exactly when nothing moves, or the session is open and the stored ending bears the delta or need not |
| `LedgerEffects.UngatedChange` | src/modules/branch-finance/services/finance-daily-balance.service.ts:1348-1447 | a change that bypasses the gate is refused exactly when a strict branch cannot bear it; a missing balance row starts at the prior ending |
| `LedgerEffects.ReceiptEffect` | src/modules/fund-requests/services/fund-requests.service.ts:1980-2032 | a receipt writes a row of its amount, in or, for an expense, out, moves the balance of today by it and stops hiding the request; refused, its row is void and nothing else changed |
| `LedgerEffects.SendEffect` | src/modules/fund-requests/services/fund-requests.service.ts:1738-1783 | a branch hands over an amount exactly when its latest stored ending bears it; then its row is written and its balance of today drops by it |
| `LedgerEffects.OpenEffect` | src/modules/branch-finance/services/branch-day-session.service.ts:362-531 | Start Day is refused exactly for a negative count or an open session; otherwise the count is the start of a shift with net 0 and both stored balances, the cutoff is its instant, exactly the earlier rows are sealed, the checklist waits, and other days and all rows but the marker are kept |
| `LedgerEffects.EmployeeOpenEffect` | src/modules/branch-finance/services/branch-day-session.service.ts:373-397 | an employee opens at the expected amount and at no other |
| `LedgerEffects.CloseEffect` | src/modules/branch-finance/services/branch-day-session.service.ts:533-660 | End Day of an open session keeps its start and stores the count if it is positive; a count of zero or less, the stored ending; no count, that ending plus the pre-open transfers when the correction fires; never below 0. Cutoff, seal, marker and checklist row as the source leaves them, other days kept; any other session is left alone |
| `LedgerEffects.SweepEffect` | src/modules/branch-finance/services/branch-day-session.service.ts:665-771 | the sweep stores max(0, stored ending), keeps cutoff and seal, and changes no other day |
| `LedgerEffects.NoTransfersNoCorrection` | src/modules/branch-finance/services/finance-daily-balance.service.ts:647-721 | the correction never fires on a day without fund transfers |
| `LedgerEffects.OpenShiftRows` | src/modules/branch-finance/services/finance-daily-balance.service.ts:493-547 | for an open session: the rows its shift counts are all live cash rows of the day since the cutoff, those corrected for the live fund transfers before it, those of the full day both; no row is hidden by the seal or by a waiting request |
| `LedgerEffects.GateEffect` | src/modules/branch-finance/services/opening-checklist-gate.service.ts:17-93 | modules are allowed on an open day exactly when the checklist is completed, on a closed one never, before the first session exactly when the checklist is completed or, without one, the branch has no pawned items; only the last writes, a completed row |
| `LedgerEffects.ChecklistEffect` | src/modules/branch-finance/branch-finance.service.ts:401-453 | submitting the audit completes an existing checklist row and adds none |
| `LedgerEffects.PriorEndingStored` | src/modules/branch-finance/services/finance-daily-balance.service.ts:574-592 | the prior ending is the stored ending of the nearest earlier day |
| `LedgerEffects.PriorEndingCapital` | src/modules/branch-finance/services/finance-daily-balance.service.ts:587-591 | without an earlier day it is the opening capital |
| `LedgerEffects.LatestBalanceStored` | src/modules/fund-requests/services/fund-requests.service.ts:426-443 | the latest balance of a branch is the stored ending of its last day |
| `LedgerEffects.LatestBalanceNone` | src/modules/fund-requests/services/fund-requests.service.ts:443-443 | and 0 when nothing is stored |
| `LedgerEffects.SpanIsNet` | src/modules/branch-finance/services/finance-daily-balance.service.ts:947-957 | what is carried over several days is the net of all their rows, each once |
| `LedgerEffects.DayBefore` | src/modules/branch-finance/services/finance-daily-balance.service.ts:857-915 | in every reachable book the position of a day that is not closed is what the next day finds stored, plus the correction of an open session |
| `LedgerEffects.FirstExpectedOpening` | src/modules/branch-finance/services/finance-daily-balance.service.ts:1020-1062 | before the first End Day of a branch the expected opening is exactly the largest of the capital, what the day before left, that plus the net of the day, and its stored ending |
| `OpeningChecklist.StatusAgreesExactly` | src/modules/branch-finance/branch-finance.service.ts:283-396 | for any tables the status endpoint and the gate differ in exactly one case: an open session without its checklist row in a branch with pawned items |
| `OpeningChecklist.StatusIsGate` | src/modules/branch-finance/branch-finance.service.ts:283-396 | in every reachable state the endpoint's flag is the gate's answer, modules and inventory audit are never allowed together, and the step shown matches |
| `OpeningChecklist.GateIsStable` | src/modules/branch-finance/services/opening-checklist-gate.service.ts:17-93 | a second gate check gives the same answer and writes nothing more |
| `OpeningChecklist.ChecklistPath` | src/modules/branch-finance/services/opening-checklist-gate.service.ts:99-129 | count, audit, modules, close: the gate's answers along an opening day |
| `LedgerReads.OperationalNetFromRows` | src/modules/branch-finance/utils/finance-ledger.util.ts:62-83 | the loop sums cash_in − cash_out over the rows that are neither void nor markers |
| `LedgerReads.FindLatestMarker` | src/modules/branch-finance/services/finance-daily-balance.service.ts:289-354 | the scan finds the time of the latest live marker of a day |
| `LedgerReads.ResolveOperationalCutoff` | src/modules/branch-finance/services/finance-daily-balance.service.ts:303-354 | the cutoff is the maximum of the session's instants and its markers' |
| `LedgerReads.FinalizeRowsForOperationalNet` | src/modules/branch-finance/services/finance-daily-balance.service.ts:493-547 | exactly the counted rows of the shift survive the filter, besides markers |
| `LedgerReads.SumOperationalNetCash` | src/modules/branch-finance/services/finance-daily-balance.service.ts:1222-1250 | net of the current shift |
| `LedgerReads.SumFullDay` | src/modules/branch-finance/services/finance-daily-balance.service.ts:769-815 | net of the whole day, without cutoff or seal |
| `LedgerReads.SumPreOpenFundTransfers` | src/modules/branch-finance/services/finance-daily-balance.service.ts:595-640 | net of the confirmed fund transfers before the cutoff |
| `LedgerReads.PriorBookEnding` | src/modules/branch-finance/services/finance-daily-balance.service.ts:574-592 | ending of the nearest earlier stored day, else the opening capital |
| `LedgerReads.ComputeOpenSessionBookEnding` | src/modules/branch-finance/services/finance-daily-balance.service.ts:647-721 | book ending of an open session with the pre-open correction, or none |
| `LedgerReads.ResolveCurrentBookBalance` | src/modules/branch-finance/services/finance-daily-balance.service.ts:410-469 | the full recompute |
| `LedgerReads.ResolveIncrementalBookBalance` | src/modules/branch-finance/services/finance-daily-balance.service.ts:361-403 | the stored-ending balance |
| `LedgerReads.ListSealedBefore` | src/modules/branch-finance/services/finance-daily-balance.service.ts:550-572 | ids of the operational rows created strictly before a cutoff |
| `LedgerReads.ApplyNetChangeTo` | src/modules/branch-finance/services/finance-daily-balance.service.ts:1348-1447 | gate, funds check, then the balance row; in a reachable book the answer is the one of `LedgerEffects.GatedChange`, said outright; a refusal leaves the tables alone |
| `LedgerReads.AssertNetChangePermitted` | src/modules/branch-finance/services/finance-daily-balance.service.ts:184-210 | accepts exactly when nothing moves, or the session is open and, in strict mode, the stored ending of a reachable book bears the delta |
| `BranchLedger.Branch.ApplyNetChange` | src/modules/branch-finance/services/finance-daily-balance.service.ts:1348-1447 | in place: refused without a session, on a closed one, or when a strict branch has too little stored; otherwise the stored ending moves by the delta; a refusal changes nothing |
| `BranchLedger.Branch.PersistConfirmation` | src/modules/branch-finance/services/finance-daily-balance.service.ts:1452-1584 | balance row of a confirmed opening or closing count |
| `BranchLedger.Branch.UpsertJournalMarker` | src/modules/branch-finance/services/branch-day-session.service.ts:295-360 | the day's marker row is rewritten, or added |
| `BranchLedger.Branch.SubmitStartingBalance` | src/modules/branch-finance/services/branch-day-session.service.ts:362-531 | Start Day reads the expected amount through the caches, then performs exactly one open step; it refuses exactly for a negative count, an employee's mismatch with the amount read, or an open session, with that reason; a success leaves the session, balance and checklist row of a fresh shift, and the tables stay those of a run |
| `BranchLedger.Branch.CloseTodayManual` | src/modules/branch-finance/services/branch-day-session.service.ts:533-660 | End Day performs exactly one close step, and the tables stay those of a run; the balance stored is the start with the count, the stored ending or the corrected ending, as in `LedgerEffects.CloseEffect` |
| `BranchLedger.Branch.AutoCloseStaleOpenSessions` | src/modules/branch-finance/services/branch-day-session.service.ts:665-771 | the sweep is a run of sweep steps after which no session is open: each that was is closed at its stored ending, not below 0, and no other day moves |
| `BranchLedger.Branch.ReconcileOpenSession` | src/modules/branch-finance/services/finance-daily-balance.service.ts:1256-1341 | cutoff, seal and balance row are rewritten as specified; the invariant survives exactly when the pre-open correction does not fire |
| `BranchLedger.Branch.Post` | src/modules/transactions/services/transactions.service.ts:918-995 | row, dated as the client says, and balance of today in one transaction: refused exactly as `LedgerEffects.GatedPosting` says, and then no row is left; an admissible one stays on a run |
| `BranchLedger.Branch.IsModulesAllowed` | src/modules/branch-finance/services/opening-checklist-gate.service.ts:17-93 | the gate's decision, said of the session, the checklist row and the pawned items, and its one write, as one step of a run |
| `BranchLedger.Branch.CompleteDailyOpening` | src/modules/branch-finance/branch-finance.service.ts:401-453 | completes the day's checklist row when there is one, and reports whether there was, as one step of a run |
| `ReadCache.OpeningCashReader.FullDayOperationalNetCash` | src/modules/branch-finance/services/finance-daily-balance.service.ts:769-815 | the net returned was read from the tables less than 8000 ms before the call |
| `ReadCache.OpeningCashReader.ExpectedOpeningCash` | src/modules/branch-finance/services/finance-daily-balance.service.ts:1142-1206 | the amount is the value of reads made less than 8000 ms before the call, its nets less than 16000 ms; the uncached answer when nothing was written since |
| `ReadCache.OpeningCashReader.LedgerBookEnding` | src/modules/branch-finance/services/finance-daily-balance.service.ts:857-915 | book position of a day, read by read |
| `ReadCache.OpeningCashReader.LastClosedEndDayAmount` | src/modules/branch-finance/services/finance-daily-balance.service.ts:1068-1136 | amount carried from the last closed session, read by read |
| `ReadCache.OpeningCashReader.SuggestedStartingBasis` | src/modules/branch-finance/services/finance-daily-balance.service.ts:920-1062 | suggested basis with its legacy and first-day branches, read by read |
| `ReadCache.OpeningCashReader.Carry` | src/modules/branch-finance/services/finance-daily-balance.service.ts:947-970 | the day-by-day loop adds each day's net once, or takes the maximum on the same day |
| `ReadCache.QuietExpected` | src/modules/branch-finance/services/finance-daily-balance.service.ts:1142-1206 | reads of tables that do not change, cached or not, give the one-snapshot answer |
| `ReadCache.QuietSpan` | src/modules/branch-finance/services/finance-daily-balance.service.ts:948-957 | the day-by-day sum of nets read at any instants of a quiet window is the sum of one snapshot |
| `FundTheorems.AmountsShrink` | src/modules/fund-requests/services/fund-requests.service.ts:217-250 | confirmed ≤ transferred ≤ requested, and the legacy 'approved' disjuncts of both pending-row predicates are never true |
| `FundTheorems.DebitedExactlyOnce` | src/modules/fund-requests/services/fund-requests.service.ts:1684-1853 | a branch-routed request was debited exactly once, by the amount transferred, from the moment its source confirmed; each debit is a live row of the source's book |
| `FundTheorems.StatusMachine` | src/modules/fund-requests/services/fund-requests.service.ts:1371-2195 | every action moves every request along an arrow of the status machine or leaves it; a terminal request keeps its whole row |
| `FundTheorems.SourceConfirmCompletes` | src/modules/fund-requests/services/fund-requests.service.ts:1684-1853 | a source confirmation that passes its checks always reaches pending_confirmation |
| `FundTheorems.FailedConfirmChangesNothing` | src/modules/fund-requests/services/fund-requests.service.ts:1904-2094 | a failure at any write of a confirmation, compensated, leaves every request and every live row as before, and every branch's balances, nets, prior endings and book endings on every day |
| `FundTheorems.FailedConfirmLatestExactly` | src/modules/fund-requests/services/fund-requests.service.ts:426-444 | it moves the latest stored ending of a branch if and only if it leaves the branch's first balance row and the capital is not 0 |
| `FundTheorems.FailedConfirmExpectedExactly` | src/modules/branch-finance/services/finance-daily-balance.service.ts:1142-1206 | it changes an expected opening if and only if it leaves a row on that day and all else expected is negative; never in strict mode |
| `FundExamples.CompensationMayFreeFunds` | src/modules/fund-requests/services/fund-requests.service.ts:1859-1902 | a reachable desk on which a release refused before a failed confirmation is accepted after its compensation |
| `FundExamples.CompensationMayLowerExpectation` | src/modules/fund-requests/services/fund-requests.service.ts:1859-1902 | a reachable book on which a failed and compensated receipt lowers the expected opening |
| `FundTheorems.RetryAfterFailure` | src/modules/fund-requests/services/fund-requests.service.ts:1859-1902 | a retry after such a failure succeeds exactly when the first attempt would have |
| `FundTheorems.ConfirmSucceedsExactly` | src/modules/fund-requests/services/fund-requests.service.ts:1904-2094 | a confirmation with no failing write succeeds unless it is an expense that a strict branch cannot bear |
| `FundTheorems.TransfersConserveCash` | src/modules/fund-requests/services/fund-requests.service.ts:1684-2094 | over every run: live non-expense fund rows sum to minus what is on its way minus the shortages of completed transfers |
| `FundLedgers.BooksMatchThroughout` | src/modules/fund-requests/services/fund-requests.service.ts:714-846 | in every run the fund-transfer rows of a branch's book and its rows in the journal correspond one to one, with equal cash and void flag |
| `FundLedgers.MatchingCash` | src/modules/fund-requests/services/fund-requests.service.ts:714-846 | rows that correspond one to one have the same live cash |
| `FundLedgers.TablesConserveCash` | src/modules/fund-requests/services/fund-requests.service.ts:1684-2094 | the same conservation law over all branches' books and head office together |
| `FundProofs.ActKeepsInv` | src/modules/fund-requests/services/fund-requests.service.ts:1018-2195 | every action keeps the protocol's invariant: amounts, row scripts, hidden request numbers |
| `FundProofs.FailedConfirmKeepsInv` | src/modules/fund-requests/services/fund-requests.service.ts:1859-1902 | a failed confirmation keeps it too |
| `FundEffects.ConfirmEffect` | src/modules/fund-requests/services/fund-requests.service.ts:1904-2094 | a confirmation that goes through records the amount the receiver counted, or without a count the one sent: in the request, the live arrival row, the head-office row when no branch sent it, and the balance of the destination (minus it for an expense); nothing else changes |
| `FundEffects.ConfirmRefusals` | src/modules/fund-requests/services/fund-requests.service.ts:1904-1978 | nothing is written unless the request waits for its receipt and the amount is positive and at most the one sent |
| `FundEffects.ConfirmAccepted` | src/modules/fund-requests/services/fund-requests.service.ts:1904-2094 | with no failing write it goes through exactly when the amount fits, but for an expense that a strict branch cannot bear |
| `FundEffects.CreateEffect` | src/modules/fund-requests/services/fund-requests.service.ts:1018-1101 | a request for a positive amount of a known branch is added, waiting, with nothing approved, sent or confirmed |
| `FundEffects.ReviewEffect` | src/modules/fund-requests/services/fund-requests.service.ts:1371-1464 | a waiting request becomes approved with the granted amount, or the requested one, when that is positive and not more than requested, or rejected without an amount; every other call changes nothing |
| `FundEffects.CancelEffect` | src/modules/fund-requests/services/fund-requests.service.ts:2165-2195 | a waiting request, and no other, becomes cancelled |
| `FundEffects.TransferEffect` | src/modules/fund-requests/services/fund-requests.service.ts:1466-1682 | an approved request is released for the amount given, or the approved one, through the source given, or its own, exactly when the amount fits and the latest stored ending of that source, another branch, bears it; it then waits for the source or, without one, for the receipt |
| `FundEffects.DirectEffect` | src/modules/fund-requests/services/fund-requests.service.ts:1103-1297 | a direct transfer adds a request approved and sent for its amount, under the same condition on its source |
| `FundEffects.SourceConfirmEffect` | src/modules/fund-requests/services/fund-requests.service.ts:1684-1853 | the source hands over what it counted, or the amount released, exactly when that fits and its latest stored ending bears it: its row, its balance and the request record that amount |
| `FundEffects.RowsOfRequest` | src/modules/fund-requests/services/fund-requests.service.ts:714-846 | the live rows of a request are none before the source handed over, then the debit of the amount sent, and in the end also the arrival and, when no branch sent it, the head-office row, of the amount confirmed |
| `FundDesk.Service.CreateRequest` | src/modules/fund-requests/services/fund-requests.service.ts:1018-1101 | in place, one action of a run |
| `FundDesk.Service.CreateDirectTransfer` | src/modules/fund-requests/services/fund-requests.service.ts:1103-1297 | in place, one action of a run: source check, insertion, start of the wait |
| `FundDesk.Service.ReviewRequest` | src/modules/fund-requests/services/fund-requests.service.ts:1371-1464 | in place, one action of a run; a success approves for the granted or the requested amount, or rejects |
| `FundDesk.Service.TransferFunds` | src/modules/fund-requests/services/fund-requests.service.ts:1466-1682 | in place, one action of a run: checks, amount fallback, status by routing; the source and the amount recorded are those given, or those the request has |
| `FundDesk.Service.SourceConfirm` | src/modules/fund-requests/services/fund-requests.service.ts:1684-1853 | row, balance, request, in this order, one action of a run; it succeeds exactly when its checks pass and records the amount the source counted, or the one released |
| `FundDesk.Service.RollbackDestinationFundConfirmArtifacts` | src/modules/fund-requests/services/fund-requests.service.ts:1859-1902 | reverses the applied balance change and voids exactly the rows written |
| `FundDesk.Service.WriteReceipt` | src/modules/fund-requests/services/fund-requests.service.ts:1980-2032 | head-office row, arrival row and balance change, and how far they came before a failure |
| `FundDesk.Service.ConfirmReceipt` | src/modules/fund-requests/services/fund-requests.service.ts:1904-2094 | the write-by-write confirmation with its compensation is one action of a run for every point of failure; a success records the amount counted, or the one sent, in the request and in the tables of the destination |
| `FundDesk.Service.CancelRequest` | src/modules/fund-requests/services/fund-requests.service.ts:2165-2195 | in place, one action of a run |
| `PasswordProofs.RebuiltIsMachineExactly` | src/modules/password-change-requests/services/password-change-requests.service.ts:201-319 | what commands rebuild from the log is the state machine if and only if the log has at most 5000 rows, over every run |
| `PasswordProofs.RequestsWellKept` | src/modules/password-change-requests/services/password-change-requests.service.ts:472-583 | up to 5000 rows a requester has at most one pending request and only approved requests are activated |
| `PasswordProofs.RepeatAcceptedExactly` | src/modules/password-change-requests/services/password-change-requests.service.ts:472-838 | an accepted command can be repeated, an activation by some further activation of the same request, if and only if its row cannot be seen: not stored, or the log was full |
| `PasswordProofs.FurtherActivationExactly` | src/modules/password-change-requests/services/password-change-requests.service.ts:744-838 | after an activation another one of the same request is accepted if and only if the first cannot be seen and the second presents the password it set and a different new one |
| `PasswordProofs.SameActivationRefused` | src/modules/password-change-requests/services/password-change-requests.service.ts:780-780 | the very same activation is never accepted twice |
| `PasswordProofs.ActivatedAtMostOnce` | src/modules/password-change-requests/services/password-change-requests.service.ts:744-838 | up to 5000 rows, with every activation logged, a request sets a password at most once and only when approved |
| `PasswordProofs.LostActivationRepeats` | src/modules/password-change-requests/services/password-change-requests.service.ts:780-817 | an activation whose log row is lost can be followed by another with the password just set, and the approval has set two passwords |
| `PasswordExamples.TwoPasswordsOneApproval` | src/modules/password-change-requests/services/password-change-requests.service.ts:744-838 | a run in which one approval sets two passwords, each activation presenting the password of the time |
| `PasswordExamples.LongLogIsNotRebuilt` | src/modules/password-change-requests/services/password-change-requests.service.ts:201-220 | a run of 5001 rows whose log does not rebuild the state machine |
| `PasswordProofs.StrayRowIgnored` | src/modules/password-change-requests/services/password-change-requests.service.ts:272-276 | a review or activation row with a missing or unknown id changes nothing, whatever follows it |
| `PasswordProofs.RowMeansCommand` | src/modules/password-change-requests/services/password-change-requests.service.ts:515-530 | the row an accepted command writes replays as what the command meant |
| `PasswordEffects.AskEffect` | src/modules/password-change-requests/services/password-change-requests.service.ts:472-583 | up to 5000 rows a request is accepted exactly from an admin, or an employee with a branch, who gives a reason, has none pending and whom somebody can approve; the record it leaves, target role included |
| `PasswordEffects.ReviewEffect` | src/modules/password-change-requests/services/password-change-requests.service.ts:631-742 | a review is accepted exactly for a pending request from its target role, an admin only for the own branch; what the decision leaves in the record |
| `PasswordEffects.ReviewedByRank` | src/modules/password-change-requests/services/password-change-requests.service.ts:646-663 | so an employee is decided on by an admin of the same branch and an admin by a super admin, in every run |
| `PasswordEffects.ActivateEffect` | src/modules/password-change-requests/services/password-change-requests.service.ts:744-838 | an activation is accepted exactly from the requester of an approved request, not used yet, who presents the password of the time and another new one; only that password changes |
| `PasswordEffects.IncompleteRows` | src/modules/password-change-requests/services/password-change-requests.service.ts:222-319 | what rows without an id, a requester, a role or a decision stand for |
| `PasswordService.Service.BuildRecords` | src/modules/password-change-requests/services/password-change-requests.service.ts:222-319 | the loop over the log computes the replay |
| `PasswordService.Service.CreateRequest` | src/modules/password-change-requests/services/password-change-requests.service.ts:472-583 | one step of a run, accepted exactly by its guard |
| `PasswordService.Service.ReviewRequest` | src/modules/password-change-requests/services/password-change-requests.service.ts:631-742 | one step of a run, accepted exactly by its guard |
| `PasswordService.Service.ActivateRequest` | src/modules/password-change-requests/services/password-change-requests.service.ts:744-838 | one step of a run: accepted exactly when the record allows it, the current password is the one the user has, and the new one is taken |
| `PasswordService.Service.SetPassword` | src/modules/auth/services/auth.service.ts:1185-1187 | another service sets a password; the tables stay those of a run |
| `CustomerNames.SameNameExactly` | src/common/utils/customer-name.util.ts:1-5 | before case is folded two names normalise to the same text if and only if they have the same words |
| `CustomerNames.NormalizedName` | src/common/utils/customer-name.util.ts:1-5 | the normalised name is the words of the name, joined by single blanks, in lower case |
| `CustomerMerge.SurvivorsLive` | src/modules/customers/services/customers.service.ts:707-766 | after the merge exactly the survivors of the listing are live; other customers and all names are untouched |
| `CustomerMerge.NamesDistinct` | src/modules/customers/services/customers.service.ts:670-799 | live customers of the branch have pairwise distinct normalised names |
| `CustomerMerge.NamesKept` | src/modules/customers/services/customers.service.ts:670-799 | every name that was live still is: its survivor is live and its group's earliest |
| `CustomerMerge.NoNewNames` | src/modules/customers/services/customers.service.ts:670-799 | no other customer becomes live or changes its name |
| `CustomerMerge.ItemsFollowSurvivors` | src/modules/customers/services/customers.service.ts:714-719 | every item of a merged customer points at the live survivor of that customer's own name; every other item is untouched |
| `CustomerMerge.LogsFollowSurvivors` | src/modules/customers/services/customers.service.ts:721-758 | a log of the branch that names a merged customer, unless its update fails, names the live survivor of that customer's own name in both properties; every other log is untouched |
| `CustomerMerge.SecondRunMergesNothing` | src/modules/customers/services/customers.service.ts:707-708 | a second run finds only groups of one and changes nothing |
| `CustomerService.InOrderIsMerged` | src/modules/customers/services/customers.service.ts:707-792 | merging group after group comes to the same as merging all at once |
| `CustomerService.SummaryTells` | src/modules/customers/services/customers.service.ts:760-792 | each summary is about one name: its live survivor and exactly the customers merged into it |
| `CustomerService.MergedIsSummarised` | src/modules/customers/services/customers.service.ts:760-792 | every merged customer is in the summary of its name |
| `CustomerService.Service.GroupByName` | src/modules/customers/services/customers.service.ts:684-690 | the map of groups and the order of first appearance |
| `CustomerService.Service.RelabelLogs` | src/modules/customers/services/customers.service.ts:721-758 | the branch's logs that name a duplicate are relabelled from the snapshot, but for failed updates |
| `CustomerService.Service.MergeDuplicateCustomers` | src/modules/customers/services/customers.service.ts:670-799 | the in-place merge leaves exactly the merged tables, one log and one summary per merged name |
| `Calendar.FormulaIsDayFromYear` | src/common/utils/branch-calendar-date.util.ts:111-121 | DayFromYear in closed form counts the leap years right for every year |
| `Calendar.FromDayOfNumber` | src/common/utils/branch-calendar-date.util.ts:116-119 | a date is found again from its day number, and the search is exact for every integer day |
| `Calendar.DatesOrdered` | src/common/utils/branch-calendar-date.util.ts:111-121 | dates are ordered as their day numbers |
| `Calendar.MonthLengths` | src/common/utils/branch-calendar-date.util.ts:111-121 | April, June, September and November have 30 days, February 28 or in a Gregorian leap year 29, the others 31; they fill the year |
| `DateStrings.AddShifts` | src/common/utils/branch-calendar-date.util.ts:111-121 | adding days to a date string of the years 1000 to 9999 gives the string of the shifted day |
| `DateStrings.AddIsAdditive` | src/common/utils/branch-calendar-date.util.ts:111-121 | additivity over date strings |
| `DateStrings.NextDayAgrees` | src/modules/inventory/services/inventory.service.ts:321-325 | the inventory's next day and adding one day are the same string |
| `DateStrings.TwoDigitYears` | src/common/utils/branch-calendar-date.util.ts:111-121 | a date of the years 0 to 99 is taken for one of 1900 to 1999 |
| `DateStrings.NextDayParts` | src/modules/inventory/services/inventory.service.ts:321-325 | after 9999-12-31 the two next days differ: the inventory signs and pads the year |
| `DateStrings.DateStringsOrdered` | src/common/utils/branch-calendar-date.util.ts:111-121 | date strings compare as their days |
| `DateStrings.DateOfNumber` | src/common/utils/branch-calendar-date.util.ts:111-121 | every valid date string of those years is the string of its day |
| `DateStrings.VisitDays` | src/modules/branch-finance/services/finance-daily-balance.service.ts:948-957 | a string-compared loop ends and visits each day once, in order |
| `DateStrings.GuardFailsExactly` | src/modules/branch-finance/services/finance-daily-balance.service.ts:949-957 | the loop guard stays true after the last turn if and only if the end is 9999-12-31 |
| `ItemTransfers.CustodyThroughout` | src/modules/inventory/services/inventory.service.ts:2104-2353 | in every run, failed inserts included: at most one pending transfer, none for an available item, received transfers chain, item at the last target |
| `ItemTransfers.ReceiptKeepsCustodyExactly` | src/modules/inventory/services/inventory.service.ts:2322-2353 | a receipt keeps custody if and only if its second write succeeds |
| `ItemTransfers.LostReceiptLosesCustody` | src/modules/inventory/services/inventory.service.ts:2322-2353 | a reachable stock on which a receipt that loses its second write loses custody |
| `ItemTransfers.NextKeepsCustody` | src/modules/inventory/services/inventory.service.ts:2104-2353 | each step keeps custody |
| `ItemTransfers.RequestEffect` | src/modules/inventory/services/inventory.service.ts:2104-2207 | in every reachable stock a transfer is requested exactly for an available item and another known branch; the item waits and one pending transfer is added, or, when the insert fails, none is and the repair makes the item available |
| `ItemTransfers.FailedRequest` | src/modules/inventory/services/inventory.service.ts:2196-2200 | after a failed insert the item is available exactly when the repair was written |
| `ItemTransfers.ReceiveEffect` | src/modules/inventory/services/inventory.service.ts:2322-2353 | a pending transfer to a known branch is marked received and its item is available there |
| `ItemTransfers.AddAndDeleteEffect` | src/modules/inventory/services/inventory.service.ts:1741-1800 | an item is added with its status, available by default; a deleted one had no transfer |
| `ItemTransfers.SaleEffect` | src/modules/inventory/services/inventory.service.ts:2702-2730 | an item is sold unless it is sold already; an item is held only when available |
| `InventoryService.Service.CreateTransferRequest` | src/modules/inventory/services/inventory.service.ts:2104-2207 | mark, insert, repair on failure: one step of a run; accepted exactly for an available item and another known branch when the insert succeeds |
| `InventoryService.Service.Receive` | src/modules/inventory/services/inventory.service.ts:2272-2353 | transfer row, then item; a success leaves the item available at the target; custody is kept if and only if the item was written or nothing was |
| `FieldEncryption.DecryptEncrypt` | src/common/encryption/encryption.service.ts:75-107 | every text survives encryption, and a non-empty one becomes a recognised token |
| `FieldEncryption.TokenReads` | src/common/encryption/encryption.service.ts:58-73 | a token is recognised and its three parts are read back |
| `FieldEncryption.ReadWritten` | src/common/encryption/encryption.service.ts:124-145 | reading a customer row undoes writing it, for every record |
| `FieldEncryption.WriteSeals` | src/common/encryption/encryption.service.ts:124-131 | after a write each of the seven fields address, barangay, city, region, contact_number, email and id_presented that held a text, not empty, holds a recognised token that opens to it; every other field is as it was |
| `FieldEncryption.PlainIsRead` | src/common/encryption/encryption.service.ts:84-107 | what is read differs from what is stored only when the stored text has three parts of the right lengths and the cipher opens them |
| `FieldEncryption.ApplyCustomerFieldsForWrite` | src/common/encryption/encryption.service.ts:124-131 | the record is rewritten in place, field by field: every listed text that is not empty becomes a token that opens to it, and nothing else changes |
| `FieldEncryption.DecryptCustomerRow` | src/common/encryption/encryption.service.ts:133-145 | a decrypted copy |
| `FieldEncryption.PeelNested` | src/modules/inventory/services/inventory.service.ts:822-830 | of nested layers the display name takes off five, whatever their number |
| `FieldEncryption.DisplayNameExactly` | src/modules/inventory/services/inventory.service.ts:822-830 | a name encrypted several times comes back if and only if at most five layers were put on, or it is empty |
| `EncryptionExamples.SixLayersStay` | src/modules/inventory/services/inventory.service.ts:822-830 | a cipher and a name under six layers that is not read back |
| `EncryptionExamples.PlainCipherInverts` | src/common/encryption/encryption.service.ts:75-107 | a cipher that satisfies what is assumed of the encryption |
| `FieldEncryption.DecryptUserDisplayName` | src/modules/inventory/services/inventory.service.ts:822-830 | the loop computes the peeling |
| `Base64.DecodeEncode` | src/common/encryption/encryption.service.ts:84-96 | base64 reads back what it wrote, for all bytes |
| `Base64.Alphabet` | src/common/encryption/encryption.service.ts:58-73 | the alphabet of section 4 of RFC 4648 |
| `Base64.TestVectors` | src/common/encryption/encryption.service.ts:58-73 | the test vectors of section 10 of RFC 4648 |
| `Base64.EncodePlain` | src/common/encryption/encryption.service.ts:58-73 | encoded text never contains the token separator and is empty only for no bytes |

## Left out

- `reconcileOpenSessionDailyBalance` has no caller in the source; it is proved about reachable states but is no step of a run.
- Purposes and units are enumerations after trimming and lower-casing; the marker queries of the source compare the exact purpose, so a marker row spelled differently is not modelled.
- Money is exact: IEEE floats and toFixed(2) are not modelled; the 0.009 mismatch tolerance is equality and the 0.01 tolerance one centavo.
- A full-day net read, the book ending of an open session, and a prior ending with the opening capital it falls back to are one snapshot each; all other reads behind the caches are separate.
- Missing-column and older-schema fallbacks of the finance service, and `BranchBusinessSessionService`.
- Roles, receiver assignment, inactive branches, proof uploads, notifications and audit logs of fund requests.
- The fallbacks of fund requests for databases that reject the new statuses or the purpose: the properties do not hold there.
- LedgerTheorems.FastBalanceIsSimpleBalance: is about runs whose cash-moving postings are dated today; for any other date `PostingDrift` says how far one posting drives the balances apart, not how several add up over later shifts.
- A failure of the last write of `sourceConfirm`, which nothing compensates, and failures inside the compensation itself.
- The automatic start of a branch day after a receipt: it is an open step like any other.
- Concurrent calls on one fund request, log or sale item: the source reads and then writes without a lock.
- Password requests: the order of the returned list, listings for approvers, the e-mail lookup of the account, and JSON text (details are taken as parsed).
- Customer merge: the updates of logs go out fifty at a time in the source, here one after the other; a log whose details are the JSON text null stops the source's merge and is not modelled; tables other than pawned items are not touched by the source either.
- Date strings that are not of the form YYYY-MM-DD, where the source yields NaN, and dates that do not exist passed to the inventory's next day.
- Item prices, sale postings and branch permissions of the inventory service; "sold is final" does not hold there, a sold item under a pending transfer can be received as available.
- Base64 text with padding in the middle: the reader here skips it, as it skips every character outside the alphabets.
- `getSummary`, dashboards, QR tally, category matching and incident tickets: they would add only easy members.
