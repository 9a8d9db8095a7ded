/** Custody of sale items between branches: transfer requests and receipts over the tables of items and
    transfers. */
module ItemTransfers {
  import opened Options
  import opened Strings

  /** A `sale_items` row. */
  datatype Item = Item(branch: string, status: string)

  /** A `transfer_items` row; its id is its position. */
  datatype Transfer = Transfer(item: string, source: string, target: string, received: bool)

  datatype Stock = Stock(items: map<string, Item>, transfers: seq<Transfer>, branches: set<string>)

  predicate IsAvailable(i: Item) { LowerAscii(Trim(i.status)) == "available" }

  predicate HasPending(transfers: seq<Transfer>, item: string) {
    exists k | 0 <= k < |transfers| :: transfers[k].item == item && !transfers[k].received
  }

  predicate HasTransfer(transfers: seq<Transfer>, item: string) {
    exists k | 0 <= k < |transfers| :: transfers[k].item == item
  }

  function WithStatus(s: Stock, item: string, status: string): Stock
    requires item in s.items
  {
    s.(items := s.items[item := s.items[item].(status := status)])
  }

  /** A new item: put up for sale, or moved over from the pawned items. */
  function AddItem(s: Stock, item: string, branch: string, status: string): Option<Stock> {
    if item in s.items || branch == "" then None
    else Some(s.(items := s.items[item := Item(branch, if status == "" then "Available" else status)]))
  }

  /** Which write of a transfer request fails: none, the transfer row, or that and the repair after it. */
  datatype Failure = Nothing | Insert | InsertAndRepair

  /** Whether a transfer of `item` to `target` may be requested. */
  predicate MayRequest(s: Stock, item: string, target: string) {
    && Trim(target) != "" && item in s.items && IsAvailable(s.items[item]) && s.items[item].branch != Trim(target)
    && !HasPending(s.transfers, item) && Trim(target) in s.branches
  }

  /** Requests a transfer: the item is marked, then the transfer is written; if that fails the item is
      put back. */
  function RequestTransfer(s: Stock, item: string, target: string, failure: Failure): (Stock, bool) {
    if !MayRequest(s, item, target) then (s, false)
    else
      match failure
      case Nothing =>
        (WithStatus(s, item, "Transfer Pending").(transfers := s.transfers
            + [Transfer(item, s.items[item].branch, Trim(target), false)]), true)
      case Insert => (WithStatus(s, item, "Available"), false)
      case InsertAndRepair => (WithStatus(s, item, "Transfer Pending"), false)
  }

  /** Receives a pending transfer: the transfer first, then the item; nothing undoes the first write
      when the second fails. */
  function ReceiveTransfer(s: Stock, id: nat, itemWritten: bool): (Stock, bool) {
    if id >= |s.transfers| || s.transfers[id].received || s.transfers[id].target !in s.branches then (s, false)
    else
      var t := s.transfers[id];
      var s1 := s.(transfers := s.transfers[id := t.(received := true)]);
      if !itemWritten then (s1, false)
      else (if t.item in s1.items then s1.(items := s1.items[t.item := Item(t.target, "Available")]) else s1, true)
  }

  function MarkSold(s: Stock, item: string): Option<Stock> {
    if item !in s.items || s.items[item].status == "Sold" then None else Some(WithStatus(s, item, "Sold"))
  }

  function Reserve(s: Stock, item: string): Option<Stock> {
    if item !in s.items || Trim(s.items[item].status) != "Available" then None
        else Some(WithStatus(s, item, "Reserved"))
  }

  /** Transfers keep a reference to their item, so an item that has any is not deleted. */
  function DeleteItem(s: Stock, item: string): Option<Stock> {
    if item !in s.items || HasTransfer(s.transfers, item) then None else Some(s.(items := s.items - {item}))
  }

  /* ---------- runs ---------- */

  datatype Step =
    | Add(item: string, branch: string, status: string)
    | Request(item: string, target: string, failure: Failure)
    | Receive(id: nat, itemWritten: bool)
    | Sell(item: string)
    | Hold(item: string)
    | Delete(item: string)

  function OrSame(s: Stock, o: Option<Stock>): Stock { if o.Some? then o.value else s }

  function Next(s: Stock, x: Step): Stock {
    match x
    case Add(item, branch, status) => OrSame(s, AddItem(s, item, branch, status))
    case Request(item, target, failure) => RequestTransfer(s, item, target, failure).0
    case Receive(id, itemWritten) => ReceiveTransfer(s, id, itemWritten).0
    case Sell(item) => OrSame(s, MarkSold(s, item))
    case Hold(item) => OrSame(s, Reserve(s, item))
    case Delete(item) => OrSame(s, DeleteItem(s, item))
  }

  function Run(branches: set<string>, trace: seq<Step>): Stock
    decreases |trace|, 1
  {
    if trace == [] then Stock(map[], [], branches) else AfterLast(branches, trace)
  }

  function AfterLast(branches: set<string>, trace: seq<Step>): Stock
    requires trace != []
    decreases |trace|, 0
  {
    Next(Run(branches, trace[..|trace| - 1]), trace[|trace| - 1])
  }

  /** Every receipt of the run wrote the item too. */
  predicate ReceiptsComplete(trace: seq<Step>) { forall x | x in trace && x.Receive? :: x.itemWritten }

  /* ---------- custody ---------- */

  /** The transfers of one item, oldest first. */
  function TransfersOf(transfers: seq<Transfer>, item: string): seq<Transfer> {
    if transfers == [] then []
    else
      var n := |transfers| - 1;
      TransfersOf(transfers[..n], item) + (if transfers[n].item == item then [transfers[n]] else [])
  }

  /** Only the last transfer of an item may be pending; each one starts where the one before it ended,
      and the item is where the last receipt left it: at the pending transfer's source, or at the last
      target. */
  predicate Chained(ts: seq<Transfer>, at: string) {
    && (forall i | 0 <= i < |ts| - 1 :: ts[i].received && ts[i + 1].source == ts[i].target)
    && (ts != [] ==> at == if ts[|ts| - 1].received then ts[|ts| - 1].target else ts[|ts| - 1].source)
  }

  predicate IsPendingOf(t: Transfer, item: string) { t.item == item && !t.received }

  predicate ItemOk(i: Item, transfers: seq<Transfer>, item: string) {
    Chained(TransfersOf(transfers, item), i.branch) && (IsAvailable(i) ==> !HasPending(transfers, item))
  }

  ghost predicate RowsOk(s: Stock) {
    forall k | 0 <= k < |s.transfers| :: s.transfers[k].item in s.items
        && s.transfers[k].source != s.transfers[k].target
  }

  ghost predicate CustodyOk(s: Stock) {
    RowsOk(s) && forall item | item in s.items :: ItemOk(s.items[item], s.transfers, item)
  }

  /* ---------- lemmas about the transfers of one item ---------- */

  lemma TransfersAppend(ts: seq<Transfer>, t: Transfer, item: string)
    ensures TransfersOf(ts + [t], item) == TransfersOf(ts, item) + (if t.item == item then [t] else [])
  {
    assert (ts + [t])[..|ts|] == ts;
  }

  /** How many transfers of `item` come before row `k`. */
  function Rank(ts: seq<Transfer>, item: string, k: nat): nat
    requires k <= |ts|
  {
    |TransfersOf(ts[..k], item)|
  }

  lemma {:induction false} TransferAt(ts: seq<Transfer>, item: string, k: nat)
    requires k < |ts| && ts[k].item == item
    ensures Rank(ts, item, k) < |TransfersOf(ts, item)| && TransfersOf(ts, item)[Rank(ts, item, k)] == ts[k]
  {
    var n := |ts| - 1;
    if k < n {
      TransferAt(ts[..n], item, k);
      assert ts[..n][..k] == ts[..k];
    }
  }

  lemma {:induction false} TransferUpdate(ts: seq<Transfer>, k: nat, t: Transfer, item: string)
    requires k < |ts| && t.item == ts[k].item
    ensures ts[k].item != item ==> TransfersOf(ts[k := t], item) == TransfersOf(ts, item)
    ensures ts[k].item == item ==> Rank(ts, item, k) < |TransfersOf(ts, item)|
                                   && TransfersOf(ts[k := t], item) == TransfersOf(ts, item)[Rank(ts, item, k) := t]
  {
    var n := |ts| - 1;
    if k < n {
      TransferUpdate(ts[..n], k, t, item);
      assert ts[k := t][..n] == ts[..n][k := t];
      assert ts[..n][..k] == ts[..k];
    } else {
      assert ts[k := t][..n] == ts[..n];
    }
  }

  lemma NoneUnlessTransfer(ts: seq<Transfer>, item: string)
    requires !HasTransfer(ts, item)
    ensures TransfersOf(ts, item) == []
  {
    if ts != [] {
      var n := |ts| - 1;
      assert ts[n].item != item;
      assert forall k | 0 <= k < n :: ts[..n][k] == ts[k];
      NoneUnlessTransfer(ts[..n], item);
    }
  }

  lemma {:induction false} TransfersAreOf(ts: seq<Transfer>, item: string, i: nat) returns (k: nat)
    requires i < |TransfersOf(ts, item)|
    ensures k < |ts| && ts[k].item == item && ts[k] == TransfersOf(ts, item)[i]
  {
    var n := |ts| - 1;
    if i < |TransfersOf(ts[..n], item)| {
      k := TransfersAreOf(ts[..n], item, i);
    } else {
      k := n;
    }
  }

  lemma {:induction false} RankGrows(ts: seq<Transfer>, item: string, j: nat, k: nat)
    requires j < k <= |ts| && ts[j].item == item
    ensures Rank(ts, item, j) < Rank(ts, item, k)
  {
    assert ts[..k][..j] == ts[..j];
    TransferAt(ts[..k], item, j);
  }

  /** In a chain only the last transfer may be pending. */
  lemma PendingIsLast(ts: seq<Transfer>, item: string, at: string, k: nat)
    requires Chained(TransfersOf(ts, item), at) && k < |ts| && IsPendingOf(ts[k], item)
    ensures Rank(ts, item, k) == |TransfersOf(ts, item)| - 1
  {
    TransferAt(ts, item, k);
  }

  lemma OnePending(ts: seq<Transfer>, item: string, at: string, j: nat, k: nat)
    requires Chained(TransfersOf(ts, item), at) && j < |ts| && k < |ts| && IsPendingOf(ts[j], item)
        && IsPendingOf(ts[k], item)
    ensures j == k
  {
    PendingIsLast(ts, item, at, j);
    PendingIsLast(ts, item, at, k);
    if j < k { RankGrows(ts, item, j, k); }
    if k < j { RankGrows(ts, item, k, j); }
  }

  /** Without a pending transfer the item is at its last target. */
  lemma SettledAt(ts: seq<Transfer>, item: string, at: string)
    requires Chained(TransfersOf(ts, item), at) && !HasPending(ts, item) && TransfersOf(ts, item) != []
    ensures var own := TransfersOf(ts, item); own[|own| - 1].received && at == own[|own| - 1].target
  {
    var own := TransfersOf(ts, item);
    var k := TransfersAreOf(ts, item, |own| - 1);
  }

  /* ---------- each step keeps custody ---------- */

  lemma NotAvailable(branch: string)
    ensures !IsAvailable(Item(branch, "Transfer Pending")) && !IsAvailable(Item(branch, "Sold"))
        && !IsAvailable(Item(branch, "Reserved"))
  {
    CleanIsTrimmed("Transfer Pending");
    CleanIsTrimmed("Sold");
    CleanIsTrimmed("Reserved");
    assert |LowerAscii("Transfer Pending")| == 16 && |LowerAscii("Sold")| == 4 && |LowerAscii("Reserved")| == 8;
  }

  lemma StatusKeepsCustody(s: Stock, item: string, status: string)
    requires CustodyOk(s) && item in s.items
        && (IsAvailable(Item(s.items[item].branch, status)) ==> !HasPending(s.transfers, item))
    ensures CustodyOk(WithStatus(s, item, status))
  {
  }

  lemma AddKeepsCustody(s: Stock, item: string, branch: string, status: string)
    requires CustodyOk(s)
    ensures CustodyOk(OrSame(s, AddItem(s, item, branch, status)))
  {
    if item !in s.items { NoneUnlessTransfer(s.transfers, item); }
  }

  /** A transfer that starts where the item is extends the chain. */
  lemma RequestChains(ts: seq<Transfer>, item: string, at: string, t: Transfer)
    requires Chained(TransfersOf(ts, item), at) && !HasPending(ts, item) && t.item == item && t.source == at
        && !t.received
    ensures Chained(TransfersOf(ts + [t], item), at)
  {
    TransfersAppend(ts, t, item);
    if TransfersOf(ts, item) != [] { SettledAt(ts, item, at); }
  }

  lemma OtherTransfer(ts: seq<Transfer>, t: Transfer, x: string)
    requires t.item != x
    ensures TransfersOf(ts + [t], x) == TransfersOf(ts, x) && (HasPending(ts + [t], x) ==> HasPending(ts, x))
  {
    TransfersAppend(ts, t, x);
    assert TransfersOf(ts, x) + [] == TransfersOf(ts, x);
    if k :| 0 <= k < |ts + [t]| && (ts + [t])[k].item == x && !(ts + [t])[k].received {
      assert ts[k].item == x;
    }
  }

  /** Marking an item that has no pending transfer and writing one for it. */
  lemma MarkedKeepsCustody(s: Stock, item: string, marked: Item, t: Transfer)
    requires CustodyOk(s) && item in s.items && !HasPending(s.transfers, item) && marked.branch == s.items[item].branch
        && !IsAvailable(marked)
    requires t.item == item && t.source == marked.branch && !t.received && t.source != t.target
    ensures CustodyOk(s.(items := s.items[item := marked], transfers := s.transfers + [t]))
  {
    var s' := s.(items := s.items[item := marked], transfers := s.transfers + [t]);
    assert ItemOk(marked, s'.transfers, item) by {
      assert ItemOk(s.items[item], s.transfers, item);
      RequestChains(s.transfers, item, marked.branch, t);
    }
    forall x | x in s'.items && x != item ensures ItemOk(s'.items[x], s'.transfers, x) {
      assert ItemOk(s.items[x], s.transfers, x);
      OtherTransfer(s.transfers, t, x);
    }
    assert RowsOk(s') by { assert forall k | 0 <= k < |s.transfers| :: s'.transfers[k] == s.transfers[k]; }
  }

  lemma RequestKeepsCustody(s: Stock, item: string, target: string)
    requires CustodyOk(s) && MayRequest(s, item, target)
    ensures CustodyOk(RequestTransfer(s, item, target, Nothing).0)
  {
    var from := s.items[item].branch;
    NotAvailable(from);
    MarkedKeepsCustody(s, item, Item(from, "Transfer Pending"), Transfer(item, from, Trim(target), false));
  }

  /** Receiving the last transfer of a chain moves the end of the chain to its target. */
  lemma LastReceived(own: seq<Transfer>, at: string)
    requires own != [] && Chained(own, at)
    ensures var n := |own| - 1; Chained(own[n := own[n].(received := true)], own[n].target)
  {
  }

  /** The chain of an item whose last transfer has just been received at its target. */
  lemma ReceiptExtendsChain(ts: seq<Transfer>, id: nat, at: string)
    requires id < |ts| && !ts[id].received && Chained(TransfersOf(ts, ts[id].item), at)
    ensures Chained(TransfersOf(ts[id := ts[id].(received := true)], ts[id].item), ts[id].target)
  {
    var item := ts[id].item;
    PendingIsLast(ts, item, at, id);
    TransferUpdate(ts, id, ts[id].(received := true), item);
    TransferAt(ts, item, id);
    LastReceived(TransfersOf(ts, item), at);
  }

  lemma ReceiptLeavesNonePending(ts: seq<Transfer>, id: nat, at: string)
    requires id < |ts| && !ts[id].received && Chained(TransfersOf(ts, ts[id].item), at)
    ensures !HasPending(ts[id := ts[id].(received := true)], ts[id].item)
  {
    var item := ts[id].item;
    forall k | 0 <= k < |ts| && k != id && ts[k].item == item ensures ts[k].received {
      if !ts[k].received { OnePending(ts, item, at, id, k); }
    }
  }

  lemma OtherReceipt(ts: seq<Transfer>, id: nat, x: string)
    requires id < |ts| && ts[id].item != x
    ensures var ts' := ts[id := ts[id].(received := true)];
      TransfersOf(ts', x) == TransfersOf(ts, x) && (HasPending(ts', x) ==> HasPending(ts, x))
  {
    TransferUpdate(ts, id, ts[id].(received := true), x);
  }

  lemma ReceivedItemOk(ts: seq<Transfer>, id: nat, i: Item, status: string)
    requires id < |ts| && !ts[id].received && ItemOk(i, ts, ts[id].item)
    ensures ItemOk(Item(ts[id].target, status), ts[id := ts[id].(received := true)], ts[id].item)
  {
    ReceiptExtendsChain(ts, id, i.branch);
    ReceiptLeavesNonePending(ts, id, i.branch);
  }

  lemma OtherItemOk(ts: seq<Transfer>, id: nat, i: Item, x: string)
    requires id < |ts| && ts[id].item != x && ItemOk(i, ts, x)
    ensures ItemOk(i, ts[id := ts[id].(received := true)], x)
  {
    OtherReceipt(ts, id, x);
  }

  lemma ReceivedRowsOk(s: Stock, id: nat, i: Item)
    requires RowsOk(s) && id < |s.transfers|
    ensures RowsOk(s.(items := s.items[s.transfers[id].item := i],
        transfers := s.transfers[id := s.transfers[id].(received := true)]))
  {
  }

  function Received(ts: seq<Transfer>, id: nat): seq<Transfer>
    requires id < |ts|
  {
    ts[id := ts[id].(received := true)]
  }

  lemma ReceivedOwnOk(s: Stock, id: nat, i: Item)
    requires CustodyOk(s) && id < |s.transfers| && !s.transfers[id].received && i.branch == s.transfers[id].target
    ensures ItemOk(i, Received(s.transfers, id), s.transfers[id].item)
  {
    var item := s.transfers[id].item;
    assert i == Item(s.transfers[id].target, i.status);
    assert ItemOk(s.items[item], s.transfers, item);
    ReceivedItemOk(s.transfers, id, s.items[item], i.status);
  }

  lemma ReceivedOthersOk(s: Stock, id: nat)
    requires CustodyOk(s) && id < |s.transfers|
    ensures forall x | x in s.items && x != s.transfers[id].item :: ItemOk(s.items[x], Received(s.transfers, id), x)
  {
    forall x | x in s.items && x != s.transfers[id].item ensures ItemOk(s.items[x], Received(s.transfers, id), x) {
      assert ItemOk(s.items[x], s.transfers, x);
      OtherItemOk(s.transfers, id, s.items[x], x);
    }
  }

  lemma ReceivedKeepsCustody(s: Stock, id: nat, i: Item)
    requires CustodyOk(s) && id < |s.transfers| && !s.transfers[id].received && i.branch == s.transfers[id].target
    ensures CustodyOk(s.(items := s.items[s.transfers[id].item := i], transfers := Received(s.transfers, id)))
  {
    ReceivedRowsOk(s, id, i);
    ReceivedOwnOk(s, id, i);
    ReceivedOthersOk(s, id);
  }

  lemma ReceiveKeepsCustody(s: Stock, id: nat)
    requires CustodyOk(s) && ReceiveTransfer(s, id, true).1
    ensures CustodyOk(ReceiveTransfer(s, id, true).0)
  {
    ReceivedKeepsCustody(s, id, Item(s.transfers[id].target, "Available"));
  }

  lemma DeleteKeepsCustody(s: Stock, item: string)
    requires CustodyOk(s)
    ensures CustodyOk(OrSame(s, DeleteItem(s, item)))
  {
  }

  lemma NextKeepsCustody(s: Stock, x: Step)
    requires CustodyOk(s) && (x.Receive? ==> x.itemWritten)
    ensures CustodyOk(Next(s, x))
  {
    match x
    case Add(item, branch, status) => AddKeepsCustody(s, item, branch, status);
    case Request(item, target, failure) =>
      if MayRequest(s, item, target) {
        if failure.Nothing? { RequestKeepsCustody(s, item, target); }
        else {
          NotAvailable(s.items[item].branch);
          StatusKeepsCustody(s, item, if failure.Insert? then "Available" else "Transfer Pending");
        }
      }
    case Receive(id, _) => if ReceiveTransfer(s, id, true).1 { ReceiveKeepsCustody(s, id); }
    case Sell(item) =>
      if item in s.items {
        NotAvailable(s.items[item].branch);
        StatusKeepsCustody(s, item, "Sold");
      }
    case Hold(item) =>
      if item in s.items {
        NotAvailable(s.items[item].branch);
        StatusKeepsCustody(s, item, "Reserved");
      }
    case Delete(item) => DeleteKeepsCustody(s, item);
  }

  /* ---------- main results ---------- */

  lemma {:induction false} RunKeepsCustody(branches: set<string>, trace: seq<Step>)
    requires ReceiptsComplete(trace)
    ensures CustodyOk(Run(branches, trace))
  {
    if trace != [] {
      assert Run(branches, trace) == AfterLast(branches, trace);
      RunKeepsCustody(branches, trace[..|trace| - 1]);
      NextKeepsCustody(Run(branches, trace[..|trace| - 1]), trace[|trace| - 1]);
    }
  }

  /** At most one pending transfer, none for an available item, received transfers that chain, and the
      item at the target of the last one unless a transfer is pending. */
  ghost predicate InCustody(s: Stock, item: string)
    requires item in s.items
  {
    var own := TransfersOf(s.transfers, item);
    && (forall j, k | 0 <= j < |s.transfers| && 0 <= k < |s.transfers| && IsPendingOf(s.transfers[j], item)
        && IsPendingOf(s.transfers[k], item) :: j == k)
    && (IsAvailable(s.items[item]) ==> !HasPending(s.transfers, item))
    && (forall i | 0 <= i < |own| - 1 :: own[i].received && own[i + 1].source == own[i].target)
    && (own != [] && !HasPending(s.transfers, item) ==> s.items[item].branch == own[|own| - 1].target)
  }

  lemma CustodyOfItem(s: Stock, item: string)
    requires CustodyOk(s) && item in s.items
    ensures InCustody(s, item)
  {
    assert ItemOk(s.items[item], s.transfers, item);
    forall j, k | 0 <= j < |s.transfers| && 0 <= k < |s.transfers| && IsPendingOf(s.transfers[j], item)
        && IsPendingOf(s.transfers[k], item) ensures j == k {
      OnePending(s.transfers, item, s.items[item].branch, j, k);
    }
    if TransfersOf(s.transfers, item) != [] && !HasPending(s.transfers, item) {
      SettledAt(s.transfers, item, s.items[item].branch);
    }
  }

  /** Every run, including ones whose transfer inserts fail, keeps every item in custody. */
  lemma CustodyThroughout(branches: set<string>, trace: seq<Step>, item: string)
    requires ReceiptsComplete(trace) && item in Run(branches, trace).items
    ensures InCustody(Run(branches, trace), item)
  {
    RunKeepsCustody(branches, trace);
    CustodyOfItem(Run(branches, trace), item);
  }

  /** A receipt keeps custody exactly when its second write succeeds: otherwise the item is still where
      the transfer took it from. */
  lemma ReceiptKeepsCustodyExactly(branches: set<string>, trace: seq<Step>, id: nat, itemWritten: bool)
    requires ReceiptsComplete(trace) && ReceiveTransfer(Run(branches, trace), id, true).1
    ensures CustodyOk(ReceiveTransfer(Run(branches, trace), id, itemWritten).0) <==> itemWritten
  {
    RunKeepsCustody(branches, trace);
    var s := Run(branches, trace);
    if itemWritten {
      ReceiveKeepsCustody(s, id);
    } else {
      LostReceipt(s, id);
    }
  }

  lemma UnwrittenItem(ts: seq<Transfer>, id: nat, i: Item)
    requires id < |ts| && !ts[id].received && ts[id].source != ts[id].target && ItemOk(i, ts, ts[id].item)
    ensures !ItemOk(i, ts[id := ts[id].(received := true)], ts[id].item)
  {
    var item := ts[id].item;
    PendingIsLast(ts, item, i.branch, id);
    TransferAt(ts, item, id);
    TransferUpdate(ts, id, ts[id].(received := true), item);
  }

  lemma LostReceipt(s: Stock, id: nat)
    requires CustodyOk(s) && ReceiveTransfer(s, id, true).1
    ensures !CustodyOk(ReceiveTransfer(s, id, false).0)
  {
    UnwrittenItem(s.transfers, id, s.items[s.transfers[id].item]);
  }

  /* ---------- reached stocks ---------- */

  /** The tables after some run whose receipts were complete. */
  ghost predicate Reached(s: Stock) { exists trace :: ReceiptsComplete(trace) && s == Run(s.branches, trace) }

  lemma ReachFirst(branches: set<string>)
    ensures Reached(Run(branches, []))
  {
    assert ReceiptsComplete([]);
  }

  lemma ReachNext(s: Stock, x: Step)
    requires Reached(s) && (x.Receive? ==> x.itemWritten)
    ensures Reached(Next(s, x))
  {
    var trace :| ReceiptsComplete(trace) && s == Run(s.branches, trace);
    var longer := trace + [x];
    assert longer[..|trace|] == trace;
    assert Run(s.branches, longer) == AfterLast(s.branches, longer) == Next(s, x);
    assert ReceiptsComplete(longer);
  }

  lemma ReachedCustody(s: Stock)
    requires Reached(s)
    ensures CustodyOk(s)
  {
    var trace :| ReceiptsComplete(trace) && s == Run(s.branches, trace);
    RunKeepsCustody(s.branches, trace);
  }

  /* ---------- what each operation does ---------- */

  /** An item's status reads "available", but for case and white space around it. */
  predicate ReadsAvailable(status: string) { LowerAscii(Trim(status)) == "available" }

  lemma AvailableReads()
    ensures ReadsAvailable("Available")
  {
    CleanIsTrimmed("Available");
    assert LowerAscii("Available") == "available";
  }

  /** A transfer can be requested exactly for an available item and another known branch.  That no transfer of it
      is pending need not be asked: an available item never has one. */
  lemma RequestEffect(s: Stock, item: string, target: string, failure: Failure)
    requires Reached(s)
    ensures var ((s', ok), to) := (RequestTransfer(s, item, target, failure), Trim(target));
      if to == "" || item !in s.items || !ReadsAvailable(s.items[item].status) || s.items[item].branch == to
         || to !in s.branches then s' == s && !ok
      else
        && (ok <==> failure.Nothing?) && s'.branches == s.branches
        && s'.items == s.items[item := Item(s.items[item].branch,
                                            if failure.Insert? then "Available" else "Transfer Pending")]
        && s'.transfers == s.transfers + (if ok then [Transfer(item, s.items[item].branch, to, false)] else [])
  {
    ReachedCustody(s);
    if item in s.items { assert ItemOk(s.items[item], s.transfers, item); }
    assert s.transfers + [] == s.transfers;
  }

  /** A request whose insert failed and was repaired leaves the item available; without the repair it is stuck. */
  lemma FailedRequest(s: Stock, item: string, target: string, failure: Failure)
    requires Reached(s) && MayRequest(s, item, target) && !failure.Nothing?
    ensures var s' := RequestTransfer(s, item, target, failure).0;
      item in s'.items && (ReadsAvailable(s'.items[item].status) <==> failure.Insert?) && s'.transfers == s.transfers
  {
    NotAvailable(s.items[item].branch);
    AvailableReads();
  }

  /** A pending transfer to a known branch is received: marked so, and its item available there. */
  lemma ReceiveEffect(s: Stock, id: nat)
    requires Reached(s)
    ensures var (s', ok) := ReceiveTransfer(s, id, true);
      if id >= |s.transfers| || s.transfers[id].received || s.transfers[id].target !in s.branches then s' == s && !ok
      else
        && var t := s.transfers[id];
           && ok && t.item in s.items && s'.branches == s.branches
           && s'.transfers == s.transfers[id := Transfer(t.item, t.source, t.target, true)]
           && s'.items == s.items[t.item := Item(t.target, "Available")] && ReadsAvailable("Available")
  {
    ReachedCustody(s);
    AvailableReads();
  }

  /** A receipt keeps custody exactly when its second write succeeds or it writes nothing. */
  lemma ReceiptCustody(s: Stock, id: nat, itemWritten: bool)
    requires CustodyOk(s)
    ensures CustodyOk(ReceiveTransfer(s, id, itemWritten).0) <==>
            itemWritten || ReceiveTransfer(s, id, itemWritten).0 == s
  {
    if ReceiveTransfer(s, id, true).1 {
      if itemWritten { ReceiveKeepsCustody(s, id); } else { LostReceipt(s, id); }
    }
  }

  lemma ReceiptCustodyOf(s: Stock, id: nat, itemWritten: bool)
    requires Reached(s)
    ensures CustodyOk(ReceiveTransfer(s, id, itemWritten).0) <==>
            itemWritten || ReceiveTransfer(s, id, itemWritten).0 == s
  {
    ReachedCustody(s);
    ReceiptCustody(s, id, itemWritten);
  }

  lemma ReceiptReaches(s: Stock, id: nat, itemWritten: bool)
    requires Reached(s)
    ensures itemWritten || ReceiveTransfer(s, id, itemWritten).0 == s ==> Reached(ReceiveTransfer(s, id, itemWritten).0)
  {
    if itemWritten { ReachNext(s, Receive(id, true)); }
  }

  /** A new item needs a branch, and is available unless said otherwise; an item that was ever transferred is not
      deleted. */
  lemma AddAndDeleteEffect(s: Stock, item: string, branch: string, status: string)
    ensures Next(s, Add(item, branch, status)) ==
              if item in s.items || branch == "" then s
              else s.(items := s.items[item := Item(branch, if status == "" then "Available" else status)])
    ensures Next(s, Delete(item)) ==
              if item !in s.items || (exists k | 0 <= k < |s.transfers| :: s.transfers[k].item == item) then s
              else s.(items := s.items - {item})
  {
  }

  /** Only an item not sold yet is sold, and only an available one is held. */
  lemma SaleEffect(s: Stock, item: string)
    ensures Next(s, Sell(item)) ==
              if item !in s.items || s.items[item].status == "Sold" then s
              else s.(items := s.items[item := Item(s.items[item].branch, "Sold")])
    ensures MarkSold(s, item).Some? <==> item in s.items && s.items[item].status != "Sold"
    ensures Next(s, Hold(item)) ==
              if item !in s.items || Trim(s.items[item].status) != "Available" then s
              else s.(items := s.items[item := Item(s.items[item].branch, "Reserved")])
    ensures Reserve(s, item).Some? <==> item in s.items && Trim(s.items[item].status) == "Available"
  {
  }

  const HERE := "east"
  const THERE := "west"

  /** An item put up for sale and sent to the other branch. */
  lemma SentItem() returns (s: Stock)
    ensures Reached(s) && ReceiveTransfer(s, 0, true).1
  {
    var branches := {HERE, THERE};
    CleanIsTrimmed(THERE);
    CleanIsTrimmed("Available");
    assert HERE[0] != THERE[0];
    assert LowerAscii("Available") == "available";
    var s0 := Run(branches, []);
    var s1 := Next(s0, Add("item", HERE, ""));
    s := Next(s1, Request("item", THERE, Nothing));
    ReachFirst(branches);
    ReachNext(s0, Add("item", HERE, ""));
    ReachNext(s1, Request("item", THERE, Nothing));
    assert MayRequest(s1, "item", THERE);
  }

  /** A receipt that loses its second write takes an item out of custody. */
  lemma LostReceiptLosesCustody()
    ensures exists s, id :: Reached(s) && CustodyOk(s) && !CustodyOk(ReceiveTransfer(s, id, false).0)
  {
    var s := SentItem();
    ReachedCustody(s);
    LostReceipt(s, 0);
    assert !CustodyOk(ReceiveTransfer(s, 0, false).0);
  }
}
