/** The inventory service's writes to items for sale and their transfers, one after another.

    `Valid` says that the tables are those of some run of `ItemTransfers` with complete receipts.  Each
    operation is one step of such a run and keeps it, but for a receipt that loses its second write. */
module InventoryService {
  import opened Strings
  import opened ItemTransfers

  class Service {
    var items: map<string, Item>
    var transfers: seq<Transfer>
    const branches: set<string>

    function View(): Stock
      reads this
    {
      Stock(items, transfers, branches)
    }

    ghost predicate Valid()
      reads this
    {
      Reached(View())
    }

    constructor (branches: set<string>)
      ensures Valid() && View() == Run(branches, [])
    {
      this.items, this.transfers, this.branches := map[], [], branches;
      ReachFirst(branches);
    }

    method SetStatus(item: string, status: string)
      requires item in items
      modifies `items
      ensures View() == WithStatus(old(View()), item, status)
    {
      items := items[item := items[item].(status := status)];
    }

    /** The query for a pending transfer of an item. */
    method FindPending(item: string) returns (found: bool)
      ensures found <==> HasPending(transfers, item)
    {
      for k := 0 to |transfers|
        invariant forall j | 0 <= j < k :: transfers[j].item != item || transfers[j].received
      {
        if transfers[k].item == item && !transfers[k].received { return true; }
      }
      found := false;
    }

    method CreateForSale(item: string, branch: string, status: string) returns (ok: bool)
      requires Valid()
      modifies `items
      ensures Valid() && View() == Next(old(View()), Add(item, branch, status))
      ensures match AddItem(old(View()), item, branch, status)
              case None => !ok && View() == old(View())
              case Some(s') => ok && View() == s'
    {
      ReachNext(View(), Add(item, branch, status));
      if branch == "" || item in items { return false; }
      items := items[item := Item(branch, if status == "" then "Available" else status)];
      ok := true;
    }

    method CreateTransferRequest(item: string, target: string, failure: Failure) returns (ok: bool)
      requires Valid()
      modifies this
      ensures Valid() && View() == Next(old(View()), Request(item, target, failure))
      ensures (View(), ok) == RequestTransfer(old(View()), item, target, failure)
      ensures ok <==>
        && failure.Nothing? && Trim(target) != "" && item in old(items) && ReadsAvailable(old(items)[item].status)
        && old(items)[item].branch != Trim(target) && Trim(target) in branches
    {
      ReachNext(View(), Request(item, target, failure));
      RequestEffect(View(), item, target, failure);
      var targetBranch := Trim(target);
      if targetBranch == "" { return false; }
      if item !in items { return false; }
      if !IsAvailable(items[item]) { return false; }
      var sourceBranch := items[item].branch;
      if sourceBranch == targetBranch { return false; }
      var pending := FindPending(item);
      if pending { return false; }
      if targetBranch !in branches { return false; }
      SetStatus(item, "Transfer Pending");
      if !failure.Nothing? {
        if failure.Insert? {
          SetStatus(item, "Available");
          assert items == old(items)[item := Item(sourceBranch, "Available")];
        }
        return false;
      }
      transfers := transfers + [Transfer(item, sourceBranch, targetBranch, false)];
      ok := true;
    }

    method Receive(id: nat, itemWritten: bool) returns (ok: bool)
      requires Valid()
      modifies this
      ensures (View(), ok) == ReceiveTransfer(old(View()), id, itemWritten)
      ensures itemWritten || View() == old(View()) ==> Valid()
      ensures CustodyOk(View()) <==> itemWritten || View() == old(View())
      ensures ok <==>
        itemWritten && id < |old(transfers)| && !old(transfers)[id].received && old(transfers)[id].target in branches
      ensures ok ==> items == old(items)[old(transfers)[id].item := Item(old(transfers)[id].target, "Available")]
    {
      ghost var before := View();
      ok := WriteReceipt(id, itemWritten);
      ReceiptReaches(before, id, itemWritten);
      ReceiptCustodyOf(before, id, itemWritten);
      ReceiveEffect(before, id);
    }

    /** The two writes of a receipt. */
    method WriteReceipt(id: nat, itemWritten: bool) returns (ok: bool)
      modifies this
      ensures (View(), ok) == ReceiveTransfer(old(View()), id, itemWritten)
    {
      if id >= |transfers| { return false; }
      var transfer := transfers[id];
      if transfer.received { return false; }
      if transfer.target !in branches { return false; }
      transfers := transfers[id := transfer.(received := true)];
      if !itemWritten { return false; }
      if transfer.item in items {
        items := items[transfer.item := Item(transfer.target, "Available")];
      }
      ok := true;
    }

    method MarkSoldItem(item: string) returns (ok: bool)
      requires Valid()
      modifies `items
      ensures Valid() && View() == Next(old(View()), Sell(item))
      ensures ok <==> item in old(items) && old(items)[item].status != "Sold"
      ensures match MarkSold(old(View()), item)
              case None => !ok && View() == old(View())
              case Some(s') => ok && View() == s'
    {
      ReachNext(View(), Sell(item));
      if item !in items || items[item].status == "Sold" { return false; }
      SetStatus(item, "Sold");
      ok := true;
    }

    method ReserveItem(item: string) returns (ok: bool)
      requires Valid()
      modifies `items
      ensures Valid() && View() == Next(old(View()), Hold(item))
      ensures ok <==> item in old(items) && Trim(old(items)[item].status) == "Available"
      ensures match Reserve(old(View()), item)
              case None => !ok && View() == old(View())
              case Some(s') => ok && View() == s'
    {
      ReachNext(View(), Hold(item));
      if item !in items { return false; }
      if Trim(items[item].status) != "Available" { return false; }
      SetStatus(item, "Reserved");
      ok := true;
    }
  }
}
