/** Merging the customers of a branch that share a name: what the tables hold afterwards. */
module CustomerMerge {
  import opened Options
  import opened CustomerNames

  /** A `customers` row without its id. */
  datatype Customer = Customer(name: string, branch: string, createdAt: int, deletedAt: Option<int>)

  /** An activity log: the two properties of its details that may name a customer, and the others. */
  datatype LogEntry = LogEntry(branch: Option<string>, customerId: Field, customer_id: Field, others: string)

  /** `items`: the customer of every pawned item. */
  datatype Tables = Tables(customers: map<string, Customer>, items: map<string, Option<string>>, logs: seq<LogEntry>)

  /* ---------- groups ---------- */

  predicate Live(customers: map<string, Customer>, branch: string, id: string) {
    id in customers && customers[id].branch == branch && customers[id].deletedAt.None?
  }

  /** The query: the live customers of the branch, earliest first, in any order on a tie. */
  predicate IsListing(customers: map<string, Customer>, branch: string, ids: seq<string>) {
    && (forall id | id in ids :: Live(customers, branch, id))
    && (forall id | id in customers && Live(customers, branch, id) :: id in ids)
    && (forall i, j | 0 <= i < j < |ids| ::
          && ids[i] != ids[j] && ids[i] in customers && ids[j] in customers
          && customers[ids[i]].createdAt <= customers[ids[j]].createdAt)
  }

  predicate Listed(customers: map<string, Customer>, ids: seq<string>) { forall id | id in ids :: id in customers }

  /** The name under which a customer is grouped. */
  function Key(lower: string -> string, customers: map<string, Customer>, id: string): string
    requires id in customers
  {
    Normalize(lower, customers[id].name)
  }

  /** The listed customers with the name `key`, in order. */
  function Group(lower: string -> string, customers: map<string, Customer>, ids: seq<string>, key: string): seq<string>
    requires Listed(customers, ids)
  {
    if ids == [] then []
    else
      var n := |ids| - 1;
      Group(lower, customers, ids[..n], key) + (if Key(lower, customers, ids[n]) == key then [ids[n]] else [])
  }

  lemma {:induction false} GroupMembers(lower: string -> string, customers: map<string, Customer>, ids: seq<string>,
                                        key: string)
    requires Listed(customers, ids)
    ensures forall id ::
        id in Group(lower, customers, ids, key) <==> id in ids && id in customers && Key(lower, customers, id) == key
  {
    if ids != [] {
      var n := |ids| - 1;
      GroupMembers(lower, customers, ids[..n], key);
      assert forall id :: id in ids <==> id in ids[..n] || id == ids[n];
    }
  }

  /** The customer `id` is merged into: the first of its group. */
  function Survivor(lower: string -> string, customers: map<string, Customer>, ids: seq<string>, id: string): string
    requires Listed(customers, ids) && id in ids
  {
    GroupMembers(lower, customers, ids, Key(lower, customers, id));
    Group(lower, customers, ids, Key(lower, customers, id))[0]
  }

  /** Where a reference to `id` leads once the groups named in `done` are merged. */
  function Redirect(lower: string -> string, customers: map<string, Customer>, ids: seq<string>, done: set<string>,
                    id: string): string
    requires Listed(customers, ids)
  {
    if id in ids && Key(lower, customers, id) in done then Survivor(lower, customers, ids, id) else id
  }

  /* ---------- the tables after the merge ---------- */

  /** What becomes of one customer: soft-deleted when it leads elsewhere. */
  function CustomerAfter(lower: string -> string, customers: map<string, Customer>, ids: seq<string>, done: set<string>,
                         now: int, id: string): Customer
    requires Listed(customers, ids) && id in customers
  {
    if Redirect(lower, customers, ids, done, id) != id then customers[id].(deletedAt := Some(now)) else customers[id]
  }

  function OwnerAfter(lower: string -> string, customers: map<string, Customer>, ids: seq<string>, done: set<string>,
                      owner: Option<string>): Option<string>
    requires Listed(customers, ids)
  {
    if owner.None? then None else Some(Redirect(lower, customers, ids, done, owner.value))
  }

  function MergedCustomers(lower: string -> string, customers: map<string, Customer>, ids: seq<string>,
                           done: set<string>, now: int): map<string, Customer>
    requires Listed(customers, ids)
  {
    map id | id in customers :: CustomerAfter(lower, customers, ids, done, now, id)
  }

  function MergedItems(lower: string -> string, customers: map<string, Customer>, ids: seq<string>, done: set<string>,
                       items: map<string, Option<string>>): map<string, Option<string>>
    requires Listed(customers, ids)
  {
    map k | k in items :: OwnerAfter(lower, customers, ids, done, items[k])
  }

  /** The customer a log names; `customerId` goes first, and an empty string names nobody. */
  function LogOwner(log: LogEntry): Option<string> {
    var owner := if log.customerId.Text? then Some(log.customerId.text)
                 else if log.customer_id.Text? then Some(log.customer_id.text) else None;
    if owner == Some("") then None else owner
  }

  function Relabelled(log: LogEntry, id: string): LogEntry { log.(customerId := Text(id), customer_id := Text(id)) }

  /** A log of the branch that names a merged customer, unless its update fails. */
  function MergedLog(lower: string -> string, customers: map<string, Customer>, ids: seq<string>, done: set<string>,
                     branch: string, log: LogEntry, fails: bool): LogEntry
    requires Listed(customers, ids)
  {
    var owner := LogOwner(log);
    if fails || log.branch != Some(branch) || owner.None?
        || Redirect(lower, customers, ids, done, owner.value) == owner.value then log
    else Relabelled(log, Redirect(lower, customers, ids, done, owner.value))
  }

  function MergedLogs(lower: string -> string, customers: map<string, Customer>, ids: seq<string>, done: set<string>,
                      branch: string, logs: seq<LogEntry>, failing: set<nat>): seq<LogEntry>
    requires Listed(customers, ids)
  {
    seq(|logs|, i requires 0 <= i < |logs| => MergedLog(lower, customers, ids, done, branch, logs[i], i in failing))
  }

  function AllKeys(lower: string -> string, customers: map<string, Customer>, ids: seq<string>): set<string>
    requires Listed(customers, ids)
  {
    set id | id in ids :: Key(lower, customers, id)
  }

  /* ---------- lemmas ---------- */

  /** The group of a listed customer begins no later than with that customer. */
  lemma {:induction false} GroupFirst(lower: string -> string, customers: map<string, Customer>, ids: seq<string>,
                                      key: string, i: nat)
    returns (k: nat)
    requires Listed(customers, ids) && i < |ids| && Key(lower, customers, ids[i]) == key
    ensures k <= i && Group(lower, customers, ids, key) != [] && ids[k] == Group(lower, customers, ids, key)[0]
  {
    var n := |ids| - 1;
    var g := Group(lower, customers, ids[..n], key);
    if i < n {
      k := GroupFirst(lower, customers, ids[..n], key, i);
    } else if g == [] {
      k := n;
    } else {
      GroupMembers(lower, customers, ids[..n], key);
      assert g[0] in g;
      k :| 0 <= k < n && ids[..n][k] == g[0];
    }
  }

  predicate Distinct(s: seq<string>) { forall i, j | 0 <= i < j < |s| :: s[i] != s[j] }

  lemma DistinctAppend(s: seq<string>, x: string)
    requires Distinct(s) && x !in s
    ensures Distinct(s + [x])
  {
  }

  lemma {:induction false} GroupDistinct(lower: string -> string, customers: map<string, Customer>, ids: seq<string>,
                                         key: string)
    requires Listed(customers, ids) && Distinct(ids)
    ensures Distinct(Group(lower, customers, ids, key))
  {
    if ids != [] {
      var n := |ids| - 1;
      GroupDistinct(lower, customers, ids[..n], key);
      assert ids[n] !in ids[..n];
      GroupMembers(lower, customers, ids[..n], key);
      DistinctAppend(Group(lower, customers, ids[..n], key), ids[n]);
    }
  }

  lemma SurvivorInGroup(lower: string -> string, customers: map<string, Customer>, ids: seq<string>, id: string)
    requires Listed(customers, ids) && id in ids
    ensures var s := Survivor(lower, customers, ids, id);
      s in ids && Key(lower, customers, s) == Key(lower, customers, id) && Survivor(lower, customers, ids, s) == s
  {
    var g := Group(lower, customers, ids, Key(lower, customers, id));
    GroupMembers(lower, customers, ids, Key(lower, customers, id));
    assert id in g;
    assert g[0] in g;
  }

  /** Merging one more group sends its duplicates to its first member and moves no other reference. */
  lemma RedirectStep(lower: string -> string, customers: map<string, Customer>, ids: seq<string>, done: set<string>,
                     key: string, id: string)
    requires Listed(customers, ids) && key !in done && Group(lower, customers, ids, key) != []
    ensures var g := Group(lower, customers, ids, key);
      var before := Redirect(lower, customers, ids, done, id);
      && Redirect(lower, customers, ids, done + {key}, id) == (if before in g[1..] then g[0] else before)
      && (before in g[1..] ==> before == id)
  {
    var g := Group(lower, customers, ids, key);
    GroupMembers(lower, customers, ids, key);
    if id in ids {
      SurvivorInGroup(lower, customers, ids, id);
      assert forall x :: x in g <==> x == g[0] || x in g[1..];
    } else {
      assert forall x | x in g[1..] :: x in g;
    }
  }

  /* ---------- main results, about the merged tables ---------- */

  /** The merge of a whole listing. */
  function Merged(lower: string -> string, t: Tables, branch: string, ids: seq<string>, now: int,
                  failing: set<nat>): Tables
    requires Listed(t.customers, ids)
  {
    var all := AllKeys(lower, t.customers, ids);
    Tables(MergedCustomers(lower, t.customers, ids, all, now), MergedItems(lower, t.customers, ids, all, t.items),
           MergedLogs(lower, t.customers, ids, all, branch, t.logs, failing))
  }

  /** After the merge the live customers are the survivors, and only live customers of the branch were
      touched. */
  lemma SurvivorsLive(lower: string -> string, t: Tables, branch: string, ids: seq<string>, now: int, failing: set<nat>,
                      id: string)
    requires IsListing(t.customers, branch, ids) && id in t.customers
    ensures var after := Merged(lower, t, branch, ids, now, failing).customers;
      && after.Keys == t.customers.Keys
      && (Live(after, branch, id) <==> id in ids && Survivor(lower, t.customers, ids, id) == id)
      && (id !in ids ==> after[id] == t.customers[id])
      && (id in ids ==> after[id] == t.customers[id].(deletedAt := if Live(after, branch, id) then None else Some(now)))
      && Key(lower, after, id) == Key(lower, t.customers, id)
  {
    if id in ids { assert Key(lower, t.customers, id) in AllKeys(lower, t.customers, ids); }
  }

  /** Live customers have pairwise distinct names. */
  lemma NamesDistinct(lower: string -> string, t: Tables, branch: string, ids: seq<string>, now: int, failing: set<nat>,
                      x: string, y: string)
    requires IsListing(t.customers, branch, ids)
    requires var after := Merged(lower, t, branch, ids, now, failing).customers;
      Live(after, branch, x) && Live(after, branch, y) && Key(lower, after, x) == Key(lower, after, y)
    ensures x == y
  {
    SurvivorsLive(lower, t, branch, ids, now, failing, x);
    SurvivorsLive(lower, t, branch, ids, now, failing, y);
  }

  lemma SurvivorIsEarliest(lower: string -> string, customers: map<string, Customer>, branch: string, ids: seq<string>,
                           x: string)
    requires IsListing(customers, branch, ids) && x in ids
    ensures var s := Survivor(lower, customers, ids, x);
        s in customers && customers[s].createdAt <= customers[x].createdAt
  {
    var i :| 0 <= i < |ids| && ids[i] == x;
    var k := GroupFirst(lower, customers, ids, Key(lower, customers, x), i);
  }

  /** Every name a live customer had, a live customer still has, and no other: the survivor of its
      group, which is live and its group's earliest. */
  lemma NamesKept(lower: string -> string, t: Tables, branch: string, ids: seq<string>, now: int, failing: set<nat>,
                  x: string)
    requires IsListing(t.customers, branch, ids) && Live(t.customers, branch, x)
    ensures var after := Merged(lower, t, branch, ids, now, failing).customers;
      var s := Survivor(lower, t.customers, ids, x);
      Live(after, branch, s) && Key(lower, after, s) == Key(lower, t.customers, x)
          && t.customers[s].createdAt <= t.customers[x].createdAt
  {
    SurvivorInGroup(lower, t.customers, ids, x);
    SurvivorsLive(lower, t, branch, ids, now, failing, Survivor(lower, t.customers, ids, x));
    SurvivorIsEarliest(lower, t.customers, branch, ids, x);
  }

  lemma NoNewNames(lower: string -> string, t: Tables, branch: string, ids: seq<string>, now: int, failing: set<nat>,
                   x: string)
    requires IsListing(t.customers, branch, ids)
        && Live(Merged(lower, t, branch, ids, now, failing).customers, branch, x)
    ensures Live(t.customers, branch, x) && Key(lower, Merged(lower, t, branch, ids, now, failing).customers, x)
        == Key(lower, t.customers, x)
  {
    SurvivorsLive(lower, t, branch, ids, now, failing, x);
  }

  /** Every item of a merged customer belongs to the survivor of that customer's own name, which is
      live; every other item is untouched. */
  lemma ItemsFollowSurvivors(lower: string -> string, t: Tables, branch: string, ids: seq<string>, now: int,
                             failing: set<nat>, item: string)
    requires IsListing(t.customers, branch, ids) && item in t.items
    ensures var after := Merged(lower, t, branch, ids, now, failing);
      && item in after.items
      && (t.items[item].Some? && Live(t.customers, branch, t.items[item].value)
          && !Live(after.customers, branch, t.items[item].value) ==>
            after.items[item].Some? && Live(after.customers, branch, after.items[item].value)
            && Key(lower, after.customers, after.items[item].value) == Key(lower, t.customers, t.items[item].value))
      && (t.items[item].None? || !Live(t.customers, branch, t.items[item].value)
          || Live(after.customers, branch, t.items[item].value) ==>
            after.items[item] == t.items[item])
  {
    if t.items[item].Some? && t.items[item].value in ids {
      var id := t.items[item].value;
      assert Key(lower, t.customers, id) in AllKeys(lower, t.customers, ids);
      SurvivorInGroup(lower, t.customers, ids, id);
      SurvivorsLive(lower, t, branch, ids, now, failing, id);
      SurvivorsLive(lower, t, branch, ids, now, failing, Survivor(lower, t.customers, ids, id));
    }
  }

  /** The customer a log names: the text under customerId, or else the one under customer_id; a text that is
      empty names nobody. */
  predicate Names(log: LogEntry, id: string) {
    id != "" && (log.customerId == Text(id) || (!log.customerId.Text? && log.customer_id == Text(id)))
  }

  /** Every log of the branch that names a merged customer, unless its update failed, names the live survivor of
      that customer's own name under both properties; every other log is untouched. */
  lemma LogsFollowSurvivors(lower: string -> string, t: Tables, branch: string, ids: seq<string>, now: int,
                            failing: set<nat>, i: nat, id: string)
    requires IsListing(t.customers, branch, ids) && i < |t.logs|
    ensures var (after, log) := (Merged(lower, t, branch, ids, now, failing), t.logs[i]);
      && |after.logs| == |t.logs|
      && (Names(log, id) && log.branch == Some(branch) && i !in failing
          && Live(t.customers, branch, id) && !Live(after.customers, branch, id) ==>
            after.logs[i].customerId.Text?
            && var s := after.logs[i].customerId.text;
               && after.logs[i] == LogEntry(log.branch, Text(s), Text(s), log.others)
               && Live(after.customers, branch, s) && Key(lower, after.customers, s) == Key(lower, t.customers, id))
      && (Names(log, id) && (log.branch != Some(branch) || i in failing
                             || !Live(t.customers, branch, id) || Live(after.customers, branch, id)) ==>
            after.logs[i] == log)
      && ((forall x :: !Names(log, x)) ==> after.logs[i] == log)
  {
    var log := t.logs[i];
    if LogOwner(log).Some? {
      var owner := LogOwner(log).value;
      assert Names(log, owner);
      if owner in ids {
        assert Key(lower, t.customers, owner) in AllKeys(lower, t.customers, ids);
        SurvivorInGroup(lower, t.customers, ids, owner);
        SurvivorsLive(lower, t, branch, ids, now, failing, owner);
        SurvivorsLive(lower, t, branch, ids, now, failing, Survivor(lower, t.customers, ids, owner));
      }
    }
  }

  lemma SecondRunGroups(lower: string -> string, t: Tables, branch: string, ids: seq<string>, now: int,
                        failing: set<nat>,
                        ids2: seq<string>, key: string)
    requires IsListing(t.customers, branch, ids)
    requires IsListing(Merged(lower, t, branch, ids, now, failing).customers, branch, ids2)
    ensures |Group(lower, Merged(lower, t, branch, ids, now, failing).customers, ids2, key)| <= 1
  {
    var after := Merged(lower, t, branch, ids, now, failing).customers;
    var g := Group(lower, after, ids2, key);
    GroupDistinct(lower, after, ids2, key);
    GroupMembers(lower, after, ids2, key);
    if |g| > 1 {
      assert g[0] in g && g[1] in g;
      NamesDistinct(lower, t, branch, ids, now, failing, g[0], g[1]);
    }
  }

  lemma SingleGroupRedirects(lower: string -> string, customers: map<string, Customer>, ids: seq<string>,
                             done: set<string>, id: string)
    requires Listed(customers, ids) && forall key :: |Group(lower, customers, ids, key)| <= 1
    ensures Redirect(lower, customers, ids, done, id) == id
  {
    if id in ids {
      var g := Group(lower, customers, ids, Key(lower, customers, id));
      GroupMembers(lower, customers, ids, Key(lower, customers, id));
      assert id in g && |g| <= 1;
    }
  }

  lemma SingleGroupsMergeNothing(lower: string -> string, t: Tables, branch: string, ids: seq<string>, now: int,
                                 failing: set<nat>)
    requires Listed(t.customers, ids) && forall key :: |Group(lower, t.customers, ids, key)| <= 1
    ensures Merged(lower, t, branch, ids, now, failing) == t
  {
    var all := AllKeys(lower, t.customers, ids);
    assert MergedCustomers(lower, t.customers, ids, all, now) == t.customers by {
      forall id { SingleGroupRedirects(lower, t.customers, ids, all, id); }
    }
    assert MergedItems(lower, t.customers, ids, all, t.items) == t.items by {
      forall id { SingleGroupRedirects(lower, t.customers, ids, all, id); }
    }
    forall i | 0 <= i < |t.logs| ensures MergedLog(lower, t.customers, ids, all, branch, t.logs[i], i in failing)
        == t.logs[i] {
      if LogOwner(t.logs[i]).Some? { SingleGroupRedirects(lower, t.customers, ids, all, LogOwner(t.logs[i]).value); }
    }
    assert MergedLogs(lower, t.customers, ids, all, branch, t.logs, failing) == t.logs;
  }

  /** A second run finds every group with one member and changes nothing. */
  lemma SecondRunMergesNothing(lower: string -> string, t: Tables, branch: string, ids: seq<string>, now: int,
                               failing: set<nat>,
                               ids2: seq<string>, now2: int, failing2: set<nat>)
    requires IsListing(t.customers, branch, ids)
    requires IsListing(Merged(lower, t, branch, ids, now, failing).customers, branch, ids2)
    ensures var after := Merged(lower, t, branch, ids, now, failing);
      (forall key :: |Group(lower, after.customers, ids2, key)| <= 1)
          && Merged(lower, after, branch, ids2, now2, failing2) == after
  {
    forall key { SecondRunGroups(lower, t, branch, ids, now, failing, ids2, key); }
    SingleGroupsMergeNothing(lower, Merged(lower, t, branch, ids, now, failing), branch, ids2, now2, failing2);
  }
}
