/** mergeDuplicateCustomers as it runs: groups built in a map, then items, logs and customers rewritten
    group by group. */
module CustomerService {
  import opened Options
  import opened CustomerNames
  import opened CustomerMerge

  datatype Summary = Summary(name: string, canonical: string, merged: seq<string>)

  /** One step of the item rewrite: owners among the duplicates become the canonical customer. */
  function Reassigned(items: map<string, Option<string>>, duplicates: seq<string>, canonical: string): map<string,
                      Option<string>> {
    map k | k in items :: if items[k].Some? && items[k].value in duplicates then Some(canonical) else items[k]
  }

  function SoftDeleted(customers: map<string, Customer>, duplicates: seq<string>, now: int): map<string, Customer> {
    map id | id in customers :: if id in duplicates then customers[id].(deletedAt := Some(now)) else customers[id]
  }

  function LogAfterGroup(logs: seq<LogEntry>, snapshot: seq<LogEntry>, branch: string, duplicates: seq<string>,
                         canonical: string,
                         failing: set<nat>, i: nat): LogEntry
    requires i < |logs|
  {
    if i < |snapshot| && snapshot[i].branch == Some(branch) && LogOwner(snapshot[i]).Some?
        && LogOwner(snapshot[i]).value in duplicates && i !in failing
    then Relabelled(snapshot[i], canonical) else logs[i]
  }

  /** The logs after one group: rewritten from the snapshot taken before the first group. */
  function LogsAfterGroup(logs: seq<LogEntry>, snapshot: seq<LogEntry>, branch: string, duplicates: seq<string>,
                          canonical: string, failing: set<nat>): seq<LogEntry>
    requires |snapshot| <= |logs|
  {
    seq(|logs|, i requires 0 <= i < |logs| => LogAfterGroup(logs, snapshot, branch, duplicates, canonical, failing, i))
  }

  /** `groups` holds the group of every name among `ids`. */
  predicate Grouped(lower: string -> string, customers: map<string, Customer>, ids: seq<string>,
                    groups: map<string, seq<string>>) {
    && Listed(customers, ids) && groups.Keys == AllKeys(lower, customers, ids)
    && forall key | key in groups :: groups[key] == Group(lower, customers, ids, key) && groups[key] != []
  }

  lemma GroupAppend(lower: string -> string, customers: map<string, Customer>, ids: seq<string>, id: string,
                    key: string)
    requires Listed(customers, ids) && id in customers
    ensures Listed(customers, ids + [id])
    ensures Group(lower, customers, ids + [id], key) == Group(lower, customers, ids, key)
        + (if Key(lower, customers, id) == key then [id] else [])
  {
    assert (ids + [id])[..|ids|] == ids;
  }

  lemma KeysAppend(lower: string -> string, customers: map<string, Customer>, ids: seq<string>, id: string)
    requires Listed(customers, ids) && id in customers
    ensures Listed(customers, ids + [id])
    ensures AllKeys(lower, customers, ids + [id]) == AllKeys(lower, customers, ids) + {Key(lower, customers, id)}
  {
    assert forall x :: x in ids + [id] <==> x in ids || x == id;
  }

  lemma GroupListed(lower: string -> string, customers: map<string, Customer>, ids: seq<string>, key: string)
    requires Listed(customers, ids)
    ensures Group(lower, customers, ids, key) != [] ==> key in AllKeys(lower, customers, ids)
  {
    var g := Group(lower, customers, ids, key);
    GroupMembers(lower, customers, ids, key);
    if g != [] { assert g[0] in g; }
  }

  lemma GroupedStep(lower: string -> string, customers: map<string, Customer>, ids: seq<string>, id: string,
                    groups: map<string, seq<string>>)
    requires Grouped(lower, customers, ids, groups) && id in customers
    ensures var name := Key(lower, customers, id);
      Grouped(lower, customers, ids + [id], groups[name := (if name in groups then groups[name] else []) + [id]])
  {
    var name := Key(lower, customers, id);
    var groups' := groups[name := (if name in groups then groups[name] else []) + [id]];
    assert groups'.Keys == AllKeys(lower, customers, ids + [id]) by {
      KeysAppend(lower, customers, ids, id);
      assert groups'.Keys == groups.Keys + {name};
    }
    GroupListed(lower, customers, ids, name);
    forall key | key in groups' ensures groups'[key] == Group(lower, customers, ids + [id], key) && groups'[key] != [] {
      GroupAppend(lower, customers, ids, id, key);
    }
  }

  /* ---------- merging one more group ---------- */

  lemma ItemsStep(lower: string -> string, customers: map<string, Customer>, ids: seq<string>, done: set<string>,
                  key: string,
                  items: map<string, Option<string>>)
    requires Listed(customers, ids) && key !in done && Group(lower, customers, ids, key) != []
    ensures var g := Group(lower, customers, ids, key);
      Reassigned(MergedItems(lower, customers, ids, done, items), g[1..], g[0])
          == MergedItems(lower, customers, ids, done + {key}, items)
  {
    var g := Group(lower, customers, ids, key);
    var before, after := MergedItems(lower, customers, ids, done, items),
        MergedItems(lower, customers, ids, done + {key}, items);
    forall k | k in items ensures Reassigned(before, g[1..], g[0])[k] == after[k] {
      if items[k].Some? { RedirectStep(lower, customers, ids, done, key, items[k].value); }
    }
  }

  lemma CustomerStep(lower: string -> string, customers: map<string, Customer>, ids: seq<string>, done: set<string>,
                     key: string, now: int, id: string)
    requires Listed(customers, ids) && Distinct(ids) && key !in done && Group(lower, customers, ids, key) != []
        && id in customers
    ensures CustomerAfter(lower, customers, ids, done + {key}, now, id) ==
      if id in Group(lower, customers, ids, key)[1..] then CustomerAfter(lower, customers, ids, done, now,
          id).(deletedAt := Some(now))
      else CustomerAfter(lower, customers, ids, done, now, id)
  {
    var g := Group(lower, customers, ids, key);
    GroupDistinct(lower, customers, ids, key);
    assert g[0] !in g[1..];
    RedirectStep(lower, customers, ids, done, key, id);
  }

  /** A soft delete that does to each customer what `after` says. */
  lemma SoftDeletes(before: map<string, Customer>, after: map<string, Customer>, duplicates: seq<string>, now: int)
    requires after.Keys == before.Keys
    requires forall id | id in before :: after[id] == if id in duplicates then before[id].(deletedAt := Some(now))
        else before[id]
    ensures SoftDeleted(before, duplicates, now) == after
  {
  }

  lemma CustomersStep(lower: string -> string, customers: map<string, Customer>, ids: seq<string>, done: set<string>,
                      key: string, now: int)
    requires Listed(customers, ids) && Distinct(ids) && key !in done && Group(lower, customers, ids, key) != []
    ensures var g := Group(lower, customers, ids, key);
      SoftDeleted(MergedCustomers(lower, customers, ids, done, now), g[1..], now)
          == MergedCustomers(lower, customers, ids, done + {key}, now)
  {
    forall id | id in customers { CustomerStep(lower, customers, ids, done, key, now, id); }
    SoftDeletes(MergedCustomers(lower, customers, ids, done, now),
        MergedCustomers(lower, customers, ids, done + {key}, now),
                Group(lower, customers, ids, key)[1..], now);
  }

  lemma LogStep(lower: string -> string, customers: map<string, Customer>, ids: seq<string>, done: set<string>,
                key: string,
                branch: string, log: LogEntry, fails: bool)
    requires Listed(customers, ids) && Distinct(ids) && key !in done && Group(lower, customers, ids, key) != []
    ensures var g := Group(lower, customers, ids, key);
      MergedLog(lower, customers, ids, done + {key}, branch, log, fails) ==
        (if log.branch == Some(branch) && LogOwner(log).Some? && LogOwner(log).value in g[1..] && !fails
            then Relabelled(log, g[0])
         else MergedLog(lower, customers, ids, done, branch, log, fails))
  {
    var g := Group(lower, customers, ids, key);
    GroupDistinct(lower, customers, ids, key);
    assert g[0] !in g[1..];
    GroupMembers(lower, customers, ids, key);
    if LogOwner(log).Some? {
      var owner := LogOwner(log).value;
      RedirectStep(lower, customers, ids, done, key, owner);
      if owner in g[1..] {
        assert owner in g;
      } else if owner in ids {
        SurvivorInGroup(lower, customers, ids, owner);
        assert forall x | x in g[1..] :: x in g;
      }
    }
  }

  lemma LogsStep(lower: string -> string, customers: map<string, Customer>, ids: seq<string>, done: set<string>,
                 key: string,
                 branch: string, snapshot: seq<LogEntry>, records: seq<LogEntry>, failing: set<nat>)
    requires Listed(customers, ids) && Distinct(ids) && key !in done && Group(lower, customers, ids, key) != []
    ensures var g := Group(lower, customers, ids, key);
      LogsAfterGroup(MergedLogs(lower, customers, ids, done, branch, snapshot, failing) + records, snapshot, branch,
          g[1..], g[0], failing)
      == MergedLogs(lower, customers, ids, done + {key}, branch, snapshot, failing) + records
  {
    var g := Group(lower, customers, ids, key);
    var before := MergedLogs(lower, customers, ids, done, branch, snapshot, failing) + records;
    var after := MergedLogs(lower, customers, ids, done + {key}, branch, snapshot, failing) + records;
    forall i | 0 <= i < |before| ensures after[i] == LogAfterGroup(before, snapshot, branch, g[1..], g[0], failing, i) {
      if i < |snapshot| { LogStep(lower, customers, ids, done, key, branch, snapshot[i], i in failing); }
    }
    assert LogsAfterGroup(before, snapshot, branch, g[1..], g[0], failing) == after;
  }

  /** The tables once the groups named in `done` are merged: `t` with `records` appended to its logs. */
  ghost predicate MergedSoFar(lower: string -> string, t: Tables, branch: string, ids: seq<string>, now: int,
                              failing: set<nat>,
                              done: set<string>, records: seq<LogEntry>, t': Tables)
    requires Listed(t.customers, ids)
  {
    && t'.customers == MergedCustomers(lower, t.customers, ids, done, now)
    && t'.items == MergedItems(lower, t.customers, ids, done, t.items)
    && t'.logs == MergedLogs(lower, t.customers, ids, done, branch, t.logs, failing) + records
  }

  /** What merging the group `g` makes of the tables. */
  function AfterGroup(t: Tables, snapshot: seq<LogEntry>, branch: string, g: seq<string>, now: int, failing: set<nat>,
                      record: seq<LogEntry>): Tables
    requires g != [] && |snapshot| <= |t.logs|
  {
    Tables(SoftDeleted(t.customers, g[1..], now), Reassigned(t.items, g[1..], g[0]),
           LogsAfterGroup(t.logs, snapshot, branch, g[1..], g[0], failing) + record)
  }

  lemma MergeStep(lower: string -> string, t: Tables, branch: string, ids: seq<string>, now: int, failing: set<nat>,
                  done: set<string>, records: seq<LogEntry>, t': Tables, key: string, record: seq<LogEntry>)
    requires Listed(t.customers, ids) && Distinct(ids) && key !in done && Group(lower, t.customers, ids, key) != []
    requires MergedSoFar(lower, t, branch, ids, now, failing, done, records, t')
    ensures MergedSoFar(lower, t, branch, ids, now, failing, done + {key}, records + record,
                        AfterGroup(t', t.logs, branch, Group(lower, t.customers, ids, key), now, failing, record))
  {
    var g := Group(lower, t.customers, ids, key);
    var merged := MergedLogs(lower, t.customers, ids, done + {key}, branch, t.logs, failing);
    assert SoftDeleted(t'.customers, g[1..], now) == MergedCustomers(lower, t.customers, ids, done + {key}, now) by {
      CustomersStep(lower, t.customers, ids, done, key, now);
    }
    assert Reassigned(t'.items, g[1..], g[0]) == MergedItems(lower, t.customers, ids, done + {key}, t.items) by {
      ItemsStep(lower, t.customers, ids, done, key, t.items);
    }
    assert LogsAfterGroup(t'.logs, t.logs, branch, g[1..], g[0], failing) == merged + records by {
      LogsStep(lower, t.customers, ids, done, key, branch, t.logs, records, failing);
    }
    Associative(merged, records, record);
  }

  lemma Associative<T>(a: seq<T>, b: seq<T>, c: seq<T>)
    ensures a + b + c == a + (b + c)
  {
  }

  lemma NothingWithoutDuplicates(items: map<string, Option<string>>, customers: map<string, Customer>,
                                 logs: seq<LogEntry>,
                                 snapshot: seq<LogEntry>, branch: string, canonical: string, now: int,
                                 failing: set<nat>)
    requires |snapshot| <= |logs|
    ensures Reassigned(items, [], canonical) == items && SoftDeleted(customers, [], now) == customers
    ensures LogsAfterGroup(logs, snapshot, branch, [], canonical, failing) == logs
  {
  }

  class Service {
    var customers: map<string, Customer>
    var items: map<string, Option<string>>
    var logs: seq<LogEntry>
    const lower: string -> string

    constructor (t: Tables, lower: string -> string)
      ensures customers == t.customers && items == t.items && logs == t.logs && this.lower == lower
    {
      this.customers, this.items, this.logs, this.lower := t.customers, t.items, t.logs, lower;
    }

    /** The groups, and their names in order of first appearance. */
    method GroupByName(ids: seq<string>) returns (order: seq<string>, groups: map<string, seq<string>>)
      requires Listed(customers, ids)
      ensures Distinct(order) && groups.Keys == AllKeys(lower, customers, ids)
      ensures forall key :: key in order <==> key in groups
      ensures forall key | key in groups :: groups[key] == Group(lower, customers, ids, key) && groups[key] != []
    {
      order, groups := [], map[];
      for k := 0 to |ids|
        invariant Distinct(order) && forall key :: key in order <==> key in groups
        invariant Grouped(lower, customers, ids[..k], groups)
      {
        var name := Normalize(lower, customers[ids[k]].name);
        if name !in groups {
          DistinctAppend(order, name);
          order := order + [name];
        }
        var group := if name in groups then groups[name] else [];
        GroupedStep(lower, customers, ids[..k], ids[k], groups);
        assert ids[..k + 1] == ids[..k] + [ids[k]];
        groups := groups[name := group + [ids[k]]];
      }
      assert ids[..|ids|] == ids;
    }

    method ReassignItems(duplicates: seq<string>, canonical: string)
      modifies `items
      ensures items == Reassigned(old(items), duplicates, canonical)
    {
      items := map k | k in items ::
          if items[k].Some? && items[k].value in duplicates then Some(canonical) else items[k];
    }

    method SoftDelete(duplicates: seq<string>, now: int)
      modifies `customers
      ensures customers == SoftDeleted(old(customers), duplicates, now)
    {
      customers := map id | id in customers :: if id in duplicates then customers[id].(deletedAt := Some(now))
          else customers[id];
    }

    /** Rewrites the details of the branch's logs that name a duplicate; a failed update is swallowed. */
    method RelabelLogs(snapshot: seq<LogEntry>, branch: string, duplicates: seq<string>, canonical: string,
                       failing: set<nat>)
      requires |snapshot| <= |logs|
      modifies `logs
      ensures logs == LogsAfterGroup(old(logs), snapshot, branch, duplicates, canonical, failing)
    {
      var pending: seq<(nat, LogEntry)> := [];
      for i := 0 to |snapshot|
        invariant forall p | p in pending :: p.0 < i && p.1 == Relabelled(snapshot[p.0], canonical)
        invariant forall j | 0 <= j < i :: (j, Relabelled(snapshot[j], canonical)) in pending <==>
          snapshot[j].branch == Some(branch) && LogOwner(snapshot[j]).Some? && LogOwner(snapshot[j]).value in duplicates
      {
        if snapshot[i].branch != Some(branch) { continue; }
        var owner := LogOwner(snapshot[i]);
        if owner.None? || owner.value !in duplicates { continue; }
        pending := pending + [(i, Relabelled(snapshot[i], canonical))];
      }
      ghost var before := logs;
      for k := 0 to |pending|
        invariant |logs| == |before|
        invariant forall j | 0 <= j < |logs| ::
          logs[j] == if j < |snapshot| && (j, Relabelled(snapshot[j], canonical)) in pending[..k] && j !in failing
                     then Relabelled(snapshot[j], canonical) else before[j]
      {
        var p := pending[k];
        assert pending[..k + 1] == pending[..k] + [p];
        if p.0 in failing { continue; }
        logs := logs[p.0 := p.1];
      }
      assert pending[..|pending|] == pending;
    }

    function View(): Tables
      reads this
    {
      Tables(customers, items, logs)
    }

    /** One group: nothing for a single customer, else all three rewrites and a log of the merge. */
    method MergeGroup(key: string, group: seq<string>, branch: string, snapshot: seq<LogEntry>, now: int,
                      failing: set<nat>)
      returns (made: Option<Summary>)
      requires group != [] && |snapshot| <= |logs|
      modifies this
      ensures made == if |group| > 1 then Some(Summary(key, group[0], group[1..])) else None
      ensures View() == AfterGroup(old(View()), snapshot, branch, group, now, failing,
          if made.Some? then [MergeRecord(branch, key)] else [])
    {
      if |group| <= 1 {
        NothingWithoutDuplicates(items, customers, logs, snapshot, branch, group[0], now, failing);
        assert group[1..] == [] && logs + [] == logs;
        return None;
      }
      ReassignItems(group[1..], group[0]);
      RelabelLogs(snapshot, branch, group[1..], group[0], failing);
      SoftDelete(group[1..], now);
      logs := logs + [MergeRecord(branch, key)];
      made := Some(Summary(key, group[0], group[1..]));
    }

    /** The merge loop: one turn for every name. */
    method MergeGroups(branch: string, ghost ids: seq<string>, now: int, failing: set<nat>, names: seq<string>,
                       groups: map<string, seq<string>>)
      returns (summaries: seq<Summary>)
      requires Grouped(lower, customers, ids, groups) && forall key | key in names :: key in groups
      modifies this
      ensures View() == InOrder(lower, old(View()), branch, ids, now, failing, names)
      ensures summaries == SummariesOf(lower, old(customers), ids, names)
    {
      ghost var t := View();
      var snapshot := logs;
      summaries := [];
      for k := 0 to |names|
        invariant View() == InOrder(lower, t, branch, ids, now, failing, names[..k])
        invariant summaries == SummariesOf(lower, t.customers, ids, names[..k])
      {
        assert names[..k + 1][..k] == names[..k];
        var key := names[k];
        var made := MergeGroup(key, groups[key], branch, snapshot, now, failing);
        if made.Some? {
          summaries := summaries + [made.value];
        }
      }
      assert names[..|names|] == names;
    }

    /** The whole merge, over the live customers of the branch as the query lists them: the tables become
        `Merged`, with one log and one summary for every name that more than one customer had. */
    method MergeDuplicateCustomers(branch: string, ids: seq<string>, now: int, failing: set<nat>)
      returns (summaries: seq<Summary>, ghost order: seq<string>)
      requires IsListing(customers, branch, ids)
      modifies this
      ensures |logs| == |old(logs)| + |summaries|
      ensures View().(logs := logs[..|old(logs)|]) == Merged(lower, old(View()), branch, ids, now, failing)
      ensures Distinct(order) && forall key :: key in order <==> key in AllKeys(lower, old(customers), ids)
      ensures summaries == SummariesOf(lower, old(customers), ids, order)
    {
      ghost var t := View();
      var names, groups := GroupByName(ids);
      order := names;
      summaries := MergeGroups(branch, ids, now, failing, names, groups);
      InOrderIsMerged(lower, t, branch, ids, now, failing, names);
    }
  }

  /** The tables after the groups of `order` are merged one after the other. */
  function InOrder(lower: string -> string, t: Tables, branch: string, ids: seq<string>, now: int, failing: set<nat>,
                   order: seq<string>): (t': Tables)
    requires Listed(t.customers, ids) && forall key | key in order :: Group(lower, t.customers, ids, key) != []
    ensures |t'.logs| >= |t.logs|
  {
    if order == [] then t
    else
      var key := order[|order| - 1];
      var g := Group(lower, t.customers, ids, key);
      AfterGroup(InOrder(lower, t, branch, ids, now, failing, order[..|order| - 1]), t.logs, branch, g, now, failing,
                 if |g| > 1 then [MergeRecord(branch, key)] else [])
  }

  function NamesIn(order: seq<string>): set<string> { set key | key in order }

  lemma InOrderStep(lower: string -> string, t: Tables, branch: string, ids: seq<string>, now: int, failing: set<nat>,
                    order: seq<string>, key: string, before: seq<LogEntry>)
    requires Listed(t.customers, ids) && Distinct(ids) && key !in order && Group(lower, t.customers, ids, key) != []
    requires forall k | k in order :: Group(lower, t.customers, ids, k) != []
    requires MergedSoFar(lower, t, branch, ids, now, failing, NamesIn(order), before,
        InOrder(lower, t, branch, ids, now, failing, order))
    ensures MergedSoFar(lower, t, branch, ids, now, failing, NamesIn(order) + {key},
                        before + (if |Group(lower, t.customers, ids, key)| > 1 then [MergeRecord(branch, key)] else []),
                        InOrder(lower, t, branch, ids, now, failing, order + [key]))
    ensures |SummariesOf(lower, t.customers, ids, order + [key])|
            == |SummariesOf(lower, t.customers, ids, order)|
                + (if |Group(lower, t.customers, ids, key)| > 1 then 1 else 0)
  {
    assert (order + [key])[..|order|] == order;
    var record := if |Group(lower, t.customers, ids, key)| > 1 then [MergeRecord(branch, key)] else [];
    MergeStep(lower, t, branch, ids, now, failing, NamesIn(order), before,
        InOrder(lower, t, branch, ids, now, failing, order), key, record);
  }

  /** Group after group comes to the same as all at once. */
  lemma {:induction false} InOrderMerges(lower: string -> string, t: Tables, branch: string, ids: seq<string>, now: int,
                                         failing: set<nat>, order: seq<string>)
    returns (records: seq<LogEntry>)
    requires Listed(t.customers, ids) && Distinct(ids) && Distinct(order)
        && forall key | key in order :: Group(lower, t.customers, ids, key) != []
    ensures MergedSoFar(lower, t, branch, ids, now, failing, NamesIn(order), records,
        InOrder(lower, t, branch, ids, now, failing, order))
    ensures |records| == |SummariesOf(lower, t.customers, ids, order)|
  {
    if order == [] {
      StartOfMerge(lower, t, branch, ids, now, failing);
      return [];
    }
    var n := |order| - 1;
    var first, key := order[..n], order[n];
    assert first + [key] == order;
    assert NamesIn(first) + {key} == NamesIn(order);
    var before := InOrderMerges(lower, t, branch, ids, now, failing, first);
    records := before + (if |Group(lower, t.customers, ids, key)| > 1 then [MergeRecord(branch, key)] else []);
    InOrderStep(lower, t, branch, ids, now, failing, first, key, before);
  }

  lemma InOrderIsMerged(lower: string -> string, t: Tables, branch: string, ids: seq<string>, now: int,
                        failing: set<nat>, order: seq<string>)
    requires Listed(t.customers, ids) && Distinct(ids) && Distinct(order)
    requires forall key :: key in order <==> key in AllKeys(lower, t.customers, ids)
    requires forall key | key in order :: Group(lower, t.customers, ids, key) != []
    ensures var t' := InOrder(lower, t, branch, ids, now, failing, order);
      && |t'.logs| == |t.logs| + |SummariesOf(lower, t.customers, ids, order)|
      && t'.(logs := t'.logs[..|t.logs|]) == Merged(lower, t, branch, ids, now, failing)
  {
    var records := InOrderMerges(lower, t, branch, ids, now, failing, order);
    assert NamesIn(order) == AllKeys(lower, t.customers, ids);
    var merged := MergedLogs(lower, t.customers, ids, AllKeys(lower, t.customers, ids), branch, t.logs, failing);
    assert (merged + records)[..|merged|] == merged;
  }

  /** The log of a merge names no single customer. */
  function MergeRecord(branch: string, key: string): LogEntry { LogEntry(Some(branch), Missing, Missing, key) }

  /** For each name with more than one customer: who stays, and who was merged. */
  function SummariesOf(lower: string -> string, customers: map<string, Customer>, ids: seq<string>,
                       order: seq<string>): seq<Summary>
    requires Listed(customers, ids)
  {
    if order == [] then []
    else
      var n := |order| - 1;
      var g := Group(lower, customers, ids, order[n]);
      SummariesOf(lower, customers, ids, order[..n]) + (if |g| > 1 then [Summary(order[n], g[0], g[1..])] else [])
  }

  /** Every summary is about one name: the canonical customer and the merged ones, all listed under it, no one
      twice; the canonical one stays live and the merged ones do not. */
  lemma {:induction false} SummaryTells(lower: string -> string, t: Tables, branch: string, ids: seq<string>, now: int,
                                        failing: set<nat>, order: seq<string>, k: nat)
    requires IsListing(t.customers, branch, ids) && k < |SummariesOf(lower, t.customers, ids, order)|
    ensures var (after, made) := (Merged(lower, t, branch, ids, now, failing).customers,
        SummariesOf(lower, t.customers, ids, order)[k]);
      && made.name in order && made.merged != [] && Distinct([made.canonical] + made.merged)
      && Live(after, branch, made.canonical) && Key(lower, after, made.canonical) == made.name
      && forall id :: id in made.merged <==>
           Live(t.customers, branch, id) && !Live(after, branch, id) && Key(lower, t.customers, id) == made.name
  {
    var n := |order| - 1;
    if k < |SummariesOf(lower, t.customers, ids, order[..n])| {
      SummaryTells(lower, t, branch, ids, now, failing, order[..n], k);
    } else {
      GroupTells(lower, t, branch, ids, now, failing, order[n]);
    }
  }

  /** Every customer that was merged is in the summary of its name. */
  lemma MergedIsSummarised(lower: string -> string, t: Tables, branch: string, ids: seq<string>, now: int,
                           failing: set<nat>, order: seq<string>, id: string)
    returns (k: nat)
    requires IsListing(t.customers, branch, ids) && Live(t.customers, branch, id)
    requires !Live(Merged(lower, t, branch, ids, now, failing).customers, branch, id)
    requires Key(lower, t.customers, id) in order
    ensures k < |SummariesOf(lower, t.customers, ids, order)|
        && id in SummariesOf(lower, t.customers, ids, order)[k].merged
  {
    MergedIsLater(lower, t, branch, ids, now, failing, id);
    LaterHasCompany(lower, t.customers, ids, id, Key(lower, t.customers, id));
    k := SummaryMade(lower, t.customers, ids, order, Key(lower, t.customers, id));
    SummaryTells(lower, t, branch, ids, now, failing, order, k);
  }

  lemma InOwnGroup(lower: string -> string, customers: map<string, Customer>, ids: seq<string>, id: string, key: string)
    requires Listed(customers, ids) && id in ids && key == Key(lower, customers, id)
    ensures id in Group(lower, customers, ids, key)
  {
    GroupMembers(lower, customers, ids, key);
  }

  lemma MergedIsLater(lower: string -> string, t: Tables, branch: string, ids: seq<string>, now: int, failing: set<nat>,
                      id: string)
    requires IsListing(t.customers, branch, ids) && Live(t.customers, branch, id)
    requires !Live(Merged(lower, t, branch, ids, now, failing).customers, branch, id)
    ensures id in ids && Survivor(lower, t.customers, ids, id) != id
  {
    SurvivorsLive(lower, t, branch, ids, now, failing, id);
  }

  lemma LaterHasCompany(lower: string -> string, customers: map<string, Customer>, ids: seq<string>, id: string,
                        key: string)
    requires Listed(customers, ids) && id in ids && key == Key(lower, customers, id)
    requires Survivor(lower, customers, ids, id) != id
    ensures |Group(lower, customers, ids, key)| > 1
  {
    InOwnGroup(lower, customers, ids, id, key);
    assert Survivor(lower, customers, ids, id) == Group(lower, customers, ids, key)[0];
  }

  lemma {:induction false} SummaryMade(lower: string -> string, customers: map<string, Customer>, ids: seq<string>,
                                       order: seq<string>, key: string)
    returns (k: nat)
    requires Listed(customers, ids) && key in order && |Group(lower, customers, ids, key)| > 1
    ensures k < |SummariesOf(lower, customers, ids, order)| && SummariesOf(lower, customers, ids, order)[k].name == key
  {
    var n := |order| - 1;
    var before := SummariesOf(lower, customers, ids, order[..n]);
    if order[n] == key {
      k := |before|;
    } else {
      assert key in order[..n];
      k := SummaryMade(lower, customers, ids, order[..n], key);
      assert before <= SummariesOf(lower, customers, ids, order);
    }
  }

  lemma GroupTells(lower: string -> string, t: Tables, branch: string, ids: seq<string>, now: int, failing: set<nat>,
                   key: string)
    requires IsListing(t.customers, branch, ids) && |Group(lower, t.customers, ids, key)| > 1
    ensures var (after, g) := (Merged(lower, t, branch, ids, now, failing).customers,
        Group(lower, t.customers, ids, key));
      && Distinct([g[0]] + g[1..]) && Live(after, branch, g[0]) && Key(lower, after, g[0]) == key
      && forall id :: id in g[1..] <==>
           Live(t.customers, branch, id) && !Live(after, branch, id) && Key(lower, t.customers, id) == key
  {
    var g := Group(lower, t.customers, ids, key);
    GroupMembers(lower, t.customers, ids, key);
    GroupDistinct(lower, t.customers, ids, key);
    assert [g[0]] + g[1..] == g;
    assert g[0] in g;
    SurvivorsLive(lower, t, branch, ids, now, failing, g[0]);
    forall id ensures id in g[1..] <==>
      Live(t.customers, branch, id) && !Live(Merged(lower, t, branch, ids, now, failing).customers, branch, id)
      && Key(lower, t.customers, id) == key
    {
      assert id in g <==> id == g[0] || id in g[1..];
      if id in t.customers { SurvivorsLive(lower, t, branch, ids, now, failing, id); }
    }
  }

  lemma StartOfMerge(lower: string -> string, t: Tables, branch: string, ids: seq<string>, now: int, failing: set<nat>)
    requires Listed(t.customers, ids)
    ensures MergedSoFar(lower, t, branch, ids, now, failing, {}, [], t)
  {
    assert MergedLogs(lower, t.customers, ids, {}, branch, t.logs, failing) + [] == t.logs;
  }
}
