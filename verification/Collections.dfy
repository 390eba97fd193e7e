/**
 Dynamic collections (`services/collections.rs`): grouping result rows by key, removing repeated
 items, and reconciling a stored collection with the items it should have.
 */
module Collections {
  import opened Options
  import opened Text

  // ------------------------------------------------------ first appearances

  /** The different values of a sequence, in the order in which they first appear. */
  function FirstSeen<T(==)>(xs: seq<T>): seq<T>
    decreases |xs|
  {
    if xs == [] then []
    else
      var before := FirstSeen(xs[..|xs| - 1]);
      if xs[|xs| - 1] in before then before else before + [xs[|xs| - 1]]
  }

  predicate Distinct<T(==)>(xs: seq<T>)
  {
    forall i, j :: 0 <= i < j < |xs| ==> xs[i] != xs[j]
  }

  /** `x` occurs in `xs`, for the first time at `i`. */
  predicate FirstAt<T(==)>(xs: seq<T>, x: T, i: nat)
  {
    i < |xs| && xs[i] == x && forall j :: 0 <= j < i ==> xs[j] != x
  }

  /** No value is repeated, none is lost or added, and earlier first appearances come earlier. */
  lemma {:induction false} FirstSeenIsRight<T>(xs: seq<T>)
    ensures Distinct(FirstSeen(xs))
    ensures forall x :: x in FirstSeen(xs) <==> x in xs
    ensures forall a, b, i: nat, j: nat | 0 <= a < b < |FirstSeen(xs)| ::
              FirstAt(xs, FirstSeen(xs)[a], i) && FirstAt(xs, FirstSeen(xs)[b], j) ==> i < j
    decreases |xs|
  {
    if xs != [] {
      var last := |xs| - 1;
      var before := xs[..last];
      FirstSeenIsRight(before);
      assert xs == before + [xs[last]];
      var seen := FirstSeen(before);
      forall a, b, i: nat, j: nat
        | 0 <= a < b < |FirstSeen(xs)| && FirstAt(xs, FirstSeen(xs)[a], i) && FirstAt(xs, FirstSeen(xs)[b], j)
        ensures i < j
      {
        FirstAtPrefix(xs, last, FirstSeen(xs)[a], i);
        FirstAtPrefix(xs, last, FirstSeen(xs)[b], j);
        assert a < |seen| && FirstSeen(xs)[a] == seen[a] && seen[a] in seen;
        if b < |seen| {
          assert seen[b] in seen;
        }
      }
    }
  }

  lemma FirstAtPrefix<T>(xs: seq<T>, last: nat, x: T, i: nat)
    requires last + 1 == |xs| && FirstAt(xs, x, i)
    ensures x in xs[..last] ==> FirstAt(xs[..last], x, i)
    ensures x !in xs[..last] ==> i == last
  {
    assert i < last ==> xs[..last][i] == x;
    if x in xs[..last] {
      var k :| 0 <= k < last && xs[..last][k] == x;
      assert xs[k] == x;
    }
  }

  // --------------------------------------------------------------- grouping

  datatype Item = Item(id: nat, rank: int)

  datatype Row = Row(key: Option<string>, item: Item)

  datatype Config = Config(limit: nat, minimumItems: nat, included: set<string>, excluded: set<string>)

  datatype Group = Group(key: string, items: seq<Item>)

  predicate IncludesKey(config: Config, key: string)
  {
    var normalized := AsciiLower(Trim(key));
    (config.included == {} || normalized in config.included) && normalized !in config.excluded
  }

  /** The trimmed key under which a row is grouped; none when the row is passed over. */
  function KeyOf(config: Config, row: Row): Option<string>
  {
    if row.key == None then None
    else
      var key := Trim(row.key.value);
      if key == "" || !IncludesKey(config, key) then None else Some(key)
  }

  /** The keys of the rows that are not passed over, in row order. */
  function AdmittedKeys(config: Config, rows: seq<Row>): seq<string>
    decreases |rows|
  {
    if rows == [] then []
    else
      var before := AdmittedKeys(config, rows[..|rows| - 1]);
      match KeyOf(config, rows[|rows| - 1])
      case None => before
      case Some(key) => before + [key]
  }

  /** The items of the rows grouped under a key, in row order. */
  function ItemsOf(config: Config, rows: seq<Row>, key: string): seq<Item>
    decreases |rows|
  {
    if rows == [] then []
    else
      var before := ItemsOf(config, rows[..|rows| - 1], key);
      if KeyOf(config, rows[|rows| - 1]) == Some(key) then before + [rows[|rows| - 1].item] else before
  }

  function Take<T>(xs: seq<T>, n: nat): seq<T>
  {
    if |xs| <= n then xs else xs[..n]
  }

  /** Each of these keys with its first items up to the limit. */
  function GroupsOf(config: Config, rows: seq<Row>, keys: seq<string>): (r: seq<Group>)
    ensures |r| == |keys|
  {
    seq(|keys|, i requires 0 <= i < |keys| => Group(keys[i], Take(ItemsOf(config, rows, keys[i]), config.limit)))
  }

  /** The plain reading: group by key, and cut each group to the limit. */
  function GroupBy(config: Config, rows: seq<Row>): seq<Group>
  {
    GroupsOf(config, rows, FirstSeen(AdmittedKeys(config, rows)))
  }

  function LargeEnough(config: Config, groups: seq<Group>): seq<Group>
    decreases |groups|
  {
    if groups == [] then []
    else
      var before := LargeEnough(config, groups[..|groups| - 1]);
      if |groups[|groups| - 1].items| < config.minimumItems then before else before + [groups[|groups| - 1]]
  }

  /** The index of a key, as the pass keeps it. */
  ghost predicate Indexed(groups: seq<Group>, indexes: map<string, nat>)
  {
    && (forall key :: key in indexes ==> indexes[key] < |groups| && groups[indexes[key]].key == key)
    && (forall i :: 0 <= i < |groups| ==> groups[i].key in indexes && indexes[groups[i].key] == i)
  }

  /** A key not met before has no items yet. */
  lemma {:induction false} NoItemsYet(config: Config, rows: seq<Row>, key: string)
    requires key !in AdmittedKeys(config, rows)
    ensures ItemsOf(config, rows, key) == []
    decreases |rows|
  {
    if rows != [] {
      NoItemsYet(config, rows[..|rows| - 1], key);
    }
  }

  lemma TakeAppend<T>(xs: seq<T>, x: T, n: nat)
    ensures Take(xs + [x], n) == if |Take(xs, n)| < n then Take(xs, n) + [x] else Take(xs, n)
  {
  }

  lemma KeysOfGroups(config: Config, rows: seq<Row>, key: string)
    ensures key in AdmittedKeys(config, rows) ==>
              exists i :: 0 <= i < |GroupBy(config, rows)| && GroupBy(config, rows)[i].key == key
  {
    FirstSeenIsRight(AdmittedKeys(config, rows));
    if key in AdmittedKeys(config, rows) {
      var keys := FirstSeen(AdmittedKeys(config, rows));
      var i :| 0 <= i < |keys| && keys[i] == key;
      assert GroupBy(config, rows)[i].key == key;
    }
  }

  lemma StepPassedOver(config: Config, rows: seq<Row>, row: Row)
    requires KeyOf(config, row) == None
    ensures GroupBy(config, rows + [row]) == GroupBy(config, rows)
  {
    assert (rows + [row])[..|rows|] == rows;
  }

  lemma StepKnownKey(config: Config, rows: seq<Row>, row: Row, idx: nat)
    requires idx < |GroupBy(config, rows)| && KeyOf(config, row) == Some(GroupBy(config, rows)[idx].key)
    ensures var was := GroupBy(config, rows)[idx];
            GroupBy(config, rows + [row]) ==
              if |was.items| < config.limit then GroupBy(config, rows)[idx := Group(was.key, was.items + [row.item])]
              else GroupBy(config, rows)
  {
    assert (rows + [row])[..|rows|] == rows;
    var keys := FirstSeen(AdmittedKeys(config, rows));
    FirstSeenIsRight(AdmittedKeys(config, rows));
    assert (AdmittedKeys(config, rows) + [keys[idx]])[..|AdmittedKeys(config, rows)|] == AdmittedKeys(config, rows);
    assert FirstSeen(AdmittedKeys(config, rows + [row])) == keys;
    TakeAppend(ItemsOf(config, rows, keys[idx]), row.item, config.limit);
    forall i | 0 <= i < |keys| && i != idx ensures keys[i] != keys[idx] {
    }
  }

  lemma NewKeySeen(config: Config, rows: seq<Row>, row: Row, key: string)
    requires KeyOf(config, row) == Some(key) && key !in AdmittedKeys(config, rows)
    ensures FirstSeen(AdmittedKeys(config, rows + [row])) == FirstSeen(AdmittedKeys(config, rows)) + [key]
    ensures ItemsOf(config, rows + [row], key) == [row.item]
    ensures forall other :: other != key ==> ItemsOf(config, rows + [row], other) == ItemsOf(config, rows, other)
    ensures key !in FirstSeen(AdmittedKeys(config, rows))
  {
    assert (rows + [row])[..|rows|] == rows;
    var admitted := AdmittedKeys(config, rows);
    FirstSeenIsRight(admitted);
    assert (admitted + [key])[..|admitted|] == admitted;
    NoItemsYet(config, rows, key);
  }

  lemma StepNewKey(config: Config, rows: seq<Row>, row: Row, key: string)
    requires KeyOf(config, row) == Some(key) && key !in AdmittedKeys(config, rows)
    ensures GroupBy(config, rows + [row]) == GroupBy(config, rows) + [Group(key, Take([row.item], config.limit))]
  {
    NewKeySeen(config, rows, row, key);
    GroupsAppend(config, rows, rows + [row], FirstSeen(AdmittedKeys(config, rows)), key);
  }

  lemma GroupsAppend(config: Config, rows: seq<Row>, more: seq<Row>, keys: seq<string>, key: string)
    requires key !in keys && forall other :: other != key ==>
             ItemsOf(config, more, other) == ItemsOf(config, rows, other)
    ensures GroupsOf(config, more, keys + [key])
         == GroupsOf(config, rows, keys) + [Group(key, Take(ItemsOf(config, more, key), config.limit))]
  {
    forall i | 0 <= i < |keys| ensures GroupsOf(config, more, keys + [key])[i] == GroupsOf(config, rows, keys)[i] {
      assert keys[i] in keys;
    }
  }

  lemma IndexGrows(groups: seq<Group>, indexes: map<string, nat>, group: Group)
    requires Indexed(groups, indexes) && group.key !in indexes
    ensures Indexed(groups + [group], indexes[group.key := |groups|])
  {
  }

  lemma IndexStays(groups: seq<Group>, indexes: map<string, nat>, i: nat, group: Group)
    requires Indexed(groups, indexes) && i < |groups| && group.key == groups[i].key
    ensures Indexed(groups[i := group], indexes)
  {
  }

  /** A row whose key is in the index: its group takes it while it is below the limit. */
  lemma KnownRow(config: Config, grouped: seq<Group>, indexes: map<string, nat>, rows: seq<Row>, row: Row, idx: nat)
    requires grouped == GroupBy(config, rows) && Indexed(grouped, indexes)
    requires idx < |grouped| && KeyOf(config, row) == Some(grouped[idx].key)
    ensures var was := grouped[idx];
            var groups := if |was.items| < config.limit then grouped[idx := Group(was.key, was.items + [row.item])]
                          else grouped;
            groups == GroupBy(config, rows + [row]) && Indexed(groups, indexes)
  {
    StepKnownKey(config, rows, row, idx);
    IndexStays(grouped, indexes, idx, Group(grouped[idx].key, grouped[idx].items + [row.item]));
  }

  /** A row whose key is not in the index: a new group, which takes it unless the limit is zero. */
  lemma NewRow(config: Config, grouped: seq<Group>, indexes: map<string, nat>, rows: seq<Row>, row: Row, key: string)
    requires grouped == GroupBy(config, rows) && Indexed(grouped, indexes)
    requires KeyOf(config, row) == Some(key) && key !in indexes
    ensures var started := grouped + [Group(key, [])];
            var groups := if 0 < config.limit then started[|started| - 1 := Group(key, [row.item])] else started;
            groups == GroupBy(config, rows + [row]) && Indexed(groups, indexes[key := |grouped|])
  {
    var started := grouped + [Group(key, [])];
    var group := Group(key, if 0 < config.limit then [row.item] else []);
    assert grouped + [group] == started[|started| - 1 := group];
    KeysOfGroups(config, rows, key);
    StepNewKey(config, rows, row, key);
    IndexGrows(grouped, indexes, group);
  }

  /** One row: found under its key by the index, or starting a new group. */
  method AddRow(config: Config, grouped: seq<Group>, indexes: map<string, nat>, row: Row, ghost rows: seq<Row>)
    returns (groups: seq<Group>, index: map<string, nat>)
    requires grouped == GroupBy(config, rows) && Indexed(grouped, indexes)
    ensures groups == GroupBy(config, rows + [row]) && Indexed(groups, index)
  {
    groups, index := grouped, indexes;
    var key := KeyOf(config, row);
    if key == None {
      StepPassedOver(config, rows, row);
    } else if key.value in index {
      var idx := index[key.value];
      KnownRow(config, grouped, indexes, rows, row, idx);
      if |groups[idx].items| < config.limit {
        groups := groups[idx := Group(groups[idx].key, groups[idx].items + [row.item])];
      }
    } else {
      NewRow(config, grouped, indexes, rows, row, key.value);
      index := index[key.value := |groups|];
      groups := groups + [Group(key.value, [])];
      if 0 < config.limit {
        groups := groups[|groups| - 1 := Group(key.value, [row.item])];
      }
    }
  }

  /**
   One pass with an index of keys gives the plain group-by: the distinct admitted keys in order of
   first appearance, each with its first rows up to the limit, less the groups that are too small.
   */
  method GroupedResults(config: Config, rows: seq<Row>) returns (results: seq<Group>)
    ensures results == LargeEnough(config, GroupBy(config, rows))
  {
    var grouped: seq<Group> := [];
    var indexes: map<string, nat> := map[];
    var n := 0;
    while n < |rows|
      invariant n <= |rows|
      invariant grouped == GroupBy(config, rows[..n])
      invariant Indexed(grouped, indexes)
    {
      grouped, indexes := AddRow(config, grouped, indexes, rows[n], rows[..n]);
      assert rows[..n + 1] == rows[..n] + [rows[n]];
      n := n + 1;
    }
    assert rows[..n] == rows;
    results := DropSmall(config, grouped);
  }

  method DropSmall(config: Config, grouped: seq<Group>) returns (results: seq<Group>)
    ensures results == LargeEnough(config, grouped)
  {
    results := [];
    var n := 0;
    while n < |grouped|
      invariant n <= |grouped|
      invariant results == LargeEnough(config, grouped[..n])
    {
      assert grouped[..n + 1][..n] == grouped[..n];
      if |grouped[n].items| >= config.minimumItems {
        results := results + [grouped[n]];
      }
      n := n + 1;
    }
    assert grouped[..n] == grouped;
  }

  // ---------------------------------------------------------------- dedupe

  function Ids(items: seq<Item>): (r: seq<nat>)
    ensures |r| == |items| && forall i :: 0 <= i < |r| ==> r[i] == items[i].id
  {
    seq(|items|, i requires 0 <= i < |items| => items[i].id)
  }

  /** Keeps the first of the items with the same id, and ranks what is left from one. */
  method DedupeItems(items: seq<Item>) returns (kept: seq<Item>)
    ensures Ids(kept) == FirstSeen(Ids(items))
    ensures forall i :: 0 <= i < |kept| ==> kept[i].rank == i + 1
  {
    var seen: set<nat> := {};
    kept := [];
    var n := 0;
    while n < |items|
      invariant n <= |items|
      invariant Ids(kept) == FirstSeen(Ids(items)[..n])
      invariant forall id :: id in seen <==> id in FirstSeen(Ids(items)[..n])
    {
      assert Ids(items)[..n + 1][..n] == Ids(items)[..n];
      if items[n].id !in seen {
        assert Ids(kept + [items[n]]) == Ids(kept) + [items[n].id];
        seen := seen + {items[n].id};
        kept := kept + [items[n]];
      }
      n := n + 1;
    }
    assert Ids(items)[..n] == Ids(items);
    n := 0;
    ghost var ids := Ids(kept);
    while n < |kept|
      invariant n <= |kept| && Ids(kept) == ids
      invariant forall i :: 0 <= i < n ==> kept[i].rank == i + 1
    {
      ghost var before := kept;
      kept := kept[n := kept[n].(rank := n + 1)];
      assert forall i :: 0 <= i < |kept| ==> Ids(kept)[i] == Ids(before)[i];
      n := n + 1;
    }
  }

  // -------------------------------------------------------- reconciliation

  /** A stored row of the collection: its position, and whether its item is known to be missing. */
  datatype Member = Member(position: int, missing: bool)

  type Table = map<nat, Member>

  /** The items that the collection shows. */
  function Present(table: Table): set<nat>
  {
    set id | id in table && !table[id].missing
  }

  function Desired(items: seq<Item>): set<nat>
  {
    set i | 0 <= i < |items| :: items[i].id
  }

  /** The table after an insert-or-update of each item in turn. */
  function Upserted(table: Table, items: seq<Item>): Table
    decreases |items|
  {
    if items == [] then table
    else
      var last := items[|items| - 1];
      Upserted(table, items[..|items| - 1])[last.id := Member(last.rank * 1000, false)]
  }

  lemma {:induction false} UpsertedRows(table: Table, items: seq<Item>)
    ensures Upserted(table, items).Keys == table.Keys + Desired(items)
    ensures forall id :: id in Desired(items) ==> !Upserted(table, items)[id].missing
    ensures forall id :: id in table && id !in Desired(items) ==> Upserted(table, items)[id] == table[id]
    decreases |items|
  {
    if items != [] {
      var last := |items| - 1;
      UpsertedRows(table, items[..last]);
      assert Desired(items) == Desired(items[..last]) + {items[last].id} by {
        forall id | id in Desired(items) ensures id in Desired(items[..last]) + {items[last].id} {
          var i :| 0 <= i < |items| && items[i].id == id;
          assert i < last ==> items[..last][i].id == id;
        }
        forall id | id in Desired(items[..last]) ensures id in Desired(items) {
          var i :| 0 <= i < last && items[..last][i].id == id;
          assert items[i].id == id;
        }
      }
    }
  }

  /** The rows left before the items are inserted: in sync mode, those of items still wanted. */
  function Kept(before: Table, sync: bool, items: seq<Item>): Table
  {
    if sync then map id | id in before && id in Desired(items) :: before[id] else before
  }

  function Reconciled(before: Table, sync: bool, items: seq<Item>): Table
  {
    Upserted(Kept(before, sync, items), items)
  }

  /** Exactly the wanted items are shown in sync mode, and otherwise those shown before as well. */
  lemma ShownAfter(before: Table, sync: bool, items: seq<Item>)
    ensures Present(Reconciled(before, sync, items))
         == if sync then Desired(items) else Present(before) + Desired(items)
  {
    UpsertedRows(Kept(before, sync, items), items);
  }

  /** What a synchronization reports. */
  datatype Report = Report(added: nat, removed: nat, itemCount: nat)

  method UpsertAll(before: Table, items: seq<Item>) returns (table: Table)
    ensures table == Upserted(before, items)
  {
    table := before;
    var n := 0;
    while n < |items|
      invariant n <= |items|
      invariant table == Upserted(before, items[..n])
    {
      assert items[..n + 1][..n] == items[..n];
      table := table[items[n].id := Member(items[n].rank * 1000, false)];
      n := n + 1;
    }
    assert items[..n] == items;
  }

  /**
   Removes, in sync mode, the rows of items no longer wanted; inserts or revives the wanted ones;
   and reports what was added and removed among the items shown, and the number of rows.
   */
  method PersistItems(before: Table, sync: bool, items: seq<Item>) returns (table: Table, report: Report)
    ensures table == Reconciled(before, sync, items)
    ensures Present(table) == if sync then Desired(items) else Present(before) + Desired(items)
    ensures report.added == |Present(table) - Present(before)| && report.removed == |Present(before) - Present(table)|
    ensures |Present(table)| == |Present(before)| + report.added - report.removed
    ensures report.itemCount == |table|
  {
    var shown, desired := Present(before), Desired(items);
    var added := |desired - shown|;
    var removed := if sync then |shown - desired| else 0;
    table := before;
    if sync {
      if items == [] {
        table := map[];
      } else {
        table := map id | id in before && id in desired :: before[id];
      }
    }
    assert table == Kept(before, sync, items);
    table := UpsertAll(table, items);
    ShownAfter(before, sync, items);
    CountsAgree(shown, desired);
    assert shown + desired - shown == desired - shown && shown - (shown + desired) == {};
    report := Report(added, removed, |table|);
  }

  lemma CountsAgree(shown: set<nat>, desired: set<nat>)
    ensures |desired| == |shown| + |desired - shown| - |shown - desired|
    ensures |shown + desired| == |shown| + |desired - shown|
  {
    assert shown + desired == shown + (desired - shown);
    assert shown + desired == desired + (shown - desired);
  }

  /**
   The stored item count is the number of rows. It agrees with the number of items shown exactly
   when no missing row is left behind: always in sync mode, and otherwise when every item that was
   missing is wanted again.
   */
  lemma ItemCountIsRight(before: Table, sync: bool, items: seq<Item>)
    ensures var table := Reconciled(before, sync, items);
            |table| == |Present(table)| <==>
            sync || forall id :: id in before && before[id].missing ==> id in Desired(items)
  {
    var table := Reconciled(before, sync, items);
    UpsertedRows(Kept(before, sync, items), items);
    assert table.Keys == Present(table) + (table.Keys - Present(table));
    assert |table| == |table.Keys|;
    if forall id :: id in table ==> !table[id].missing {
      assert table.Keys - Present(table) == {};
    } else {
      var id :| id in table && table[id].missing;
      assert id in table.Keys - Present(table);
      assert !sync && id in before;
    }
  }

  /** One row that was marked as missing and nothing wanted: one row is counted and none is shown. */
  lemma CountCanExceed(position: int)
    ensures var table := Reconciled(map[7 := Member(position, true)], false, []);
            |table| == 1 && |Present(table)| == 0
  {
    var before: Table := map[7 := Member(position, true)];
    ShownAfter(before, false, []);
    assert Present(before) == {} && Desired([]) == {};
    assert Reconciled(before, false, []) == before;
  }

  // ------------------------------------------------- which keys are admitted

  /** A row is grouped under its trimmed key if that is not empty, not excluded, and included if anything is. */
  lemma KeyAdmission(config: Config, row: Row, key: string)
    ensures KeyOf(config, row) == Some(key)
       <==> && row.key.Some? && key == Trim(row.key.value) && key != ""
            && AsciiLower(Trim(key)) !in config.excluded
            && (config.included != {} ==> AsciiLower(Trim(key)) in config.included)
  {
  }

  /** Keys that differ only in the case of ASCII letters are admitted alike. */
  lemma CaseDoesNotMatter(config: Config, a: string, b: string)
    requires SameButCase(Trim(a), Trim(b))
    ensures IncludesKey(config, a) == IncludesKey(config, b)
  {
    LowerMeans(Trim(a), Trim(b));
  }

  /** A row that is grouped adds its key and, under that key only, its item. */
  lemma GroupedUnder(config: Config, rows: seq<Row>, row: Row, key: string)
    ensures ItemsOf(config, rows + [row], key)
         == ItemsOf(config, rows, key) + (if KeyOf(config, row) == Some(key) then [row.item] else [])
  {
    assert (rows + [row])[..|rows|] == rows;
    assert ItemsOf(config, rows, key) + [] == ItemsOf(config, rows, key);
  }

  // -------------------------------------------------- the rows afterwards

  lemma {:induction false} LastPosition(table: Table, items: seq<Item>, k: nat)
    requires k < |items| && forall j :: k < j < |items| ==> items[j].id != items[k].id
    ensures items[k].id in Upserted(table, items)
    ensures Upserted(table, items)[items[k].id] == Member(items[k].rank * 1000, false)
    decreases |items|
  {
    var last := |items| - 1;
    if k < last {
      assert items[..last][k] == items[k];
      LastPosition(table, items[..last], k);
    }
  }

  /** A wanted item is shown at a thousand times its rank, the last one if it is listed more than once. */
  lemma WantedRow(before: Table, sync: bool, items: seq<Item>, k: nat)
    requires k < |items| && forall j :: k < j < |items| ==> items[j].id != items[k].id
    ensures items[k].id in Reconciled(before, sync, items)
    ensures Reconciled(before, sync, items)[items[k].id] == Member(items[k].rank * 1000, false)
  {
    LastPosition(Kept(before, sync, items), items, k);
  }

  /** The row of any other item is gone in sync mode and untouched otherwise. */
  lemma OtherRow(before: Table, sync: bool, items: seq<Item>, id: nat)
    requires id !in Desired(items)
    ensures id in Reconciled(before, sync, items) <==> !sync && id in before
    ensures !sync && id in before ==> Reconciled(before, sync, items)[id] == before[id]
  {
    UpsertedRows(Kept(before, sync, items), items);
  }
}
