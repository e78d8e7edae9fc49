/**
 * `groupItems`: each item's path, seen from the project base, gives a group
 * key; items are bucketed by key in first-seen order (`groupBy`), each
 * bucket is sorted by item name, and the buckets are sorted by key.
 */
module Grouping {
  import opened Nullable
  import opened Strings
  import opened Sorting
  import opened Paths
  import opened BevyItems

  /**
   * The group key of a relative path's segments, by the first rule that
   * applies: a file directly in `src` gives its name without `.rs`; a file
   * deeper in `src` gives its folders below `src`; any other file gives its
   * folders; a single segment gives `Unknown`.
   */
  function KeyOfSegments(parts: seq<string>): string {
    if |parts| >= 2 && parts[0] == "src" && |parts| == 2 then RemoveSuffix(parts[1], ".rs")
    else if |parts| > 2 && parts[0] == "src" then Join(parts[1..|parts| - 1], '/')
    else if |parts| > 1 then Join(parts[..|parts| - 1], '/')
    else "Unknown"
  }

  /** The group of an item: `Unknown` without a path, else the key of its path seen from `basePath`. */
  function GroupKey(item: BevyItem, basePath: string): string {
    match item.filePath
    case None => "Unknown"
    case Some(path) => KeyOfSegments(Split(RelativeTo(path, basePath), Separator))
  }

  /** `GroupKey` for a fixed base, as a key function. */
  function KeyIn(basePath: string): BevyItem -> string {
    item => GroupKey(item, basePath)
  }

  /** Adds `item` to the bucket named `key`, opening a new last bucket when there is none. */
  function AddToGroup(groups: seq<BevyGroup>, key: string, item: BevyItem): seq<BevyGroup> {
    if |groups| == 0 then [BevyGroup(key, [item])]
    else if groups[0].groupName == key then [BevyGroup(key, groups[0].items + [item])] + groups[1..]
    else [groups[0]] + AddToGroup(groups[1..], key, item)
  }

  /** `groupBy(key)`: the buckets in the order their keys first occur, each in input order. */
  function GroupBy(items: seq<BevyItem>, key: BevyItem -> string): seq<BevyGroup> {
    if |items| == 0 then []
    else
      var item := items[|items| - 1];
      AddToGroup(GroupBy(items[..|items| - 1], key), key(item), item)
  }

  /** Each bucket with its items sorted by name. */
  function SortEachGroup(groups: seq<BevyGroup>): (sorted: seq<BevyGroup>)
    ensures |sorted| == |groups|
    ensures forall i :: 0 <= i < |groups| ==>
      sorted[i].groupName == groups[i].groupName && sorted[i].items == SortBy(groups[i].items, ItemName)
  {
    if |groups| == 0 then []
    else [BevyGroup(groups[0].groupName, SortBy(groups[0].items, ItemName))] + SortEachGroup(groups[1..])
  }

  /** Bucket by `key`, sort each bucket by item name, then sort the buckets by key. */
  function Bucketed(items: seq<BevyItem>, key: BevyItem -> string): seq<BevyGroup> {
    SortBy(SortEachGroup(GroupBy(items, key)), GroupName)
  }

  /** `groupItems`: nothing without a project base path. */
  function GroupItems(items: seq<BevyItem>, basePath: Option<string>): seq<BevyGroup> {
    match basePath
    case None => []
    case Some(base) => Bucketed(items, KeyIn(base))
  }

  /** No two groups share a name. */
  ghost predicate DistinctNames(groups: seq<BevyGroup>) {
    forall i, j :: 0 <= i < j < |groups| ==> groups[i].groupName != groups[j].groupName
  }

  /**
   * `groups` partitions `items` by key: each group holds exactly the items
   * with its key, in input order, and is non-empty; names are distinct; and
   * every item's key names a group.
   */
  ghost predicate Partitions(groups: seq<BevyGroup>, items: seq<BevyItem>, key: BevyItem -> string) {
    && (forall i :: 0 <= i < |groups| ==> groups[i].items == WithKey(items, key, groups[i].groupName))
    && (forall i :: 0 <= i < |groups| ==> |groups[i].items| > 0)
    && DistinctNames(groups)
    && (forall x :: x in items ==> exists i :: 0 <= i < |groups| && groups[i].groupName == key(x))
  }

  // Group keys

  /** A file directly in `src` is grouped by its name without the `.rs` extension, or by its whole name without one. */
  lemma SrcFileKey(name: string)
    ensures KeyOfSegments(["src", name + ".rs"]) == name
    ensures !EndsWith(name, ".rs") ==> KeyOfSegments(["src", name]) == name
  {
    RemoveSuffixOfAppended(name, ".rs");
  }

  /** A file in folders below `src` is grouped by those folders. */
  lemma SrcNestedKey(dirs: seq<string>, file: string)
    requires |dirs| >= 1
    ensures KeyOfSegments(["src"] + dirs + [file]) == Join(dirs, '/')
  {
    var parts := ["src"] + dirs + [file];
    assert parts[1..|parts| - 1] == dirs;
  }

  /** A file anywhere else is grouped by all its folders. */
  lemma OtherFolderKey(dirs: seq<string>, file: string)
    requires |dirs| >= 1 && dirs[0] != "src"
    ensures KeyOfSegments(dirs + [file]) == Join(dirs, '/')
  {
    var parts := dirs + [file];
    assert parts[..|parts| - 1] == dirs;
  }

  /** A single segment (a file at the base itself, or the base) is grouped as `Unknown`. */
  lemma SingleSegmentKey(segment: string)
    ensures KeyOfSegments([segment]) == "Unknown"
  {
  }

  /** An item without a path is grouped as `Unknown`, whatever the base. */
  lemma {:induction false} AbsentPathKey(item: BevyItem, basePath: string)
    requires item.filePath.None?
    ensures GroupKey(item, basePath) == "Unknown"
  {
  }

  /** Below the base, the key depends only on the segments after the base. */
  lemma KeyBelowBase(item: BevyItem, base: string, rest: seq<string>)
    requires |rest| >= 1 && rest[|rest| - 1] != ""
    requires forall i :: 0 <= i < |rest| ==> Separator !in rest[i]
    requires item.filePath == Some(Join(Segments(base) + rest, Separator))
    ensures GroupKey(item, base) == KeyOfSegments(rest)
  {
    RelativeToDescendant(base, rest);
  }

  /** A file directly in `src` under the base is grouped by its name without `.rs`. */
  lemma SrcFileBelowBase(item: BevyItem, base: string, name: string)
    requires Separator !in name
    requires item.filePath == Some(Join(Segments(base) + ["src", name + ".rs"], Separator))
    ensures GroupKey(item, base) == name
  {
    assert Separator !in name + ".rs";
    KeyBelowBase(item, base, ["src", name + ".rs"]);
    SrcFileKey(name);
  }

  /** A file in folders below `src` under the base is grouped by those folders. */
  lemma SrcNestedBelowBase(item: BevyItem, base: string, dirs: seq<string>, file: string)
    requires |dirs| >= 1 && Separator !in file && file != ""
    requires forall i :: 0 <= i < |dirs| ==> Separator !in dirs[i]
    requires item.filePath == Some(Join(Segments(base) + (["src"] + dirs + [file]), Separator))
    ensures GroupKey(item, base) == Join(dirs, '/')
  {
    var rest := ["src"] + dirs + [file];
    forall i | 0 <= i < |rest|
      ensures Separator !in rest[i]
    {
      if 0 < i < |rest| - 1 {
        assert rest[i] == dirs[i - 1];
      }
    }
    KeyBelowBase(item, base, rest);
    SrcNestedKey(dirs, file);
  }

  /** A file in other folders under the base is grouped by all its folders. */
  lemma OtherFolderBelowBase(item: BevyItem, base: string, dirs: seq<string>, file: string)
    requires |dirs| >= 1 && dirs[0] != "src" && Separator !in file && file != ""
    requires forall i :: 0 <= i < |dirs| ==> Separator !in dirs[i]
    requires item.filePath == Some(Join(Segments(base) + (dirs + [file]), Separator))
    ensures GroupKey(item, base) == Join(dirs, '/')
  {
    var rest := dirs + [file];
    forall i | 0 <= i < |rest|
      ensures Separator !in rest[i]
    {
      if i < |dirs| {
        assert rest[i] == dirs[i];
      }
    }
    KeyBelowBase(item, base, rest);
    OtherFolderKey(dirs, file);
  }

  // Worked cases, with base `/proj`

  /** `/proj` is the segments `""` and `proj`. */
  lemma SplitProj()
    ensures Segments("/proj") == ["", "proj"]
  {
    assert Join(["", "proj"], Separator) == "/proj";
    SegmentsJoin(["", "proj"]);
  }

  /** With base `/proj`, `/proj/src/foo.rs` is grouped as `foo`. */
  lemma SrcFileExample(item: BevyItem)
    ensures GroupKey(item.(filePath := Some("/proj/src/foo.rs")), "/proj") == "foo"
  {
    SplitProj();
    SrcFilePath();
    assert "foo" + ".rs" == "foo.rs";
    assert Segments("/proj") + ["src", "foo" + ".rs"] == ["", "proj", "src", "foo.rs"];
    assert Separator !in "foo";
    SrcFileBelowBase(item.(filePath := Some("/proj/src/foo.rs")), "/proj", "foo");
  }

  /** With base `/proj`, `/proj/src/net/client.rs` is grouped as `net`. */
  lemma SrcNestedExample(item: BevyItem)
    ensures GroupKey(item.(filePath := Some("/proj/src/net/client.rs")), "/proj") == "net"
  {
    SplitProj();
    SrcNestedPath();
    assert Segments("/proj") + (["src"] + ["net"] + ["client.rs"]) == ["", "proj", "src", "net", "client.rs"];
    assert Separator !in "net" && Separator !in "client.rs";
    SrcNestedBelowBase(item.(filePath := Some("/proj/src/net/client.rs")), "/proj", ["net"], "client.rs");
    assert Join(["net"], '/') == "net";
  }

  /** With base `/proj`, `/proj/other/thing.rs` is grouped as `other`. */
  lemma OtherFolderExample(item: BevyItem)
    ensures GroupKey(item.(filePath := Some("/proj/other/thing.rs")), "/proj") == "other"
  {
    SplitProj();
    OtherFolderPath();
    assert Segments("/proj") + (["other"] + ["thing.rs"]) == ["", "proj", "other", "thing.rs"];
    assert Separator !in "other" && Separator !in "thing.rs";
    OtherFolderBelowBase(item.(filePath := Some("/proj/other/thing.rs")), "/proj", ["other"], "thing.rs");
    assert Join(["other"], '/') == "other";
  }

  /** With the root `/` as base, `/src/foo.rs` is seen as `src/foo.rs` and grouped as `foo`. */
  lemma RootBaseExample(item: BevyItem)
    ensures RelativeTo("/src/foo.rs", "/") == "src/foo.rs"
    ensures GroupKey(item.(filePath := Some("/src/foo.rs")), "/") == "foo"
  {
    SegmentsOfRoot();
    RootSrcFilePath();
    assert "foo" + ".rs" == "foo.rs";
    assert Segments("/") + ["src", "foo" + ".rs"] == ["", "src", "foo.rs"];
    SegmentsJoin(["", "src", "foo.rs"]);
    assert RelativeSegments(["", "src", "foo.rs"], [""]) == ["src", "foo.rs"];
    assert Join(["src", "foo.rs"], Separator) == "src/foo.rs";
    assert Separator !in "foo";
    SrcFileBelowBase(item.(filePath := Some("/src/foo.rs")), "/", "foo");
  }

  // Bucketing

  /** Adding to an existing bucket appends the item to that bucket alone. */
  lemma {:induction false} AddToGroupUpdates(groups: seq<BevyGroup>, key: string, item: BevyItem, i: int)
    requires 0 <= i < |groups| && groups[i].groupName == key
    requires forall j :: 0 <= j < i ==> groups[j].groupName != key
    ensures AddToGroup(groups, key, item) == groups[i := BevyGroup(key, groups[i].items + [item])]
  {
    if i > 0 {
      AddToGroupUpdates(groups[1..], key, item, i - 1);
    }
  }

  /** Adding under a new key opens a bucket at the end. */
  lemma {:induction false} AddToGroupAppends(groups: seq<BevyGroup>, key: string, item: BevyItem)
    requires forall j :: 0 <= j < |groups| ==> groups[j].groupName != key
    ensures AddToGroup(groups, key, item) == groups + [BevyGroup(key, [item])]
  {
    if |groups| > 0 {
      AddToGroupAppends(groups[1..], key, item);
    }
  }

  lemma {:induction false} WithKeyNone<T>(s: seq<T>, key: T -> string, k: string)
    requires forall x :: x in s ==> key(x) != k
    ensures WithKey(s, key, k) == []
  {
    if |s| > 0 {
      WithKeyNone(s[1..], key, k);
    }
  }

  /** Appending one item to the input extends exactly the bucket of its key. */
  lemma WithKeyOfAppended(init: seq<BevyItem>, x: BevyItem, key: BevyItem -> string)
    ensures forall name :: WithKey(init + [x], key, name) == WithKey(init, key, name) + (if key(x) == name then [x] else [])
  {
    forall name
      ensures WithKey(init + [x], key, name) == WithKey(init, key, name) + (if key(x) == name then [x] else [])
    {
      WithKeyAppend(init, [x], key, name);
      assert [x][1..] == [];
    }
  }

  /** Adding an item whose key already has a bucket keeps the partition. */
  lemma {:induction false} AddToExistingPartitions(groups: seq<BevyGroup>, init: seq<BevyItem>, x: BevyItem, key: BevyItem -> string, i: int)
    requires Partitions(groups, init, key)
    requires 0 <= i < |groups| && groups[i].groupName == key(x)
    ensures Partitions(AddToGroup(groups, key(x), x), init + [x], key)
  {
    var items := init + [x];
    AddToGroupUpdates(groups, key(x), x, i);
    var result := groups[i := BevyGroup(key(x), groups[i].items + [x])];
    WithKeyOfAppended(init, x, key);
    forall j | 0 <= j < |result|
      ensures result[j].items == WithKey(items, key, result[j].groupName)
    {
      if j != i {
        assert result[j] == groups[j];
      }
    }
    forall y | y in items
      ensures exists j :: 0 <= j < |result| && result[j].groupName == key(y)
    {
      if y != x {
        assert y in init;
        var j :| 0 <= j < |groups| && groups[j].groupName == key(y);
        assert result[j].groupName == groups[j].groupName;
      } else {
        assert result[i].groupName == key(x);
      }
    }
  }

  /** A key no bucket carries belongs to no item. */
  lemma {:induction false} FreshKeyHasNoItems(groups: seq<BevyGroup>, init: seq<BevyItem>, key: BevyItem -> string, k: string)
    requires Partitions(groups, init, key)
    requires forall i :: 0 <= i < |groups| ==> groups[i].groupName != k
    ensures WithKey(init, key, k) == []
  {
    forall y | y in init
      ensures key(y) != k
    {
      var i :| 0 <= i < |groups| && groups[i].groupName == key(y);
    }
    WithKeyNone(init, key, k);
  }

  /** Adding an item under a new key opens a bucket and keeps the partition. */
  lemma {:induction false} AddToNewPartitions(groups: seq<BevyGroup>, init: seq<BevyItem>, x: BevyItem, key: BevyItem -> string)
    requires Partitions(groups, init, key)
    requires forall i :: 0 <= i < |groups| ==> groups[i].groupName != key(x)
    ensures Partitions(AddToGroup(groups, key(x), x), init + [x], key)
  {
    var items := init + [x];
    var result := groups + [BevyGroup(key(x), [x])];
    AddToGroupAppends(groups, key(x), x);
    FreshKeyHasNoItems(groups, init, key, key(x));
    WithKeyOfAppended(init, x, key);
    forall j | 0 <= j < |result|
      ensures result[j].items == WithKey(items, key, result[j].groupName)
      ensures |result[j].items| > 0
    {
      if j < |groups| {
        assert result[j] == groups[j];
      }
    }
    forall i, j | 0 <= i < j < |result|
      ensures result[i].groupName != result[j].groupName
    {
      if j < |groups| {
        assert result[i] == groups[i] && result[j] == groups[j];
      } else {
        assert result[i] == groups[i];
      }
    }
    forall y | y in items
      ensures exists j :: 0 <= j < |result| && result[j].groupName == key(y)
    {
      if y != x {
        assert y in init;
        var j :| 0 <= j < |groups| && groups[j].groupName == key(y);
        assert result[j] == groups[j];
      } else {
        assert result[|groups|].groupName == key(x);
      }
    }
  }

  /** `groupBy` partitions the items by key. */
  lemma {:induction false} GroupByPartitions(items: seq<BevyItem>, key: BevyItem -> string)
    ensures Partitions(GroupBy(items, key), items, key)
  {
    if |items| > 0 {
      var init := items[..|items| - 1];
      var x := items[|items| - 1];
      var groups := GroupBy(init, key);
      GroupByPartitions(init, key);
      assert items == init + [x];
      if i :| 0 <= i < |groups| && groups[i].groupName == key(x) {
        AddToExistingPartitions(groups, init, x, key, i);
      } else {
        AddToNewPartitions(groups, init, x, key);
      }
    }
  }

  // Multiset of all grouped items

  lemma {:induction false} FlattenAddToGroup(groups: seq<BevyGroup>, key: string, item: BevyItem)
    ensures multiset(Flatten(AddToGroup(groups, key, item))) == multiset(Flatten(groups)) + multiset{item}
  {
    if |groups| > 0 {
      if groups[0].groupName == key {
        assert ([BevyGroup(key, groups[0].items + [item])] + groups[1..])[1..] == groups[1..];
      } else {
        FlattenAddToGroup(groups[1..], key, item);
        assert ([groups[0]] + AddToGroup(groups[1..], key, item))[1..] == AddToGroup(groups[1..], key, item);
      }
    }
  }

  lemma {:induction false} FlattenGroupBy(items: seq<BevyItem>, key: BevyItem -> string)
    ensures multiset(Flatten(GroupBy(items, key))) == multiset(items)
  {
    if |items| > 0 {
      var init := items[..|items| - 1];
      var x := items[|items| - 1];
      FlattenGroupBy(init, key);
      FlattenAddToGroup(GroupBy(init, key), key(x), x);
      assert items == init + [x];
    }
  }

  lemma {:induction false} FlattenSortEachGroup(groups: seq<BevyGroup>)
    ensures multiset(Flatten(SortEachGroup(groups))) == multiset(Flatten(groups))
  {
    if |groups| > 0 {
      FlattenSortEachGroup(groups[1..]);
      SortByPermutes(groups[0].items, ItemName);
      var sorted := SortEachGroup(groups);
      assert sorted[1..] == SortEachGroup(groups[1..]);
    }
  }

  lemma {:induction false} FlattenInsertGroup(g: BevyGroup, groups: seq<BevyGroup>)
    ensures multiset(Flatten(InsertBy(g, groups, GroupName))) == multiset(g.items) + multiset(Flatten(groups))
  {
    if |groups| == 0 || LessEq(GroupName(g), GroupName(groups[0])) {
      assert ([g] + groups)[1..] == groups;
    } else {
      var rest := InsertBy(g, groups[1..], GroupName);
      FlattenInsertGroup(g, groups[1..]);
      assert ([groups[0]] + rest)[1..] == rest;
    }
  }

  lemma {:induction false} FlattenSortGroups(groups: seq<BevyGroup>)
    ensures multiset(Flatten(SortBy(groups, GroupName))) == multiset(Flatten(groups))
  {
    if |groups| > 0 {
      FlattenSortGroups(groups[1..]);
      FlattenInsertGroup(groups[0], SortBy(groups[1..], GroupName));
    }
  }

  // Distinct names after sorting

  lemma {:induction false} InsertGroupDistinct(g: BevyGroup, groups: seq<BevyGroup>)
    requires DistinctNames(groups)
    requires forall h :: h in groups ==> h.groupName != g.groupName
    ensures DistinctNames(InsertBy(g, groups, GroupName))
  {
    if |groups| > 0 && !LessEq(GroupName(g), GroupName(groups[0])) {
      var rest := InsertBy(g, groups[1..], GroupName);
      InsertGroupDistinct(g, groups[1..]);
      InsertByPermutes(g, groups[1..], GroupName);
      var r := [groups[0]] + rest;
      forall i, j | 0 <= i < j < |r|
        ensures r[i].groupName != r[j].groupName
      {
        if i == 0 {
          assert r[j] in multiset(rest);
          if r[j] != g {
            assert r[j] in groups[1..];
            var m :| 0 <= m < |groups[1..]| && groups[1..][m] == r[j];
            assert groups[m + 1] == r[j];
          }
        } else {
          assert r[i] == rest[i - 1] && r[j] == rest[j - 1];
        }
      }
    }
  }

  lemma {:induction false} SortGroupsDistinct(groups: seq<BevyGroup>)
    requires DistinctNames(groups)
    ensures DistinctNames(SortBy(groups, GroupName))
  {
    if |groups| > 0 {
      var rest := SortBy(groups[1..], GroupName);
      SortGroupsDistinct(groups[1..]);
      SortByPermutes(groups[1..], GroupName);
      forall h | h in rest
        ensures h.groupName != groups[0].groupName
      {
        assert h in multiset(groups[1..]);
        var m :| 0 <= m < |groups[1..]| && groups[1..][m] == h;
        assert groups[m + 1] == h;
      }
      InsertGroupDistinct(groups[0], rest);
    }
  }

  // Bucketing by an arbitrary key

  /** Together the buckets hold each item exactly as often as the input does. */
  lemma {:induction false} BucketedFlatten(items: seq<BevyItem>, key: BevyItem -> string)
    ensures multiset(Flatten(Bucketed(items, key))) == multiset(items)
  {
    var buckets := GroupBy(items, key);
    FlattenGroupBy(items, key);
    FlattenSortEachGroup(buckets);
    FlattenSortGroups(SortEachGroup(buckets));
  }

  /** Every bucket of the result is one of the name-sorted buckets of `groupBy`. */
  lemma {:induction false} BucketedFrom(items: seq<BevyItem>, key: BevyItem -> string, g: BevyGroup) returns (i: int)
    requires g in Bucketed(items, key)
    ensures 0 <= i < |GroupBy(items, key)|
    ensures g == SortEachGroup(GroupBy(items, key))[i]
  {
    var each := SortEachGroup(GroupBy(items, key));
    SortByPermutes(each, GroupName);
    assert g in multiset(each);
    i :| 0 <= i < |each| && each[i] == g;
  }

  /** No bucket is empty. */
  lemma {:induction false} BucketedNonEmpty(items: seq<BevyItem>, key: BevyItem -> string)
    ensures forall g :: g in Bucketed(items, key) ==> |g.items| > 0
  {
    var buckets := GroupBy(items, key);
    GroupByPartitions(items, key);
    forall g | g in Bucketed(items, key)
      ensures |g.items| > 0
    {
      var i := BucketedFrom(items, key, g);
      assert |buckets[i].items| > 0;
      SortByPermutes(buckets[i].items, ItemName);
      assert buckets[i].items[0] in multiset(g.items);
    }
  }

  /** No two buckets share a name. */
  lemma {:induction false} BucketedDistinct(items: seq<BevyItem>, key: BevyItem -> string)
    ensures DistinctNames(Bucketed(items, key))
  {
    var buckets := GroupBy(items, key);
    var each := SortEachGroup(buckets);
    GroupByPartitions(items, key);
    assert DistinctNames(each);
    SortGroupsDistinct(each);
  }

  /**
   * The buckets partition the items: together they hold each item exactly
   * as often as the input does, no bucket is empty, and no two buckets
   * share a name.
   */
  lemma {:induction false} BucketedPartition(items: seq<BevyItem>, key: BevyItem -> string)
    ensures multiset(Flatten(Bucketed(items, key))) == multiset(items)
    ensures forall g :: g in Bucketed(items, key) ==> |g.items| > 0
    ensures DistinctNames(Bucketed(items, key))
  {
    BucketedFlatten(items, key);
    BucketedNonEmpty(items, key);
    BucketedDistinct(items, key);
  }

  /** A bucket holds the items whose key is its name, sorted by name. */
  lemma {:induction false} BucketItems(items: seq<BevyItem>, key: BevyItem -> string, g: BevyGroup)
    requires g in Bucketed(items, key)
    ensures g.items == SortBy(WithKey(items, key, g.groupName), ItemName)
  {
    GroupByPartitions(items, key);
    var i := BucketedFrom(items, key, g);
  }

  /** A bucket holds only input items with its key. */
  lemma {:induction false} BucketMember(items: seq<BevyItem>, key: BevyItem -> string, g: BevyGroup, x: BevyItem)
    requires g in Bucketed(items, key) && x in g.items
    ensures x in items && key(x) == g.groupName
  {
    BucketItems(items, key, g);
    var filtered := WithKey(items, key, g.groupName);
    SortByPermutes(filtered, ItemName);
    assert x in multiset(filtered);
    WithKeyMembers(items, key, g.groupName);
  }

  /** An input item lands in the bucket its key names. */
  lemma {:induction false} ItemBucket(items: seq<BevyItem>, key: BevyItem -> string, x: BevyItem) returns (g: BevyGroup)
    requires x in items
    ensures g in Bucketed(items, key) && g.groupName == key(x) && x in g.items
  {
    var buckets := GroupBy(items, key);
    var each := SortEachGroup(buckets);
    GroupByPartitions(items, key);
    var i :| 0 <= i < |buckets| && buckets[i].groupName == key(x);
    WithKeyMembers(items, key, buckets[i].groupName);
    SortByPermutes(buckets[i].items, ItemName);
    assert x in multiset(each[i].items);
    g := each[i];
    SortByPermutes(each, GroupName);
    assert g in multiset(Bucketed(items, key));
  }

  /** Each bucket holds exactly the items whose key is its name, sorted by name. */
  lemma {:induction false} BucketedItems(items: seq<BevyItem>, key: BevyItem -> string)
    ensures forall g :: g in Bucketed(items, key) ==> g.items == SortBy(WithKey(items, key, g.groupName), ItemName)
  {
    forall g | g in Bucketed(items, key)
      ensures g.items == SortBy(WithKey(items, key, g.groupName), ItemName)
    {
      BucketItems(items, key, g);
    }
  }

  /** A bucket holds only input items with its key, and every input item is in the bucket its key names. */
  lemma {:induction false} BucketedMembers(items: seq<BevyItem>, key: BevyItem -> string)
    ensures forall g, x :: g in Bucketed(items, key) && x in g.items ==> x in items && key(x) == g.groupName
    ensures forall x :: x in items ==> exists g :: g in Bucketed(items, key) && g.groupName == key(x) && x in g.items
  {
    forall g, x | g in Bucketed(items, key) && x in g.items
      ensures x in items && key(x) == g.groupName
    {
      BucketMember(items, key, g, x);
    }
    forall x | x in items
      ensures exists g :: g in Bucketed(items, key) && g.groupName == key(x) && x in g.items
    {
      var g := ItemBucket(items, key, x);
    }
  }

  /**
   * Buckets come in non-decreasing name order; within a bucket items come in
   * non-decreasing name order, and items with equal names keep their input
   * order.
   */
  lemma {:induction false} BucketedOrdered(items: seq<BevyItem>, key: BevyItem -> string)
    ensures SortedBy(Bucketed(items, key), GroupName)
    ensures forall g :: g in Bucketed(items, key) ==> SortedBy(g.items, ItemName)
    ensures forall g, n :: g in Bucketed(items, key) ==>
      WithKey(g.items, ItemName, n) == WithKey(WithKey(items, key, g.groupName), ItemName, n)
  {
    SortBySorted(SortEachGroup(GroupBy(items, key)), GroupName);
    BucketedItems(items, key);
    forall g | g in Bucketed(items, key)
      ensures SortedBy(g.items, ItemName)
      ensures forall n :: WithKey(g.items, ItemName, n) == WithKey(WithKey(items, key, g.groupName), ItemName, n)
    {
      SortBySorted(WithKey(items, key, g.groupName), ItemName);
      SortByStable(WithKey(items, key, g.groupName), ItemName);
    }
  }

  // Properties of `groupItems`

  /** Without a project base path there are no groups, whatever the items. */
  lemma {:induction false} GroupItemsWithoutBase(items: seq<BevyItem>)
    ensures GroupItems(items, None) == []
  {
  }

  /** With a base path the groups partition the items, none is empty, and names are distinct. */
  lemma {:induction false} GroupItemsPartition(items: seq<BevyItem>, basePath: string)
    ensures multiset(Flatten(GroupItems(items, Some(basePath)))) == multiset(items)
    ensures forall g :: g in GroupItems(items, Some(basePath)) ==> |g.items| > 0
    ensures DistinctNames(GroupItems(items, Some(basePath)))
  {
    BucketedPartition(items, KeyIn(basePath));
  }

  /** Each group holds exactly the items whose group key is its name, sorted by name. */
  lemma {:induction false} GroupItemsContents(items: seq<BevyItem>, basePath: string)
    ensures forall g :: g in GroupItems(items, Some(basePath)) ==>
      g.items == SortBy(WithKey(items, KeyIn(basePath), g.groupName), ItemName)
  {
    BucketedItems(items, KeyIn(basePath));
  }

  /** A group holds only input items whose key is its name; every item is in the group its key names. */
  lemma {:induction false} GroupItemsMembers(items: seq<BevyItem>, basePath: string)
    ensures forall g, x :: g in GroupItems(items, Some(basePath)) && x in g.items ==>
      x in items && GroupKey(x, basePath) == g.groupName
    ensures forall x :: x in items ==>
      exists g :: g in GroupItems(items, Some(basePath)) && g.groupName == GroupKey(x, basePath) && x in g.items
  {
    var key := KeyIn(basePath);
    BucketedMembers(items, key);
    forall x | x in items
      ensures exists g :: g in GroupItems(items, Some(basePath)) && g.groupName == GroupKey(x, basePath) && x in g.items
    {
      assert key(x) == GroupKey(x, basePath);
    }
  }

  /** Groups and the items in each come in name order, stably. */
  lemma {:induction false} GroupItemsOrdered(items: seq<BevyItem>, basePath: string)
    ensures SortedBy(GroupItems(items, Some(basePath)), GroupName)
    ensures forall g :: g in GroupItems(items, Some(basePath)) ==> SortedBy(g.items, ItemName)
    ensures forall g, n :: g in GroupItems(items, Some(basePath)) ==>
      WithKey(g.items, ItemName, n) == WithKey(WithKey(items, KeyIn(basePath), g.groupName), ItemName, n)
  {
    BucketedOrdered(items, KeyIn(basePath));
  }

  /** An item without a path lands in the group named `Unknown`. */
  lemma {:induction false} AbsentPathGroupsAsUnknown(items: seq<BevyItem>, basePath: string, x: BevyItem)
    requires x in items && x.filePath.None?
    ensures exists g :: g in GroupItems(items, Some(basePath)) && g.groupName == "Unknown" && x in g.items
  {
    GroupItemsMembers(items, basePath);
  }

  // Literal joins the worked cases rely on

  /** `proj/src/foo.rs` as three segments. */
  lemma SrcFileTail()
    ensures Join(["proj", "src", "foo.rs"], Separator) == "proj/src/foo.rs"
  {
    assert Join(["foo.rs"], Separator) == "foo.rs";
    assert Join(["src", "foo.rs"], Separator) == "src/foo.rs";
  }

  /** `/proj/src/foo.rs` as four segments, the first empty. */
  lemma SrcFilePath()
    ensures Join(["", "proj", "src", "foo.rs"], Separator) == "/proj/src/foo.rs"
  {
    SrcFileTail();
    var parts := ["", "proj", "src", "foo.rs"];
    assert parts[1..] == ["proj", "src", "foo.rs"];
    assert Join(parts, Separator) == "" + [Separator] + "proj/src/foo.rs";
  }

  /** `src/net/client.rs` as three segments. */
  lemma SrcNestedTail()
    ensures Join(["src", "net", "client.rs"], Separator) == "src/net/client.rs"
  {
    assert Join(["client.rs"], Separator) == "client.rs";
    assert Join(["net", "client.rs"], Separator) == "net/client.rs";
  }

  /** `proj/src/net/client.rs` as four segments. */
  lemma SrcNestedProjTail()
    ensures Join(["proj", "src", "net", "client.rs"], Separator) == "proj/src/net/client.rs"
  {
    SrcNestedTail();
    var parts := ["proj", "src", "net", "client.rs"];
    assert parts[1..] == ["src", "net", "client.rs"];
    assert Join(parts, Separator) == "proj" + [Separator] + "src/net/client.rs";
  }

  /** `/proj/src/net/client.rs` as five segments, the first empty. */
  lemma SrcNestedPath()
    ensures Join(["", "proj", "src", "net", "client.rs"], Separator) == "/proj/src/net/client.rs"
  {
    SrcNestedProjTail();
    var parts := ["", "proj", "src", "net", "client.rs"];
    assert parts[1..] == ["proj", "src", "net", "client.rs"];
    assert Join(parts, Separator) == "" + [Separator] + "proj/src/net/client.rs";
  }

  /** `proj/other/thing.rs` as three segments. */
  lemma OtherFolderTail()
    ensures Join(["proj", "other", "thing.rs"], Separator) == "proj/other/thing.rs"
  {
    assert Join(["thing.rs"], Separator) == "thing.rs";
    assert Join(["other", "thing.rs"], Separator) == "other/thing.rs";
  }

  /** `/proj/other/thing.rs` as four segments, the first empty. */
  lemma OtherFolderPath()
    ensures Join(["", "proj", "other", "thing.rs"], Separator) == "/proj/other/thing.rs"
  {
    OtherFolderTail();
    var parts := ["", "proj", "other", "thing.rs"];
    assert parts[1..] == ["proj", "other", "thing.rs"];
    assert Join(parts, Separator) == "" + [Separator] + "proj/other/thing.rs";
  }

  /** The root `/` is the leading empty segment alone. */
  lemma SegmentsOfRoot()
    ensures Segments("/") == [""]
  {
    assert Join(["", ""], Separator) == "/";
    SplitJoin(["", ""], Separator);
  }

  /** `/src/foo.rs` as three segments, the first empty. */
  lemma RootSrcFilePath()
    ensures Join(["", "src", "foo.rs"], Separator) == "/src/foo.rs"
  {
    assert Join(["foo.rs"], Separator) == "foo.rs";
    assert Join(["src", "foo.rs"], Separator) == "src/foo.rs";
  }
}
