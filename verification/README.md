# Bevy ECS scanner: a verified model of scanning and classifying

The RustRover plugin for Bevy scans every Rust file of a project.
It reports three kinds of ECS declaration, each grouped by where it lives:

- **messages**: structs that derive `Message`;
- **components**: structs that derive `Component` but not `Message`;
- **systems**: functions with a parameter whose type text mentions one of
  the Bevy marker types.

A second scanner lists only the message structs, with their fields, in
file order.

This project models both scanners in Dafny over plain input datatypes.
The parsed syntax tree is reduced to the parts the scanners read (module
`Psi`):

- a file is its path plus, when it parsed, its struct and function items;
- a struct has an optional name, outer attributes, optional block fields,
  a line number and a text offset;
- a function has an optional name, an optional parameter list, a line
  number and a text offset.

The modules follow the program's structure:

| module | what it models |
|---|---|
| `Nullable` | nullable references and the elvis operator |
| `Strings` | string order, `contains`, `removeSuffix`, `split`, `joinToString` |
| `Sorting` | the stable `sortedBy` |
| `Seqs` | `flatMap` |
| `Paths` | `relativeTo` on normalized paths |
| `Psi` | the syntax the scanners read |
| `MessageModels`, `BevyItems` | the records the scanners produce |
| `Matchers` | `hasDerivedTrait` and `isSystem` |
| `Collector` | the scanning loop of `findBevyItems` |
| `Grouping` | `groupItems` |
| `BevyScanner` | `findBevyItems` |
| `MessageStructScanner` | `findMessages` and `hasMessageDerive` |

Kotlin's `groupBy` fills a linked hash map, so keys keep the order in
which they first occur. The model builds it as a left fold (`AddToGroup`).
`sortedBy` is stable and is modelled as a stable insertion sort.

`MessageStructScanner.AsMessages` has no counterpart in the plugin. It turns
collected items into message records, so that `MessagesAgreeWithScan` can
state that the two scanners report the same messages.

## Model

| member | source | states |
|---|---|---|
| Matchers.ArgNames | src/main/kotlin/ch/edizeqiri/bevyecs/BevyScanner.kt:155 | A name is among the derive's argument names exactly when some argument carries that name; nameless arguments are dropped. |
| Matchers.DerivedTraits | src/main/kotlin/ch/edizeqiri/bevyecs/BevyScanner.kt:153-155 | The trait names one attribute contributes: the argument names of a `derive` meta item with an argument list, else none. `Matchers.DerivedTraitsIff` states it against `DerivesAt`. |
| Matchers.DerivedTraitsIff | src/main/kotlin/ch/edizeqiri/bevyecs/BevyScanner.kt:153-156 | The traits an attribute contributes are exactly the argument names of a `derive` meta item that has an argument list; any other attribute contributes nothing. |
| Matchers.AnyDerives | src/main/kotlin/ch/edizeqiri/bevyecs/BevyScanner.kt:152-161 | The early-return walk over the attributes answers true exactly when some attribute is a `derive` listing the trait by exact name. |
| Matchers.HasDerivedTrait | src/main/kotlin/ch/edizeqiri/bevyecs/BevyScanner.kt:151-162 | A struct has a derived trait exactly when some outer attribute is `derive(...)` with an argument named exactly that trait. |
| Matchers.AttributeOrderIrrelevant | src/main/kotlin/ch/edizeqiri/bevyecs/BevyScanner.kt:151-162 | Two structs with the same set of attributes agree on every trait, whatever the order or repetition of the attributes. |
| Matchers.DeriveMatchIsExact | src/main/kotlin/ch/edizeqiri/bevyecs/BevyScanner.kt:154-156 | `derive(MessageExtra)` does not derive `Message`, and a `derive` without an argument list derives nothing. |
| Matchers.IsSystemType | src/main/kotlin/ch/edizeqiri/bevyecs/BevyScanner.kt:168-174 | The marker test on one parameter's type text, one `contains` per marker. `Matchers.IsSystemTypeIffMarkerOccurs` states it as a marker occurring at some position. |
| Matchers.AnySystemParam | src/main/kotlin/ch/edizeqiri/bevyecs/BevyScanner.kt:167-175 | `any` over the parameters holds exactly when some parameter's type text, or the empty text when the type is missing, passes the marker test. |
| Matchers.IsSystem | src/main/kotlin/ch/edizeqiri/bevyecs/BevyScanner.kt:164-176 | A function is a system exactly when it has a value-parameter list and some parameter's type text, or the empty text, contains a marker. |
| Matchers.IsSystemTypeIffMarkerOccurs | src/main/kotlin/ch/edizeqiri/bevyecs/BevyScanner.kt:168-174 | The marker test on one type text holds exactly when one of `Query`, `Commands`, `Res`, `ResMut`, `EventWriter`, `EventReader` occurs in it at some position. |
| Matchers.IsSystemIffMarkerInParameter | src/main/kotlin/ch/edizeqiri/bevyecs/BevyScanner.kt:164-176 | A function is a system exactly when it has a parameter list and a marker occurs at some position in some parameter's type text. |
| Matchers.MissingTypeNeverMatches | src/main/kotlin/ch/edizeqiri/bevyecs/BevyScanner.kt:168 | A function whose parameters all lack a type is never a system, because the empty text contains no marker. |
| Matchers.ResMutImpliesRes | src/main/kotlin/ch/edizeqiri/bevyecs/BevyScanner.kt:171-172 | Every text that contains `ResMut` also contains `Res`, so the `ResMut` marker never changes the answer. |
| Matchers.ResourceHandleIsSystem | src/main/kotlin/ch/edizeqiri/bevyecs/BevyScanner.kt:169-174 | A function whose only parameter has type `MyResourceHandle` is a system, because the substring match finds `Res`. |
| Matchers.QueryParameterIsSystem | src/main/kotlin/ch/edizeqiri/bevyecs/BevyScanner.kt:164-176 | A parameter of type `Query<&Transform>` makes a system; one of type `i32` does not. |
| Collector.ToField | src/main/kotlin/ch/edizeqiri/bevyecs/BevyScanner.kt:66-69 | One reported field: the declaration's name or `<unknown>`, and its type text or `unknown`. `Collector.FieldsOf` states the placeholders field by field. |
| Collector.FieldsOf | src/main/kotlin/ch/edizeqiri/bevyecs/BevyScanner.kt:64-70 | One field per declaration, in order, keeping the name and type text when present and using `<unknown>` and `unknown` when they are missing. |
| Collector.ExtractFields | src/main/kotlin/ch/edizeqiri/bevyecs/BevyScanner.kt:63-71 | A struct without block fields (tuple or unit) yields no fields; otherwise the fields match the declarations one for one, in order. |
| Collector.Classify | src/main/kotlin/ch/edizeqiri/bevyecs/BevyScanner.kt:56-60 | The `when` that classifies a struct, testing `Message` before `Component`. `Collector.ClassifyKinds` states the resulting kinds. |
| Collector.ClassifyKinds | src/main/kotlin/ch/edizeqiri/bevyecs/BevyScanner.kt:56-60 | A struct is never classified as a system. It is a message exactly when it derives `Message`, a component exactly when it derives `Component` but not `Message`, and unclassified when it derives neither. |
| Collector.StructToItem | src/main/kotlin/ch/edizeqiri/bevyecs/BevyScanner.kt:73-80 | The item of a classified struct: its name or `<unnamed>`, its extracted fields, the kind, the file's path, and the line number and offset carried over. Its properties are stated by `Collector.PlaceholderNames` and `Collector.CollectedItemShape`. |
| Collector.FunctionToItem | src/main/kotlin/ch/edizeqiri/bevyecs/BevyScanner.kt:94-101 | The item of a system: its name or `<unnamed>`, no fields, the system kind, the file's path, and the line number and offset carried over. Its properties are stated by `Collector.PlaceholderNames`. |
| Collector.PlaceholderNames | src/main/kotlin/ch/edizeqiri/bevyecs/BevyScanner.kt:73-101 | A missing struct or function name becomes `<unnamed>`; systems have no fields and the system kind; every item records its file's path. |
| Collector.StructItemsOfKind | src/main/kotlin/ch/edizeqiri/bevyecs/BevyScanner.kt:55-88 | The items of one kind that a file's structs yield, in declaration order. `Collector.ScanStructs` shows the loop computes it; `Collector.StructItemsMembers` and `Collector.StructItemsCount` state what it holds. |
| Collector.SystemItems | src/main/kotlin/ch/edizeqiri/bevyecs/BevyScanner.kt:91-104 | The systems among a file's functions, in declaration order. `Collector.ScanFunctions` shows the loop computes it; `Collector.SystemItemsMembers` and `Collector.SystemItemsCount` state what it holds. |
| Collector.FileItems | src/main/kotlin/ch/edizeqiri/bevyecs/BevyScanner.kt:51-104 | The items of one kind that one file yields: none when it did not parse, else its struct items or its systems. `Collector.ItemsOfKindMembers` relates it to the collected items. |
| Collector.ScanStructs | src/main/kotlin/ch/edizeqiri/bevyecs/BevyScanner.kt:55-88 | The struct loop of one file appends each classified struct to the list of its kind, in declaration order. |
| Collector.ScanFunctions | src/main/kotlin/ch/edizeqiri/bevyecs/BevyScanner.kt:91-104 | The function loop of one file appends each system, in declaration order. |
| Collector.CollectItems | src/main/kotlin/ch/edizeqiri/bevyecs/BevyScanner.kt:46-105 | The loop over the files yields each kind's items file by file, skipping files that did not parse. |
| Collector.ItemsOfKind | src/main/kotlin/ch/edizeqiri/bevyecs/BevyScanner.kt:46-105 | The items of one kind across the files, file by file, as the scanning loop accumulates them. `Collector.CollectItems` shows the loop computes it; `Collector.ItemsOfKindMembers` and `Collector.CollectedItemShape` state what it holds. |
| Collector.StructItemsMembers | src/main/kotlin/ch/edizeqiri/bevyecs/BevyScanner.kt:55-88 | The items of a kind that one file's structs yield are exactly the items of its structs classified as that kind. |
| Collector.SystemItemsMembers | src/main/kotlin/ch/edizeqiri/bevyecs/BevyScanner.kt:91-104 | The systems of one file are exactly the items of its functions that pass the heuristic. |
| Collector.ItemsOfKindMembers | src/main/kotlin/ch/edizeqiri/bevyecs/BevyScanner.kt:50-51 | An item is collected exactly when some file that parsed yields it. |
| Collector.CollectedItemShape | src/main/kotlin/ch/edizeqiri/bevyecs/BevyScanner.kt:55-104 | A collected item carries its list's kind and its file's path. A system has no fields. A message comes from a struct deriving `Message`. A component comes from a struct deriving `Component` but not `Message`. |
| Collector.KindsAreExclusive | src/main/kotlin/ch/edizeqiri/bevyecs/BevyScanner.kt:56-60 | No item is collected under two kinds. |
| Collector.MessageWinsTieBreak | src/main/kotlin/ch/edizeqiri/bevyecs/BevyScanner.kt:56-60 | A struct deriving both `Message` and `Component` is collected as a message and not as a component. |
| Collector.StructItemsCount | src/main/kotlin/ch/edizeqiri/bevyecs/BevyScanner.kt:55-88 | Together, a file's messages and components never outnumber its structs, and its structs yield no systems. |
| Collector.SystemItemsCount | src/main/kotlin/ch/edizeqiri/bevyecs/BevyScanner.kt:91-104 | A file's systems never outnumber its functions. |
| Collector.CollectedCounts | src/main/kotlin/ch/edizeqiri/bevyecs/BevyScanner.kt:50-105 | Across the files, messages plus components never outnumber the structs, and systems never outnumber the functions. |
| Collector.DeriveMessageExample | src/main/kotlin/ch/edizeqiri/bevyecs/BevyScanner.kt:55-83 | `#[derive(Message)] struct Chat { id: u32, text: String }` is collected as one message with both fields in order. |
| Strings.LessEqTotal | src/main/kotlin/ch/edizeqiri/bevyecs/BevyScanner.kt:147-148 | The string order `sortedBy` uses compares any two names. |
| Strings.LessEqTransitive | src/main/kotlin/ch/edizeqiri/bevyecs/BevyScanner.kt:147-148 | The string order is transitive. |
| Strings.LessEqAntisymmetric | src/main/kotlin/ch/edizeqiri/bevyecs/BevyScanner.kt:147-148 | Two names that are each at most the other are equal. |
| Strings.LessEq | src/main/kotlin/ch/edizeqiri/bevyecs/BevyScanner.kt:147-148 | The order `compareTo` puts on names: lexicographic by character, a proper prefix first. `Strings.LessEqTotal`, `Strings.LessEqTransitive` and `Strings.LessEqAntisymmetric` show it is a total order. |
| Strings.ContainsIffOccurs | src/main/kotlin/ch/edizeqiri/bevyecs/BevyScanner.kt:169-174 | `contains` holds exactly when the pattern occurs at some position of the text. |
| Strings.Contains | src/main/kotlin/ch/edizeqiri/bevyecs/BevyScanner.kt:169-174 | `String.contains`: a scan from the left for the pattern. `Strings.ContainsIffOccurs` shows it holds exactly when the pattern occurs at some position. |
| Strings.RemoveSuffix | src/main/kotlin/ch/edizeqiri/bevyecs/BevyScanner.kt:132 | `removeSuffix` drops the suffix when the text ends with it, so appending it back restores the text; otherwise the text is unchanged. |
| Strings.RemoveSuffixOfAppended | src/main/kotlin/ch/edizeqiri/bevyecs/BevyScanner.kt:132 | Removing a suffix undoes appending it. |
| Strings.Join | src/main/kotlin/ch/edizeqiri/bevyecs/BevyScanner.kt:136-140 | `joinToString`: the parts with the separator between consecutive ones. `Strings.JoinSplit` and `Strings.SplitJoin` state that it inverts `Split`. |
| Strings.Split | src/main/kotlin/ch/edizeqiri/bevyecs/BevyScanner.kt:127 | `split` yields at least one part, and no part contains the separator. |
| Strings.JoinSplit | src/main/kotlin/ch/edizeqiri/bevyecs/BevyScanner.kt:127 | Joining the parts of a split with the separator restores the text. |
| Strings.SplitJoin | src/main/kotlin/ch/edizeqiri/bevyecs/BevyScanner.kt:127-140 | Splitting a join of one or more separator-free parts gives the parts back. |
| Sorting.InsertBy | src/main/kotlin/ch/edizeqiri/bevyecs/BevyScanner.kt:147-148 | Inserting into the sorted prefix adds exactly one element. |
| Sorting.SortBy | src/main/kotlin/ch/edizeqiri/bevyecs/BevyScanner.kt:147-148 | `sortedBy` keeps the length of its input; `Sorting.SortByPermutes`, `Sorting.SortBySorted` and `Sorting.SortByStable` state that it is a stable sort. |
| Sorting.SortByPermutes | src/main/kotlin/ch/edizeqiri/bevyecs/BevyScanner.kt:147-148 | `sortedBy` returns each element exactly as often as the input holds it. |
| Sorting.SortBySorted | src/main/kotlin/ch/edizeqiri/bevyecs/BevyScanner.kt:147-148 | The result of `sortedBy` is non-decreasing by its key. |
| Sorting.SortByStable | src/main/kotlin/ch/edizeqiri/bevyecs/BevyScanner.kt:147-148 | `sortedBy` is stable: for every key, the elements with that key keep their input order. |
| Sorting.WithKeyMembers | src/main/kotlin/ch/edizeqiri/bevyecs/BevyScanner.kt:122 | The elements filtered by a key are exactly the input elements with that key. |
| Paths.Segments | src/main/kotlin/ch/edizeqiri/bevyecs/BevyScanner.kt:124 | The segments `java.io.File` sees in a normalized path: the split at `/`, without a trailing empty segment, so the root `/` is one empty segment. `Paths.SegmentsWellFormed` and `Paths.SegmentsJoin` state its properties. |
| Paths.SegmentsWellFormed | src/main/kotlin/ch/edizeqiri/bevyecs/BevyScanner.kt:124 | A path has at least one segment, and no segment contains the separator. |
| Paths.SegmentsJoin | src/main/kotlin/ch/edizeqiri/bevyecs/BevyScanner.kt:124 | Joining separator-free segments whose last one is non-empty gives a path with exactly those segments. |
| Paths.CommonPrefixLength | src/main/kotlin/ch/edizeqiri/bevyecs/BevyScanner.kt:124 | The shared leading segments of a path and its base run up to the first difference. |
| Paths.RelativeSegments | src/main/kotlin/ch/edizeqiri/bevyecs/BevyScanner.kt:124 | The segments of the relative path: a `..` for each base segment past the common prefix, then the rest of the path. `Paths.RelativeSegmentsOfDescendant` states the case of a path below the base. |
| Paths.RelativeSegmentsOfDescendant | src/main/kotlin/ch/edizeqiri/bevyecs/BevyScanner.kt:124 | A path whose segments extend the base's is seen as the extra segments. |
| Paths.RelativeTo | src/main/kotlin/ch/edizeqiri/bevyecs/BevyScanner.kt:124 | `File(path).relativeTo(File(base)).path` on normalized paths: the relative segments of the two paths' `Segments`, joined by the separator. `Paths.SplitRelativeTo` and `Paths.RelativeToDescendant` state what splitting it gives, and `Grouping.RootBaseExample` shows the root base. |
| Paths.SplitRelativeTo | src/main/kotlin/ch/edizeqiri/bevyecs/BevyScanner.kt:124-127 | Splitting the relative path gives its segments back. An empty relative path (the base itself) splits into one empty segment. |
| Paths.RelativeToDescendant | src/main/kotlin/ch/edizeqiri/bevyecs/BevyScanner.kt:124-127 | A path formed from the base's segments followed by more segments, the last a non-empty file name, has exactly those extra segments relative to the base. This holds for the root `/` and for a base written with a trailing `/`. |
| Grouping.KeyOfSegments | src/main/kotlin/ch/edizeqiri/bevyecs/BevyScanner.kt:129-143 | The four ordered rules from relative-path segments to a group key. Each rule is stated by `Grouping.SrcFileKey`, `Grouping.SrcNestedKey`, `Grouping.OtherFolderKey` and `Grouping.SingleSegmentKey`. |
| Grouping.GroupKey | src/main/kotlin/ch/edizeqiri/bevyecs/BevyScanner.kt:123-143 | The group key of an item: `Unknown` without a path, else the rules applied to its path's segments seen from the base. `Grouping.AbsentPathKey` and `Grouping.KeyBelowBase` state it. |
| Grouping.AddToGroup | src/main/kotlin/ch/edizeqiri/bevyecs/BevyScanner.kt:122 | One step of `groupBy`: the item joins the bucket of its key, or opens a new last bucket. `Grouping.AddToGroupUpdates` and `Grouping.AddToGroupAppends` state both cases. |
| Grouping.GroupBy | src/main/kotlin/ch/edizeqiri/bevyecs/BevyScanner.kt:122-144 | `groupBy` as a fold of `AddToGroup` over the items. `Grouping.GroupByPartitions` and `Grouping.FlattenGroupBy` state that it partitions the items by key. |
| Grouping.SortEachGroup | src/main/kotlin/ch/edizeqiri/bevyecs/BevyScanner.kt:146-147 | Sorting each bucket's items by name keeps the buckets, their names and their order, and each bucket's items are its input items sorted by name. |
| Grouping.Bucketed | src/main/kotlin/ch/edizeqiri/bevyecs/BevyScanner.kt:122-148 | Bucket by any key, sort each bucket by item name, then sort the buckets by key. `Grouping.BucketedPartition`, `Grouping.BucketedItems`, `Grouping.BucketedMembers` and `Grouping.BucketedOrdered` state its properties, which the `Grouping.GroupItems…` lemmas specialise to the group key. |
| Grouping.GroupItems | src/main/kotlin/ch/edizeqiri/bevyecs/BevyScanner.kt:119-149 | `groupItems`: no groups without a base path, else the buckets by group key, each sorted by item name, sorted by group name. Its properties are stated by the `Grouping.GroupItems…` lemmas below. |
| Grouping.SrcFileKey | src/main/kotlin/ch/edizeqiri/bevyecs/BevyScanner.kt:131-133 | `src/<name>.rs` is grouped as `<name>`; a file directly in `src` without the `.rs` suffix keeps its whole name. |
| Grouping.SrcNestedKey | src/main/kotlin/ch/edizeqiri/bevyecs/BevyScanner.kt:135-137 | A file in folders below `src` is grouped by those folders joined with `/`. |
| Grouping.OtherFolderKey | src/main/kotlin/ch/edizeqiri/bevyecs/BevyScanner.kt:139-141 | A file in folders not starting with `src` is grouped by all its folders joined with `/`. |
| Grouping.SingleSegmentKey | src/main/kotlin/ch/edizeqiri/bevyecs/BevyScanner.kt:142 | A single segment is grouped as `Unknown`. |
| Grouping.AbsentPathKey | src/main/kotlin/ch/edizeqiri/bevyecs/BevyScanner.kt:123 | An item without a path is grouped as `Unknown`, whatever the base. |
| Grouping.KeyBelowBase | src/main/kotlin/ch/edizeqiri/bevyecs/BevyScanner.kt:123-143 | For a path below the base, the key depends only on the segments after the base. |
| Grouping.SrcFileBelowBase | src/main/kotlin/ch/edizeqiri/bevyecs/BevyScanner.kt:124-133 | A file directly in the base's `src` folder is grouped by its name without `.rs`. |
| Grouping.SrcNestedBelowBase | src/main/kotlin/ch/edizeqiri/bevyecs/BevyScanner.kt:124-137 | A file in folders below the base's `src` is grouped by those folders. |
| Grouping.OtherFolderBelowBase | src/main/kotlin/ch/edizeqiri/bevyecs/BevyScanner.kt:124-141 | A file in other folders below the base is grouped by all its folders. |
| Grouping.SrcFileExample | src/main/kotlin/ch/edizeqiri/bevyecs/BevyScanner.kt:124-133 | With base `/proj`, `/proj/src/foo.rs` is grouped as `foo`. |
| Grouping.SrcNestedExample | src/main/kotlin/ch/edizeqiri/bevyecs/BevyScanner.kt:124-137 | With base `/proj`, `/proj/src/net/client.rs` is grouped as `net`. |
| Grouping.OtherFolderExample | src/main/kotlin/ch/edizeqiri/bevyecs/BevyScanner.kt:124-141 | With base `/proj`, `/proj/other/thing.rs` is grouped as `other`. |
| Grouping.RootBaseExample | src/main/kotlin/ch/edizeqiri/bevyecs/BevyScanner.kt:124-133 | With the root `/` as base, `/src/foo.rs` is seen as `src/foo.rs` and grouped as `foo`. |
| Grouping.AddToGroupUpdates | src/main/kotlin/ch/edizeqiri/bevyecs/BevyScanner.kt:122 | Adding an item under a key that already has a bucket appends it to that bucket alone. |
| Grouping.AddToGroupAppends | src/main/kotlin/ch/edizeqiri/bevyecs/BevyScanner.kt:122 | Adding an item under a new key opens a bucket for it at the end. |
| Grouping.GroupByPartitions | src/main/kotlin/ch/edizeqiri/bevyecs/BevyScanner.kt:122-144 | Each `groupBy` bucket holds exactly the items with its key, in input order, and is non-empty; keys are distinct; every item's key names a bucket. |
| Grouping.FlattenGroupBy | src/main/kotlin/ch/edizeqiri/bevyecs/BevyScanner.kt:122-144 | The `groupBy` buckets together hold each item exactly as often as the input does. |
| Grouping.SortGroupsDistinct | src/main/kotlin/ch/edizeqiri/bevyecs/BevyScanner.kt:148 | Sorting groups with distinct names keeps their names distinct. |
| Grouping.GroupItemsWithoutBase | src/main/kotlin/ch/edizeqiri/bevyecs/BevyScanner.kt:120 | Without a project base path there are no groups, whatever the items. |
| Grouping.GroupItemsPartition | src/main/kotlin/ch/edizeqiri/bevyecs/BevyScanner.kt:122-148 | With a base path, the groups together hold each item exactly as often as the input does; no group is empty; no two groups share a name. |
| Grouping.GroupItemsContents | src/main/kotlin/ch/edizeqiri/bevyecs/BevyScanner.kt:122-147 | Each group holds exactly the items whose group key is its name, sorted by name. |
| Grouping.GroupItemsMembers | src/main/kotlin/ch/edizeqiri/bevyecs/BevyScanner.kt:122-147 | A group holds only input items whose key is its name, and every input item is in the group its key names. |
| Grouping.GroupItemsOrdered | src/main/kotlin/ch/edizeqiri/bevyecs/BevyScanner.kt:146-148 | Groups come in non-decreasing name order. Items within a group come in non-decreasing name order, and items with equal names keep their input order. |
| Grouping.AbsentPathGroupsAsUnknown | src/main/kotlin/ch/edizeqiri/bevyecs/BevyScanner.kt:123 | With a base path, an item without a path lands in the group named `Unknown`. |
| BevyScanner.FindBevyItems | src/main/kotlin/ch/edizeqiri/bevyecs/BevyScanner.kt:42-112 | Each kind's groups are the grouping of that kind's collected items. Without a base path all three lists are empty. Every grouped item has its list's kind, and grouped systems have no fields. |
| BevyScanner.GroupsHoldKind | src/main/kotlin/ch/edizeqiri/bevyecs/BevyScanner.kt:107-111 | Every item in a kind's groups has that kind; grouped systems carry no fields. |
| BevyScanner.ScanKeepsEveryItem | src/main/kotlin/ch/edizeqiri/bevyecs/BevyScanner.kt:107-148 | With a base path, each kind's groups hold every collected item of that kind exactly as often as it was collected, each in the group its key names. |
| MessageStructScanner.HasMessageDerive | src/main/kotlin/ch/edizeqiri/bevyecs/MessageStructScanner.kt:48-68 | A struct derives `Message` exactly when some attribute is `derive(...)` with an argument named exactly `Message`. |
| MessageStructScanner.MessageDeriveAgrees | src/main/kotlin/ch/edizeqiri/bevyecs/MessageStructScanner.kt:52-67 | The message scanner's attribute walk answers as the general derive walk does for `Message`. |
| MessageStructScanner.HasMessageDeriveAgrees | src/main/kotlin/ch/edizeqiri/bevyecs/MessageStructScanner.kt:48-68 | `hasMessageDerive` equals `hasDerivedTrait(_, "Message")`, and holds exactly when the ECS scan classifies the struct as a message. |
| MessageStructScanner.MessageDeriveIn | src/main/kotlin/ch/edizeqiri/bevyecs/MessageStructScanner.kt:52-67 | The attribute walk of `hasMessageDerive`, returning true at the first `derive` listing `Message`. `MessageStructScanner.MessageDeriveAgrees` relates it to the general derive walk. |
| MessageStructScanner.MessageOf | src/main/kotlin/ch/edizeqiri/bevyecs/MessageStructScanner.kt:28-41 | The record of a message struct: its name or `<unnamed>` and its extracted fields. `MessageStructScanner.SingleStructMessages` states the placeholder and the tuple-struct case. |
| MessageStructScanner.StructMessages | src/main/kotlin/ch/edizeqiri/bevyecs/MessageStructScanner.kt:25-42 | The message records of one file's structs, in declaration order. `MessageStructScanner.StructMessagesAgree` relates it to the struct items of the ECS scan. |
| MessageStructScanner.FileMessages | src/main/kotlin/ch/edizeqiri/bevyecs/MessageStructScanner.kt:22-42 | The messages of one file: none when it did not parse, else its structs' messages. `MessageStructScanner.UnparsedFileAddsNothing` states the first case. |
| MessageStructScanner.Messages | src/main/kotlin/ch/edizeqiri/bevyecs/MessageStructScanner.kt:21-43 | The messages across the files, file by file and struct by struct. `MessageStructScanner.FindMessages` shows the loops compute it; `MessageStructScanner.MessagesMembers` states which structs it holds. |
| MessageStructScanner.FindMessages | src/main/kotlin/ch/edizeqiri/bevyecs/MessageStructScanner.kt:15-46 | The nested loops yield the message structs file by file and, within a file, in declaration order; there are never more of them than structs. |
| MessageStructScanner.StructMessagesAgree | src/main/kotlin/ch/edizeqiri/bevyecs/MessageStructScanner.kt:25-41 | A file's reported messages are its collected message items with the same names and fields. |
| MessageStructScanner.MessagesAgreeWithScan | src/main/kotlin/ch/edizeqiri/bevyecs/MessageStructScanner.kt:15-46 | `findMessages` reports the ECS scan's message items, before grouping, in the same order and with the same names and fields. |
| MessageStructScanner.MessagesCount | src/main/kotlin/ch/edizeqiri/bevyecs/MessageStructScanner.kt:25-26 | The result is never longer than the total number of structs. |
| MessageStructScanner.MessagesMembers | src/main/kotlin/ch/edizeqiri/bevyecs/MessageStructScanner.kt:21-42 | A record is reported exactly when some struct of a parsed file derives `Message` and yields that record. |
| MessageStructScanner.MessagesAppend | src/main/kotlin/ch/edizeqiri/bevyecs/MessageStructScanner.kt:21-43 | Results follow file order: the messages of more files are appended after those of the earlier files. |
| MessageStructScanner.SingleStructMessages | src/main/kotlin/ch/edizeqiri/bevyecs/MessageStructScanner.kt:26-41 | A struct deriving `Message` is reported and any other struct is skipped. A tuple struct is reported without fields. A nameless struct is reported as `<unnamed>`. |
| MessageStructScanner.UnparsedFileAddsNothing | src/main/kotlin/ch/edizeqiri/bevyecs/MessageStructScanner.kt:22-23 | A file that did not parse as Rust contributes no messages. |
| Seqs.FlatMap | src/main/kotlin/ch/edizeqiri/bevyecs/MessageStructScanner.kt:21-43 | The results for each file, concatenated in file order. `Seqs.FlatMapSnoc` and `Seqs.FlatMapAppend` state how it extends. |
| Seqs.FlatMapSnoc | src/main/kotlin/ch/edizeqiri/bevyecs/MessageStructScanner.kt:21-43 | One more file appends its results after those of the earlier files. |
| Seqs.FlatMapAppend | src/main/kotlin/ch/edizeqiri/bevyecs/MessageStructScanner.kt:21-43 | Collecting over two runs of files appends the second run's results after the first's. |

## Left out

- Finding the project's files is left out. This covers `FileTypeIndex`, `PsiManager.findFile` and the descendant traversal, which are IntelliJ and Rust-plugin APIs. The files arrive as an input sequence of `SourceFile`. A file that did not parse as Rust has no syntax tree and is skipped.
- Line numbers and text offsets are not computed. `getLineNumber` is a document lookup; each item carries the value from its input item unchanged.
- Paths.RelativeTo: `File.relativeTo` is modelled only for normalized paths. Paths are split at `/`, and a trailing empty segment is dropped as `java.io.File` does, so the root `/` and a base written as `/proj/` behave as in Kotlin. The common leading segments are removed, and each remaining base segment becomes `..`. Not modelled: the JVM's handling of `.`, `..` and repeated separators, and its exception for paths with different roots.
- `File.separator` is taken to be `/`. On Windows the plugin splits at `\` and joins group names with `/`.
- String order: `Strings.LessEq` compares characters as Unicode scalar values. Kotlin's `compareTo` compares UTF-16 code units, so the two orders differ only on characters outside the Basic Multilingual Plane.
- The `println` tracing in `hasMessageDerive` is left out. It has no effect on the result.
- The tool windows, tree views, navigation and the VFS listener are left out (`BevyToolWindowFactory.kt`, `MessagePanel.kt`, `MessagesToolWindowFactory.kt`). So are the threads they schedule on. They only display the scanners' output.
- `build.gradle.kts` is build configuration and is left out.
- Group keys strip only the `.rs` suffix for a file directly in `src`. The comment at `BevyScanner.kt:130` says "without extension", but line 132 removes exactly `.rs`. The model follows the code: `src/lib.txt` is grouped as `lib.txt`.
- The `Res` marker is a substring test, so any type text containing `Res` marks a system. This is the plugin's heuristic and is modelled as written (`Matchers.ResourceHandleIsSystem`). `ResMut` is then redundant (`Matchers.ResMutImpliesRes`).
