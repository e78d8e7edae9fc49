/**
 * `findBevyItems`: collect the messages, components and systems of the
 * parsed files, then group each list by where its items live.
 */
module BevyScanner {
  import opened Nullable
  import opened Sorting
  import opened Psi
  import opened BevyItems
  import opened Collector
  import opened Grouping

  /** The scan of `files` against the project base path. */
  method FindBevyItems(files: seq<SourceFile>, basePath: Option<string>) returns (result: ScanResult)
    ensures result.messageGroups == GroupItems(ItemsOfKind(files, Message), basePath)
    ensures result.componentGroups == GroupItems(ItemsOfKind(files, Component), basePath)
    ensures result.systemGroups == GroupItems(ItemsOfKind(files, System), basePath)
    ensures basePath.None? ==> result == ScanResult([], [], [])
    ensures forall g, it :: g in result.messageGroups && it in g.items ==> it.kind == Message
    ensures forall g, it :: g in result.componentGroups && it in g.items ==> it.kind == Component
    ensures forall g, it :: g in result.systemGroups && it in g.items ==> it.kind == System
    ensures forall g, it :: g in result.systemGroups && it in g.items ==> it.fields == []
  {
    var messages, components, systems := CollectItems(files);
    result := ScanResult(GroupItems(messages, basePath), GroupItems(components, basePath), GroupItems(systems, basePath));
    match basePath
    case None =>
      assert result.messageGroups == [] && result.componentGroups == [] && result.systemGroups == [];
    case Some(base) =>
      GroupsHoldKind(files, base, Message);
      GroupsHoldKind(files, base, Component);
      GroupsHoldKind(files, base, System);
  }

  /** A grouped item is a collected item of the list's kind; a system carries no fields. */
  lemma {:induction false} GroupedItemShape(files: seq<SourceFile>, basePath: string, kind: BevyItemType, g: BevyGroup, it: BevyItem)
    requires g in GroupItems(ItemsOfKind(files, kind), Some(basePath)) && it in g.items
    ensures it.kind == kind
    ensures kind == System ==> it.fields == []
  {
    BucketMember(ItemsOfKind(files, kind), KeyIn(basePath), g, it);
    CollectedItemShape(files, kind, it);
  }

  /** Every grouped item is a collected item of the list's kind; systems carry no fields. */
  lemma {:induction false} GroupsHoldKind(files: seq<SourceFile>, basePath: string, kind: BevyItemType)
    ensures forall g, it :: g in GroupItems(ItemsOfKind(files, kind), Some(basePath)) && it in g.items ==> it.kind == kind
    ensures kind == System ==>
      forall g, it :: g in GroupItems(ItemsOfKind(files, kind), Some(basePath)) && it in g.items ==> it.fields == []
  {
    forall g, it | g in GroupItems(ItemsOfKind(files, kind), Some(basePath)) && it in g.items
      ensures it.kind == kind
      ensures kind == System ==> it.fields == []
    {
      GroupedItemShape(files, basePath, kind, g, it);
    }
  }

  /**
   * With a base path, each kind's groups hold every collected item of that
   * kind exactly as often as it was collected, in a group named by its key.
   */
  lemma {:induction false} ScanKeepsEveryItem(files: seq<SourceFile>, basePath: string, kind: BevyItemType)
    ensures multiset(Flatten(GroupItems(ItemsOfKind(files, kind), Some(basePath)))) == multiset(ItemsOfKind(files, kind))
    ensures forall it :: it in ItemsOfKind(files, kind) ==>
      exists g :: g in GroupItems(ItemsOfKind(files, kind), Some(basePath)) && g.groupName == GroupKey(it, basePath) && it in g.items
  {
    GroupItemsPartition(ItemsOfKind(files, kind), basePath);
    GroupItemsMembers(ItemsOfKind(files, kind), basePath);
  }
}
