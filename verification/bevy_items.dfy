/** The records the ECS scanner produces. */
module BevyItems {
  import opened Nullable
  import opened MessageModels

  /** The three mutually exclusive kinds of discovered declaration. */
  datatype BevyItemType = Message | Component | System

  /**
   * One discovered declaration. `filePath` is absent only for items built
   * elsewhere; `lineNumber` and `textOffset` are carried for navigation.
   */
  datatype BevyItem = BevyItem(
    name: string,
    fields: seq<MessageField>,
    kind: BevyItemType,
    filePath: Option<string>,
    lineNumber: Option<int>,
    textOffset: Option<int>)

  /** A named group of items. */
  datatype BevyGroup = BevyGroup(groupName: string, items: seq<BevyItem>)

  /** The grouped items of each kind. */
  datatype ScanResult = ScanResult(
    messageGroups: seq<BevyGroup>,
    componentGroups: seq<BevyGroup>,
    systemGroups: seq<BevyGroup>)

  /** The sort key of items. */
  function ItemName(item: BevyItem): string {
    item.name
  }

  /** The sort key of groups. */
  function GroupName(group: BevyGroup): string {
    group.groupName
  }

  /** The items of all groups, group after group. */
  function Flatten(groups: seq<BevyGroup>): seq<BevyItem> {
    if |groups| == 0 then [] else groups[0].items + Flatten(groups[1..])
  }
}
