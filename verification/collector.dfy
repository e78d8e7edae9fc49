/**
 * Item collection: every struct of every parsed file is classified by its
 * derives, `Message` before `Component`; every function that passes the
 * system heuristic becomes a system.
 */
module Collector {
  import opened Nullable
  import opened Psi
  import opened MessageModels
  import opened Matchers
  import opened BevyItems

  /** One field declaration as a reported field, with placeholders for what is missing. */
  function ToField(decl: NamedField): MessageField {
    MessageField(decl.name.OrElse("<unknown>"), decl.typeText.OrElse("unknown"))
  }

  /** `namedFieldDeclList.map { ... }`. */
  function FieldsOf(decls: seq<NamedField>): (fields: seq<MessageField>)
    ensures |fields| == |decls|
    ensures forall i :: 0 <= i < |decls| ==>
      && (decls[i].name.Some? ==> fields[i].name == decls[i].name.value)
      && (decls[i].name.None? ==> fields[i].name == "<unknown>")
      && (decls[i].typeText.Some? ==> fields[i].typeText == decls[i].typeText.value)
      && (decls[i].typeText.None? ==> fields[i].typeText == "unknown")
  {
    if |decls| == 0 then [] else [ToField(decls[0])] + FieldsOf(decls[1..])
  }

  /**
   * The fields of a struct in declaration order; a tuple or unit struct
   * (no block fields) has none.
   */
  function ExtractFields(s: StructItem): (fields: seq<MessageField>)
    ensures s.blockFields.None? ==> fields == []
    ensures s.blockFields.Some? ==> |fields| == |s.blockFields.value|
    ensures s.blockFields.Some? ==> forall i :: 0 <= i < |fields| ==> fields[i] == ToField(s.blockFields.value[i])
  {
    match s.blockFields
    case None => []
    case Some(decls) => FieldsOf(decls)
  }

  /** The kind of a struct: `Message` is checked first, so it wins over `Component`. */
  function Classify(s: StructItem): Option<BevyItemType> {
    if HasDerivedTrait(s, "Message") then Some(Message)
    else if HasDerivedTrait(s, "Component") then Some(Component)
    else None
  }

  /**
   * A struct is never a system; it is a message exactly when it derives
   * `Message`, a component exactly when it derives `Component` but not
   * `Message`, and unclassified when it derives neither.
   */
  lemma ClassifyKinds(s: StructItem)
    ensures Classify(s) != Some(System)
    ensures Classify(s) == Some(Message) <==> HasDerivedTrait(s, "Message")
    ensures Classify(s) == Some(Component) <==> HasDerivedTrait(s, "Component") && !HasDerivedTrait(s, "Message")
    ensures Classify(s) == None <==> !HasDerivedTrait(s, "Message") && !HasDerivedTrait(s, "Component")
  {
  }

  /** The item recorded for a classified struct. */
  function StructToItem(s: StructItem, kind: BevyItemType, path: string): BevyItem {
    BevyItem(s.name.OrElse("<unnamed>"), ExtractFields(s), kind, Some(path), s.lineNumber, Some(s.textOffset))
  }

  /** The item recorded for a system. */
  function FunctionToItem(f: FunctionItem, path: string): BevyItem {
    BevyItem(f.name.OrElse("<unnamed>"), [], System, Some(path), f.lineNumber, Some(f.textOffset))
  }

  /** A missing struct or function name is reported as `<unnamed>`; a present one as it is. */
  lemma PlaceholderNames(s: StructItem, f: FunctionItem, kind: BevyItemType, path: string)
    ensures StructToItem(s, kind, path).name == (if s.name.Some? then s.name.value else "<unnamed>")
    ensures FunctionToItem(f, path).name == (if f.name.Some? then f.name.value else "<unnamed>")
    ensures FunctionToItem(f, path).fields == [] && FunctionToItem(f, path).kind == System
    ensures StructToItem(s, kind, path).filePath == Some(path) && FunctionToItem(f, path).filePath == Some(path)
  {
  }

  /** The items of kind `kind` the structs of one file yield, in declaration order. */
  function StructItemsOfKind(structs: seq<StructItem>, path: string, kind: BevyItemType): seq<BevyItem> {
    if |structs| == 0 then []
    else
      var s := structs[|structs| - 1];
      StructItemsOfKind(structs[..|structs| - 1], path, kind)
        + (if Classify(s) == Some(kind) then [StructToItem(s, kind, path)] else [])
  }

  /** The systems among the functions of one file, in declaration order. */
  function SystemItems(functions: seq<FunctionItem>, path: string): seq<BevyItem> {
    if |functions| == 0 then []
    else
      var f := functions[|functions| - 1];
      SystemItems(functions[..|functions| - 1], path)
        + (if IsSystem(f) then [FunctionToItem(f, path)] else [])
  }

  /** The items of kind `kind` one file yields; a file that did not parse yields none. */
  function FileItems(file: SourceFile, kind: BevyItemType): seq<BevyItem> {
    match file.psi
    case None => []
    case Some(ast) =>
      if kind == System then SystemItems(ast.functions, file.path)
      else StructItemsOfKind(ast.structs, file.path, kind)
  }

  /** The items of kind `kind` across the files, in file order. */
  function ItemsOfKind(files: seq<SourceFile>, kind: BevyItemType): seq<BevyItem> {
    if |files| == 0 then []
    else ItemsOfKind(files[..|files| - 1], kind) + FileItems(files[|files| - 1], kind)
  }

  /** The struct loop of one file: messages and components in declaration order. */
  method ScanStructs(structs: seq<StructItem>, path: string) returns (messages: seq<BevyItem>, components: seq<BevyItem>)
    ensures messages == StructItemsOfKind(structs, path, Message)
    ensures components == StructItemsOfKind(structs, path, Component)
  {
    messages, components := [], [];
    for j := 0 to |structs|
      invariant messages == StructItemsOfKind(structs[..j], path, Message)
      invariant components == StructItemsOfKind(structs[..j], path, Component)
    {
      assert structs[..j + 1][..j] == structs[..j];
      var s := structs[j];
      var itemType := Classify(s);
      if itemType == Some(Message) {
        messages := messages + [StructToItem(s, Message, path)];
      } else if itemType == Some(Component) {
        components := components + [StructToItem(s, Component, path)];
      }
    }
    assert structs[..|structs|] == structs;
  }

  /** The function loop of one file: the systems in declaration order. */
  method ScanFunctions(functions: seq<FunctionItem>, path: string) returns (systems: seq<BevyItem>)
    ensures systems == SystemItems(functions, path)
  {
    systems := [];
    for j := 0 to |functions|
      invariant systems == SystemItems(functions[..j], path)
    {
      assert functions[..j + 1][..j] == functions[..j];
      var f := functions[j];
      if IsSystem(f) {
        systems := systems + [FunctionToItem(f, path)];
      }
    }
    assert functions[..|functions|] == functions;
  }

  /** The scanning loop of `findBevyItems`, before grouping. */
  method CollectItems(files: seq<SourceFile>)
    returns (messages: seq<BevyItem>, components: seq<BevyItem>, systems: seq<BevyItem>)
    ensures messages == ItemsOfKind(files, Message)
    ensures components == ItemsOfKind(files, Component)
    ensures systems == ItemsOfKind(files, System)
  {
    messages, components, systems := [], [], [];
    for i := 0 to |files|
      invariant messages == ItemsOfKind(files[..i], Message)
      invariant components == ItemsOfKind(files[..i], Component)
      invariant systems == ItemsOfKind(files[..i], System)
    {
      assert files[..i + 1][..i] == files[..i];
      var file := files[i];
      if file.psi.Some? {
        var ms, cs := ScanStructs(file.psi.value.structs, file.path);
        var ss := ScanFunctions(file.psi.value.functions, file.path);
        messages, components, systems := messages + ms, components + cs, systems + ss;
      }
    }
    assert files[..|files|] == files;
  }

  /** An item a file's structs yield comes from one of its structs classified as `kind`. */
  lemma {:induction false} StructItemSource(structs: seq<StructItem>, path: string, kind: BevyItemType, it: BevyItem)
      returns (j: int)
    requires it in StructItemsOfKind(structs, path, kind)
    ensures 0 <= j < |structs| && Classify(structs[j]) == Some(kind) && it == StructToItem(structs[j], kind, path)
  {
    var init := structs[..|structs| - 1];
    var s := structs[|structs| - 1];
    if it in StructItemsOfKind(init, path, kind) {
      j := StructItemSource(init, path, kind, it);
      assert structs[j] == init[j];
    } else {
      j := |structs| - 1;
    }
  }

  /** Each struct classified as `kind` yields its item. */
  lemma {:induction false} StructItemIncluded(structs: seq<StructItem>, path: string, kind: BevyItemType, j: int)
    requires 0 <= j < |structs| && Classify(structs[j]) == Some(kind)
    ensures StructToItem(structs[j], kind, path) in StructItemsOfKind(structs, path, kind)
  {
    var init := structs[..|structs| - 1];
    if j < |structs| - 1 {
      assert structs[j] == init[j];
      StructItemIncluded(init, path, kind, j);
    }
  }

  /** The items one file's structs yield are exactly its structs classified as `kind`. */
  lemma {:induction false} StructItemsMembers(structs: seq<StructItem>, path: string, kind: BevyItemType)
    ensures forall it :: it in StructItemsOfKind(structs, path, kind) <==>
      exists j :: 0 <= j < |structs| && Classify(structs[j]) == Some(kind) && it == StructToItem(structs[j], kind, path)
  {
    forall it | it in StructItemsOfKind(structs, path, kind)
      ensures exists j :: 0 <= j < |structs| && Classify(structs[j]) == Some(kind) && it == StructToItem(structs[j], kind, path)
    {
      var j := StructItemSource(structs, path, kind, it);
    }
    forall j | 0 <= j < |structs| && Classify(structs[j]) == Some(kind)
      ensures StructToItem(structs[j], kind, path) in StructItemsOfKind(structs, path, kind)
    {
      StructItemIncluded(structs, path, kind, j);
    }
  }

  /** The systems of one file are exactly its functions that pass the heuristic. */
  lemma {:induction false} SystemItemsMembers(functions: seq<FunctionItem>, path: string)
    ensures forall it :: it in SystemItems(functions, path) <==>
      exists j :: 0 <= j < |functions| && IsSystem(functions[j]) && it == FunctionToItem(functions[j], path)
  {
    if |functions| > 0 {
      var init := functions[..|functions| - 1];
      SystemItemsMembers(init, path);
      forall j | 0 <= j < |init| ensures init[j] == functions[j] {}
    }
  }

  /** A collected item comes from one of the files. */
  lemma {:induction false} ItemFileSource(files: seq<SourceFile>, kind: BevyItemType, it: BevyItem) returns (i: int)
    requires it in ItemsOfKind(files, kind)
    ensures 0 <= i < |files| && it in FileItems(files[i], kind)
  {
    var init := files[..|files| - 1];
    if it in ItemsOfKind(init, kind) {
      i := ItemFileSource(init, kind, it);
      assert files[i] == init[i];
    } else {
      i := |files| - 1;
    }
  }

  /** What a file yields is collected. */
  lemma {:induction false} FileItemIncluded(files: seq<SourceFile>, kind: BevyItemType, i: int, it: BevyItem)
    requires 0 <= i < |files| && it in FileItems(files[i], kind)
    ensures it in ItemsOfKind(files, kind)
  {
    var init := files[..|files| - 1];
    if i < |files| - 1 {
      assert files[i] == init[i];
      FileItemIncluded(init, kind, i, it);
    }
  }

  /** The collected items are those of the individual files. */
  lemma {:induction false} ItemsOfKindMembers(files: seq<SourceFile>, kind: BevyItemType)
    ensures forall it :: it in ItemsOfKind(files, kind) <==>
      exists i :: 0 <= i < |files| && it in FileItems(files[i], kind)
  {
    forall it | it in ItemsOfKind(files, kind)
      ensures exists i :: 0 <= i < |files| && it in FileItems(files[i], kind)
    {
      var i := ItemFileSource(files, kind, it);
    }
    forall it, i | 0 <= i < |files| && it in FileItems(files[i], kind)
      ensures it in ItemsOfKind(files, kind)
    {
      FileItemIncluded(files, kind, i, it);
    }
  }

  /**
   * Every collected item carries the kind of the list it is in and the path
   * of its file; systems carry no fields; an item in the message list comes
   * from a struct deriving `Message`, one in the component list from a struct
   * deriving `Component` but not `Message`.
   */
  lemma CollectedItemShape(files: seq<SourceFile>, kind: BevyItemType, it: BevyItem)
    requires it in ItemsOfKind(files, kind)
    ensures it.kind == kind
    ensures exists i :: 0 <= i < |files| && files[i].psi.Some? && it.filePath == Some(files[i].path)
    ensures kind == System ==> it.fields == []
    ensures kind == Message ==>
      (exists i, j :: 0 <= i < |files| && files[i].psi.Some? && 0 <= j < |files[i].psi.value.structs|
         && HasDerivedTrait(files[i].psi.value.structs[j], "Message")
         && it == StructToItem(files[i].psi.value.structs[j], Message, files[i].path))
    ensures kind == Component ==>
      (exists i, j :: 0 <= i < |files| && files[i].psi.Some? && 0 <= j < |files[i].psi.value.structs|
         && !HasDerivedTrait(files[i].psi.value.structs[j], "Message")
         && HasDerivedTrait(files[i].psi.value.structs[j], "Component")
         && it == StructToItem(files[i].psi.value.structs[j], Component, files[i].path))
  {
    var i := ItemFileSource(files, kind, it);
    var ast := files[i].psi.value;
    if kind == System {
      SystemItemsMembers(ast.functions, files[i].path);
    } else {
      StructItemsMembers(ast.structs, files[i].path, kind);
    }
  }

  /** No item is collected under two kinds. */
  lemma KindsAreExclusive(files: seq<SourceFile>, k1: BevyItemType, k2: BevyItemType, it: BevyItem)
    requires k1 != k2
    ensures !(it in ItemsOfKind(files, k1) && it in ItemsOfKind(files, k2))
  {
    if it in ItemsOfKind(files, k1) && it in ItemsOfKind(files, k2) {
      CollectedItemShape(files, k1, it);
      CollectedItemShape(files, k2, it);
    }
  }

  /** A struct deriving both traits is collected as a message only. */
  lemma MessageWinsTieBreak(s: StructItem, path: string)
    requires HasDerivedTrait(s, "Message") && HasDerivedTrait(s, "Component")
    ensures StructItemsOfKind([s], path, Message) == [StructToItem(s, Message, path)]
    ensures StructItemsOfKind([s], path, Component) == []
  {
    assert [s][..0] == [];
  }

  /** Each struct is collected at most once: messages and components together never outnumber the structs. */
  lemma {:induction false} StructItemsCount(structs: seq<StructItem>, path: string)
    ensures |StructItemsOfKind(structs, path, Message)| + |StructItemsOfKind(structs, path, Component)| <= |structs|
    ensures StructItemsOfKind(structs, path, System) == []
  {
    if |structs| > 0 {
      StructItemsCount(structs[..|structs| - 1], path);
    }
  }

  lemma {:induction false} SystemItemsCount(functions: seq<FunctionItem>, path: string)
    ensures |SystemItems(functions, path)| <= |functions|
  {
    if |functions| > 0 {
      SystemItemsCount(functions[..|functions| - 1], path);
    }
  }

  /** The collected structs never outnumber the structs, nor the systems the functions. */
  lemma {:induction false} CollectedCounts(files: seq<SourceFile>)
    ensures |ItemsOfKind(files, Message)| + |ItemsOfKind(files, Component)| <= StructCount(files)
    ensures |ItemsOfKind(files, System)| <= FunctionCount(files)
  {
    if |files| > 0 {
      var last := files[|files| - 1];
      CollectedCounts(files[..|files| - 1]);
      if last.psi.Some? {
        StructItemsCount(last.psi.value.structs, last.path);
        SystemItemsCount(last.psi.value.functions, last.path);
      }
    }
  }

  /** `#[derive(Message)] struct Chat { id: u32, text: String }` yields one message with both fields in order. */
  lemma DeriveMessageExample(path: string)
    ensures
      var derive := OuterAttr(Some(MetaItem(Some("derive"), Some([MetaItem(Some("Message"), None)]))));
      var s := StructItem(Some("Chat"), [derive],
                 Some([NamedField(Some("id"), Some("u32")), NamedField(Some("text"), Some("String"))]), None, 7);
      ItemsOfKind([SourceFile(path, Some(RsFile([s], [])))], Message)
        == [BevyItem("Chat", [MessageField("id", "u32"), MessageField("text", "String")], Message, Some(path), None, Some(7))]
  {
    var derive := OuterAttr(Some(MetaItem(Some("derive"), Some([MetaItem(Some("Message"), None)]))));
    var s := StructItem(Some("Chat"), [derive],
               Some([NamedField(Some("id"), Some("u32")), NamedField(Some("text"), Some("String"))]), None, 7);
    var files := [SourceFile(path, Some(RsFile([s], [])))];
    assert DerivesAt(derive, "Message", 0);
    assert HasDerivedTrait(s, "Message");
    assert [s][..0] == [];
    assert files[..0] == [];
    var fields := ExtractFields(s);
    assert fields == [MessageField("id", "u32"), MessageField("text", "String")];
    assert StructToItem(s, Message, path)
      == BevyItem("Chat", [MessageField("id", "u32"), MessageField("text", "String")], Message, Some(path), None, Some(7));
    assert StructItemsOfKind([s], path, Message) == [StructToItem(s, Message, path)];
    assert FileItems(files[0], Message) == [StructToItem(s, Message, path)];
  }
}
