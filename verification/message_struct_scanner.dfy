/**
 * The message panel's scanner: every struct of every parsed file that
 * derives `Message` is reported with its name and its named fields, in file
 * order and, within a file, in declaration order.
 */
module MessageStructScanner {
  import opened Nullable
  import opened Psi
  import opened MessageModels
  import opened Matchers
  import opened BevyItems
  import opened Collector
  import opened Seqs

  /** The walk of `hasMessageDerive`: the first `derive(...)` listing `Message` answers true. */
  function MessageDeriveIn(attrs: seq<OuterAttr>): bool {
    if |attrs| == 0 then false
    else
      match attrs[0].metaItem
      case Some(m) =>
        if m.name == Some("derive") && m.args.Some? && "Message" in ArgNames(m.args.value) then true
        else MessageDeriveIn(attrs[1..])
      case None => MessageDeriveIn(attrs[1..])
  }

  /** `hasMessageDerive`: some attribute is `derive(...)` with an argument named exactly `Message`. */
  function HasMessageDerive(s: StructItem): (r: bool)
    ensures r <==> exists i, j :: 0 <= i < |s.attrs| && DerivesAt(s.attrs[i], "Message", j)
  {
    MessageDeriveAgrees(s.attrs);
    MessageDeriveIn(s.attrs)
  }

  /** The message walk and the general derive test with `Message` give the same answer. */
  lemma {:induction false} MessageDeriveAgrees(attrs: seq<OuterAttr>)
    ensures MessageDeriveIn(attrs) == AnyDerives(attrs, "Message")
  {
    if |attrs| > 0 {
      MessageDeriveAgrees(attrs[1..]);
    }
  }

  /** Both scanners recognise the same structs as messages. */
  lemma HasMessageDeriveAgrees(s: StructItem)
    ensures HasMessageDerive(s) == HasDerivedTrait(s, "Message")
    ensures HasMessageDerive(s) <==> Classify(s) == Some(Message)
  {
  }

  /** The record reported for a message struct. */
  function MessageOf(s: StructItem): MessageStruct {
    MessageStruct(s.name.OrElse("<unnamed>"), ExtractFields(s))
  }

  /** The messages among the structs of one file, in declaration order. */
  function StructMessages(structs: seq<StructItem>): seq<MessageStruct> {
    if |structs| == 0 then []
    else
      var s := structs[|structs| - 1];
      StructMessages(structs[..|structs| - 1]) + (if HasMessageDerive(s) then [MessageOf(s)] else [])
  }

  /** The messages of one file; a file that did not parse has none. */
  function FileMessages(file: SourceFile): seq<MessageStruct> {
    match file.psi
    case None => []
    case Some(ast) => StructMessages(ast.structs)
  }

  /** The messages across the files, in file order. */
  function Messages(files: seq<SourceFile>): seq<MessageStruct> {
    FlatMap(files, FileMessages)
  }

  /** `findMessages`: the loop over files and, in each parsed file, over its structs. */
  method FindMessages(files: seq<SourceFile>) returns (result: seq<MessageStruct>)
    ensures result == Messages(files)
    ensures |result| <= StructCount(files)
  {
    result := [];
    for i := 0 to |files|
      invariant result == Messages(files[..i])
    {
      assert files[..i + 1][..i] == files[..i];
      var file := files[i];
      if file.psi.Some? {
        var structs := file.psi.value.structs;
        for j := 0 to |structs|
          invariant result == Messages(files[..i]) + StructMessages(structs[..j])
        {
          assert structs[..j + 1][..j] == structs[..j];
          var s := structs[j];
          if HasMessageDerive(s) {
            result := result + [MessageOf(s)];
          }
        }
        assert structs[..|structs|] == structs;
      }
    }
    assert files[..|files|] == files;
    MessagesCount(files);
  }

  /** The messages a file's structs yield are its struct-level message items, renamed. */
  lemma {:induction false} StructMessagesAgree(structs: seq<StructItem>, path: string)
    ensures StructMessages(structs) == AsMessages(StructItemsOfKind(structs, path, Message))
  {
    if |structs| > 0 {
      var init := structs[..|structs| - 1];
      var s := structs[|structs| - 1];
      StructMessagesAgree(init, path);
      HasMessageDeriveAgrees(s);
      AsMessagesAppend(StructItemsOfKind(init, path, Message),
        if Classify(s) == Some(Message) then [StructToItem(s, Message, path)] else []);
    }
  }

  /** An item as the message record the message panel shows. */
  function AsMessage(item: BevyItem): MessageStruct {
    MessageStruct(item.name, item.fields)
  }

  /** `AsMessage` on every item, in order. */
  function AsMessages(items: seq<BevyItem>): (ms: seq<MessageStruct>)
    ensures |ms| == |items|
    ensures forall i :: 0 <= i < |items| ==> ms[i] == AsMessage(items[i])
  {
    if |items| == 0 then [] else [AsMessage(items[0])] + AsMessages(items[1..])
  }

  lemma {:induction false} AsMessagesAppend(a: seq<BevyItem>, b: seq<BevyItem>)
    ensures AsMessages(a + b) == AsMessages(a) + AsMessages(b)
  {
  }

  /**
   * The message panel and the ECS scan agree: the messages `findMessages`
   * reports are the collected message items, in the same order, with the
   * same names and fields.
   */
  lemma {:induction false} MessagesAgreeWithScan(files: seq<SourceFile>)
    ensures Messages(files) == AsMessages(ItemsOfKind(files, Message))
  {
    if |files| > 0 {
      var init := files[..|files| - 1];
      var last := files[|files| - 1];
      MessagesAgreeWithScan(init);
      if last.psi.Some? {
        StructMessagesAgree(last.psi.value.structs, last.path);
      }
      AsMessagesAppend(ItemsOfKind(init, Message), FileItems(last, Message));
    }
  }

  /** Each struct is reported at most once. */
  lemma {:induction false} MessagesCount(files: seq<SourceFile>)
    ensures |Messages(files)| <= StructCount(files)
  {
    MessagesAgreeWithScan(files);
    CollectedCounts(files);
  }

  /** Every reported message comes from a struct of a parsed file that derives `Message`. */
  lemma {:induction false} MessageSource(files: seq<SourceFile>, m: MessageStruct) returns (i: int, j: int)
    requires m in Messages(files)
    ensures 0 <= i < |files| && files[i].psi.Some? && 0 <= j < |files[i].psi.value.structs|
    ensures HasMessageDerive(files[i].psi.value.structs[j]) && m == MessageOf(files[i].psi.value.structs[j])
  {
    MessagesAgreeWithScan(files);
    var items := ItemsOfKind(files, Message);
    var k :| 0 <= k < |items| && Messages(files)[k] == m;
    CollectedItemShape(files, Message, items[k]);
    i, j :| 0 <= i < |files| && files[i].psi.Some? && 0 <= j < |files[i].psi.value.structs|
      && HasDerivedTrait(files[i].psi.value.structs[j], "Message")
      && items[k] == StructToItem(files[i].psi.value.structs[j], Message, files[i].path);
    HasMessageDeriveAgrees(files[i].psi.value.structs[j]);
  }

  /** Every struct of a parsed file that derives `Message` is reported. */
  lemma {:induction false} MessageIncluded(files: seq<SourceFile>, i: int, j: int)
    requires 0 <= i < |files| && files[i].psi.Some? && 0 <= j < |files[i].psi.value.structs|
    requires HasMessageDerive(files[i].psi.value.structs[j])
    ensures MessageOf(files[i].psi.value.structs[j]) in Messages(files)
  {
    MessagesAgreeWithScan(files);
    var items := ItemsOfKind(files, Message);
    var s := files[i].psi.value.structs[j];
    HasMessageDeriveAgrees(s);
    StructItemIncluded(files[i].psi.value.structs, files[i].path, Message, j);
    var it := StructToItem(s, Message, files[i].path);
    assert it in FileItems(files[i], Message);
    FileItemIncluded(files, Message, i, it);
    var k :| 0 <= k < |items| && items[k] == it;
    assert Messages(files)[k] == MessageOf(s);
  }

  /** The reported messages are exactly the message structs of the parsed files. */
  lemma {:induction false} MessagesMembers(files: seq<SourceFile>, m: MessageStruct)
    ensures m in Messages(files) <==>
      exists i, j :: 0 <= i < |files| && files[i].psi.Some? && 0 <= j < |files[i].psi.value.structs|
        && HasMessageDerive(files[i].psi.value.structs[j]) && m == MessageOf(files[i].psi.value.structs[j])
  {
    if m in Messages(files) {
      var i, j := MessageSource(files, m);
    }
    if exists i, j :: 0 <= i < |files| && files[i].psi.Some? && 0 <= j < |files[i].psi.value.structs|
        && HasMessageDerive(files[i].psi.value.structs[j]) && m == MessageOf(files[i].psi.value.structs[j]) {
      var i, j :| 0 <= i < |files| && files[i].psi.Some? && 0 <= j < |files[i].psi.value.structs|
        && HasMessageDerive(files[i].psi.value.structs[j]) && m == MessageOf(files[i].psi.value.structs[j]);
      MessageIncluded(files, i, j);
    }
  }

  /** Reports follow file order: scanning more files appends their messages. */
  lemma MessagesAppend(a: seq<SourceFile>, b: seq<SourceFile>)
    ensures Messages(a + b) == Messages(a) + Messages(b)
  {
    FlatMapAppend(a, b, FileMessages);
  }

  /** A struct is reported when it derives `Message` and skipped otherwise; a tuple struct is reported without fields. */
  lemma SingleStructMessages(path: string, s: StructItem)
    ensures HasMessageDerive(s) ==> Messages([SourceFile(path, Some(RsFile([s], [])))]) == [MessageOf(s)]
    ensures !HasMessageDerive(s) ==> Messages([SourceFile(path, Some(RsFile([s], [])))]) == []
    ensures s.blockFields.None? ==> MessageOf(s).fields == []
    ensures s.name.None? ==> MessageOf(s).name == "<unnamed>"
  {
    var files := [SourceFile(path, Some(RsFile([s], [])))];
    assert files[..0] == [];
    assert [s][..0] == [];
    var own := if HasMessageDerive(s) then [MessageOf(s)] else [];
    assert StructMessages([s]) == [] + own;
    assert FileMessages(files[0]) == own;
    assert Messages(files) == FlatMap(files[..0], FileMessages) + FileMessages(files[0]);
  }

  /** A file that did not parse contributes nothing. */
  lemma UnparsedFileAddsNothing(files: seq<SourceFile>, path: string)
    ensures Messages(files + [SourceFile(path, None)]) == Messages(files)
  {
    FlatMapSnoc(files, SourceFile(path, None), FileMessages);
  }
}
