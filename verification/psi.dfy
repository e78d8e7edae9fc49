/**
 * The syntax the scanner reads from a parsed Rust file, reduced to the
 * parts it inspects. Every property the parser may fail to recover is
 * optional, as it is nullable in the plugin's Kotlin code.
 */
module Psi {
  import opened Nullable

  /** A meta item such as `derive(Debug, Message)`: a name and an optional argument list. */
  datatype MetaItem = MetaItem(name: Option<string>, args: Option<seq<MetaItem>>)

  /** An outer attribute `#[...]` on a struct. */
  datatype OuterAttr = OuterAttr(metaItem: Option<MetaItem>)

  /** A named field declaration `name: Type` of a struct with a block body. */
  datatype NamedField = NamedField(name: Option<string>, typeText: Option<string>)

  /**
   * A struct item. `blockFields` is absent for tuple and unit structs;
   * `lineNumber` is the document's line lookup, absent when the file has no
   * document; `textOffset` is the item's offset in the file.
   */
  datatype StructItem = StructItem(
    name: Option<string>,
    attrs: seq<OuterAttr>,
    blockFields: Option<seq<NamedField>>,
    lineNumber: Option<int>,
    textOffset: int)

  /** A value parameter of a function, with its type rendered as source text. */
  datatype ValueParameter = ValueParameter(typeText: Option<string>)

  /** A function item. `params` is absent when there is no value-parameter list. */
  datatype FunctionItem = FunctionItem(
    name: Option<string>,
    params: Option<seq<ValueParameter>>,
    lineNumber: Option<int>,
    textOffset: int)

  /** The struct and function items of one file, in document order. */
  datatype RsFile = RsFile(structs: seq<StructItem>, functions: seq<FunctionItem>)

  /** A project file: its path, and its syntax tree when it parsed as a Rust file. */
  datatype SourceFile = SourceFile(path: string, psi: Option<RsFile>)

  /** The number of struct items in the files that parsed. */
  function StructCount(files: seq<SourceFile>): nat {
    if |files| == 0 then 0
    else
      var last := files[|files| - 1];
      StructCount(files[..|files| - 1]) + (if last.psi.Some? then |last.psi.value.structs| else 0)
  }

  /** The number of function items in the files that parsed. */
  function FunctionCount(files: seq<SourceFile>): nat {
    if |files| == 0 then 0
    else
      var last := files[|files| - 1];
      FunctionCount(files[..|files| - 1]) + (if last.psi.Some? then |last.psi.value.functions| else 0)
  }
}
