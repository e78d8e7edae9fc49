/**
 * The two classifiers of the scan: derive matching on struct attributes
 * (`hasDerivedTrait`) and the parameter-type heuristic for systems
 * (`isSystem`).
 */
module Matchers {
  import opened Nullable
  import opened Strings
  import opened Psi

  /** `mapNotNull { it.name }`: the names the meta items carry, in order. */
  function ArgNames(args: seq<MetaItem>): (names: seq<string>)
    ensures forall t :: t in names <==> exists j :: 0 <= j < |args| && args[j].name == Some(t)
  {
    if |args| == 0 then []
    else (match args[0].name case Some(n) => [n] case None => []) + ArgNames(args[1..])
  }

  /**
   * The trait names an attribute lists when it is `derive(...)`; nothing for
   * any other attribute and nothing for a `derive` without an argument list.
   */
  function DerivedTraits(attr: OuterAttr): seq<string> {
    match attr.metaItem
    case None => []
    case Some(m) =>
      if m.name == Some("derive") then
        match m.args
        case None => []
        case Some(args) => ArgNames(args)
      else []
  }

  /** Argument `j` of `attr` is a `derive` argument named exactly `traitName`. */
  ghost predicate DerivesAt(attr: OuterAttr, traitName: string, j: int) {
    && attr.metaItem.Some?
    && attr.metaItem.value.name == Some("derive")
    && attr.metaItem.value.args.Some?
    && 0 <= j < |attr.metaItem.value.args.value|
    && attr.metaItem.value.args.value[j].name == Some(traitName)
  }

  /** The trait names of a derive are exactly the argument names it carries. */
  lemma DerivedTraitsIff(attr: OuterAttr)
    ensures forall t :: t in DerivedTraits(attr) <==> exists j :: DerivesAt(attr, t, j)
  {
    forall t | t in DerivedTraits(attr)
      ensures exists j :: DerivesAt(attr, t, j)
    {
      var args := attr.metaItem.value.args.value;
      var j :| 0 <= j < |args| && args[j].name == Some(t);
      assert DerivesAt(attr, t, j);
    }
  }

  /** The walk over the attributes, returning at the first derive that lists `traitName`. */
  function AnyDerives(attrs: seq<OuterAttr>, traitName: string): (r: bool)
    ensures r <==> exists i, j :: 0 <= i < |attrs| && DerivesAt(attrs[i], traitName, j)
  {
    if |attrs| == 0 then false
    else
      DerivedTraitsIff(attrs[0]);
      if traitName in DerivedTraits(attrs[0]) then true
      else AnyDerives(attrs[1..], traitName)
  }

  /**
   * `hasDerivedTrait`: some attribute of the struct is `derive(...)` with an
   * argument named exactly `traitName`. A name that merely contains
   * `traitName` does not match.
   */
  function HasDerivedTrait(s: StructItem, traitName: string): (r: bool)
    ensures r <==> exists i, j :: 0 <= i < |s.attrs| && DerivesAt(s.attrs[i], traitName, j)
  {
    AnyDerives(s.attrs, traitName)
  }

  /** Only which attributes are present matters, not their order or repetition. */
  lemma AttributeOrderIrrelevant(s1: StructItem, s2: StructItem, traitName: string)
    requires forall a :: a in s1.attrs <==> a in s2.attrs
    ensures HasDerivedTrait(s1, traitName) == HasDerivedTrait(s2, traitName)
  {
    if HasDerivedTrait(s1, traitName) {
      var i, j :| 0 <= i < |s1.attrs| && DerivesAt(s1.attrs[i], traitName, j);
      assert s1.attrs[i] in s2.attrs;
      var i2 :| 0 <= i2 < |s2.attrs| && s2.attrs[i2] == s1.attrs[i];
      assert DerivesAt(s2.attrs[i2], traitName, j);
    }
    if HasDerivedTrait(s2, traitName) {
      var i, j :| 0 <= i < |s2.attrs| && DerivesAt(s2.attrs[i], traitName, j);
      assert s2.attrs[i] in s1.attrs;
      var i1 :| 0 <= i1 < |s1.attrs| && s1.attrs[i1] == s2.attrs[i];
      assert DerivesAt(s1.attrs[i1], traitName, j);
    }
  }

  /** `#[derive(MessageExtra)]` is not a `Message` derive, and a bare `#[derive]` derives nothing. */
  lemma DeriveMatchIsExact(name: Option<string>, fields: Option<seq<NamedField>>)
    ensures !HasDerivedTrait(StructItem(name, [
              OuterAttr(Some(MetaItem(Some("derive"), Some([MetaItem(Some("MessageExtra"), None)])))),
              OuterAttr(Some(MetaItem(Some("derive"), None)))], fields, None, 0), "Message")
  {
    var a0 := OuterAttr(Some(MetaItem(Some("derive"), Some([MetaItem(Some("MessageExtra"), None)]))));
    var a1 := OuterAttr(Some(MetaItem(Some("derive"), None)));
    assert DerivedTraits(a0) == ArgNames([MetaItem(Some("MessageExtra"), None)]) == ["MessageExtra"];
    assert "Message" != "MessageExtra";
    assert DerivedTraits(a1) == [];
    assert [a0, a1][1..] == [a1];
    assert [a1][1..] == [];
  }

  /** The marker type names that make a parameter look like system input. */
  const SystemMarkers: seq<string> := ["Query", "Commands", "Res", "ResMut", "EventWriter", "EventReader"]

  /** The marker test on one parameter's type text: a substring test per marker. */
  predicate IsSystemType(typeText: string) {
    || Contains(typeText, "Query")
    || Contains(typeText, "Commands")
    || Contains(typeText, "Res")
    || Contains(typeText, "ResMut")
    || Contains(typeText, "EventWriter")
    || Contains(typeText, "EventReader")
  }

  /** `params.any { ... }`, with a missing type read as the empty text. */
  function AnySystemParam(params: seq<ValueParameter>): (r: bool)
    ensures r <==> exists i :: 0 <= i < |params| && IsSystemType(params[i].typeText.OrElse(""))
  {
    if |params| == 0 then false
    else IsSystemType(params[0].typeText.OrElse("")) || AnySystemParam(params[1..])
  }

  /** `isSystem`: false without a value-parameter list, else whether some parameter's type matches. */
  function IsSystem(f: FunctionItem): (r: bool)
    ensures r <==> f.params.Some? && exists i :: 0 <= i < |f.params.value| && IsSystemType(f.params.value[i].typeText.OrElse(""))
  {
    match f.params
    case None => false
    case Some(params) => AnySystemParam(params)
  }

  /** The marker test holds exactly when some marker occurs somewhere in the text. */
  lemma IsSystemTypeIffMarkerOccurs(t: string)
    ensures IsSystemType(t) <==> exists m, k: nat :: m in SystemMarkers && OccursAt(t, m, k)
  {
    ContainsIffOccurs(t, "Query");
    ContainsIffOccurs(t, "Commands");
    ContainsIffOccurs(t, "Res");
    ContainsIffOccurs(t, "ResMut");
    ContainsIffOccurs(t, "EventWriter");
    ContainsIffOccurs(t, "EventReader");
    if exists m, k: nat :: m in SystemMarkers && OccursAt(t, m, k) {
      var m, k: nat :| m in SystemMarkers && OccursAt(t, m, k);
      assert Contains(t, m);
    }
  }

  /** A function is a system exactly when some marker occurs in some parameter's type text. */
  lemma IsSystemIffMarkerInParameter(f: FunctionItem)
    ensures IsSystem(f) <==>
      && f.params.Some?
      && exists i, m, k: nat :: 0 <= i < |f.params.value| && m in SystemMarkers
                                && OccursAt(f.params.value[i].typeText.OrElse(""), m, k)
  {
    if f.params.Some? {
      var ps := f.params.value;
      forall i | 0 <= i < |ps| {
        IsSystemTypeIffMarkerOccurs(ps[i].typeText.OrElse(""));
      }
    }
  }

  /** A parameter without a type never matches: every marker is non-empty. */
  lemma MissingTypeNeverMatches(f: FunctionItem)
    requires f.params.Some?
    requires forall i :: 0 <= i < |f.params.value| ==> f.params.value[i].typeText.None?
    ensures !IsSystem(f)
  {
    IsSystemTypeIffMarkerOccurs("");
  }

  /** `ResMut` adds nothing to the marker set: every text containing it contains `Res`. */
  lemma ResMutImpliesRes(t: string)
    ensures Contains(t, "ResMut") ==> Contains(t, "Res")
  {
    ContainsIffOccurs(t, "ResMut");
    ContainsIffOccurs(t, "Res");
    if Contains(t, "ResMut") {
      var k: nat :| OccursAt(t, "ResMut", k);
      assert t[k..k + 3] == t[k..k + 6][..3];
      assert OccursAt(t, "Res", k);
    }
  }

  /** Substring matching classifies `fn tricky(r: MyResourceHandle)` as a system. */
  lemma ResourceHandleIsSystem(name: Option<string>)
    ensures IsSystem(FunctionItem(name, Some([ValueParameter(Some("MyResourceHandle"))]), None, 0))
  {
    var t := "MyResourceHandle";
    assert t[2..5] == "Res";
    assert OccursAt(t, "Res", 2);
    ContainsIffOccurs(t, "Res");
    assert IsSystemType(t);
    var ps := [ValueParameter(Some(t))];
    assert ps[0].typeText.OrElse("") == t;
  }

  /** `fn move_system(q: Query<&Transform>)` is a system; `fn helper(x: i32)` is not. */
  lemma QueryParameterIsSystem(name: Option<string>)
    ensures IsSystem(FunctionItem(name, Some([ValueParameter(Some("Query<&Transform>"))]), None, 0))
    ensures !IsSystem(FunctionItem(name, Some([ValueParameter(Some("i32"))]), None, 0))
  {
    var q := "Query<&Transform>";
    assert q[..5] == "Query";
    assert IsSystemType(q);
    var ps := [ValueParameter(Some(q))];
    assert ps[0].typeText.OrElse("") == q;

    var t := "i32";
    IsSystemTypeIffMarkerOccurs(t);
    forall m, k: nat | m in SystemMarkers
      ensures !OccursAt(t, m, k)
    {
      if m == "Res" && k == 0 {
        assert t[0] != m[0];
      }
    }
    var qs := [ValueParameter(Some(t))];
    assert qs[0].typeText.OrElse("") == t;
  }
}
