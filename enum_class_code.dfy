/** The utility-class generator (`EnumClassCode.Generate`): the static class
    `Enums.<Name>` with the member count, the flags marker, the cached member
    arrays, `TryParse`/`Parse` and `IsDefined`. The generated file is modelled
    by what it contains (lists of members and texts, the parse checks in
    order, the `IsDefined` test) rather than by its layout, and each generated
    operation is given an evaluation function stating what the C# code does. */
module EnumClassCode {
  import opened Wrappers
  import opened Bits
  import Radix
  import opened EnumModel
  import EnumFormatCode

  /** One `if (format.HasFlag(<Format>.<Tier>)) { ... }` block of the
      generated `TryParse`: its checks `if (value.Equals("<text>", comparison))
      { result = <member>; return true; }` in order. */
  datatype Block = Block(tier: Tier, checks: seq<Entry>)

  /** The body of the generated `IsDefined(input)`: `false`, `0 == input`, or
      `(0b<binary> & input) == input`. */
  datatype IsDefinedExpr = AlwaysFalse | ZeroTest | MaskTest(binary: string)

  datatype ClassArtifact = ClassArtifact(
    namespace: Option<string>,
    outerClass: string,
    className: string,
    visibility: Visibility,
    enumRef: string,
    underlyingType: string,
    formatType: string,
    memberCount: nat,
    isFlagEnum: bool,
    names: seq<string>,            // GetMemberNames()
    values: seq<nat>,              // GetMemberValues(): member i is written `<Enum>.<name of i>`
    underlyingValues: seq<int>,    // GetUnderlyingValues()
    tryParseString: seq<Block>,    // TryParse(string, ...)
    tryParseSpan: seq<Block>,      // TryParse(ReadOnlySpan<char>, ...)
    isDefined: IsDefinedExpr,
    displayNames: Option<seq<Entry>>,
    descriptions: Option<seq<Entry>>)

  /** The message of the exception `Convert.ChangeType` throws for a value
      that does not fit `ulong`. */
  const OverflowMessage: string := "Value was either too large or too small for a UInt64."

  // ---------------------------------------------------------------------
  // Specification functions: what the generator's loops produce.

  /** The tier blocks of the generated `TryParse`, in their fixed order; the
      display-name and description blocks only when the spec has them. */
  function ParseBlocks(es: EnumSpec): seq<Block> {
    var ms := es.members;
    [Block(NameTier, Entries(ms, NameTier, |ms|)), Block(ValueTier, Entries(ms, ValueTier, |ms|))]
    + (if es.hasDisplay then [Block(DisplayNameTier, Entries(ms, DisplayNameTier, |ms|))] else [])
    + (if es.hasDescription then [Block(DescriptionTier, Entries(ms, DescriptionTier, |ms|))] else [])
  }

  /** The checked conversion `Convert.ChangeType(v, typeof(ulong))`. */
  function ToUInt64(v: int): Option<nat> {
    if 0 <= v < Pow2(64) then Some(v) else None
  }

  predicate AllConvert(ms: seq<Member>) {
    forall i :: 0 <= i < |ms| ==> ToUInt64(ms[i].value).Some?
  }

  function Values(ms: seq<Member>): seq<nat>
    requires AllConvert(ms)
  {
    seq(|ms|, i requires 0 <= i < |ms| => ms[i].value as nat)
  }

  /** The OR of all member values: the mask `GetIsDefined` accumulates. */
  function Mask(ms: seq<Member>): nat
    requires AllConvert(ms)
  {
    OrAll(Values(ms))
  }

  /** What `GetIsDefined` returns, or the exception it throws. */
  function IsDefinedOf(ms: seq<Member>): (r: Result<IsDefinedExpr>)
    ensures r.Err? <==> exists i :: 0 <= i < |ms| && ToUInt64(ms[i].value).None?
    ensures r == Ok(AlwaysFalse) <==> |ms| == 0
  {
    if |ms| == 0 then Ok(AlwaysFalse)
    else if !AllConvert(ms) then Err(OverflowMessage)
    else if Mask(ms) == 0 then Ok(ZeroTest)
    else Ok(MaskTest(Radix.ToText(Mask(ms), 2)))
  }

  /** The format type's name as written in the generated signatures. */
  function FormatTypeName(ns: Option<string>, className: string): string {
    (if ns.Some? then ns.value + "." else "") + className + "Format"
  }

  // ---------------------------------------------------------------------
  // The generator.

  method GetMemberNames(ms: seq<Member>) returns (names: seq<string>)
    ensures |names| == |ms|
    ensures forall i :: 0 <= i < |ms| ==> names[i] == ms[i].name
  {
    names := [];
    for i := 0 to |ms|
      invariant |names| == i
      invariant forall j :: 0 <= j < i ==> names[j] == ms[j].name
    {
      names := names + [ms[i].name];
    }
  }

  method GetMemberValues(ms: seq<Member>) returns (refs: seq<nat>)
    ensures |refs| == |ms|
    ensures forall i :: 0 <= i < |ms| ==> refs[i] == i
  {
    refs := [];
    for i := 0 to |ms|
      invariant |refs| == i
      invariant forall j :: 0 <= j < i ==> refs[j] == j
    {
      refs := refs + [i];
    }
  }

  method GetUnderlyingValues(ms: seq<Member>) returns (values: seq<int>)
    ensures |values| == |ms|
    ensures forall i :: 0 <= i < |ms| ==> values[i] == ms[i].value
  {
    values := [];
    for i := 0 to |ms|
      invariant |values| == i
      invariant forall j :: 0 <= j < i ==> values[j] == ms[j].value
    {
      values := values + [ms[i].value];
    }
  }

  method GetTryParseSwitch(es: EnumSpec) returns (blocks: seq<Block>)
    ensures blocks == ParseBlocks(es)
  {
    var ms := es.members;
    var checks: seq<Entry> := [];
    for i := 0 to |ms|
      invariant checks == Entries(ms, NameTier, i)
    {
      checks := checks + [Entry(i, ms[i].name)];
    }
    blocks := [Block(NameTier, checks)];
    checks := [];
    for i := 0 to |ms|
      invariant checks == Entries(ms, ValueTier, i)
    {
      checks := checks + [Entry(i, Radix.IntText(ms[i].value))];
    }
    blocks := blocks + [Block(ValueTier, checks)];
    if es.hasDisplay {
      checks := [];
      for i := 0 to |ms|
        invariant checks == Entries(ms, DisplayNameTier, i)
      {
        if ms[i].displayName.Some? {
          checks := checks + [Entry(i, ms[i].displayName.value)];
        }
      }
      blocks := blocks + [Block(DisplayNameTier, checks)];
    }
    if es.hasDescription {
      checks := [];
      for i := 0 to |ms|
        invariant checks == Entries(ms, DescriptionTier, i)
      {
        if ms[i].description.Some? {
          checks := checks + [Entry(i, ms[i].description.value)];
        }
      }
      blocks := blocks + [Block(DescriptionTier, checks)];
    }
  }

  method GetDisplayNames(ms: seq<Member>) returns (pairs: seq<Entry>)
    ensures pairs == Entries(ms, DisplayNameTier, |ms|)
  {
    pairs := [];
    for i := 0 to |ms|
      invariant pairs == Entries(ms, DisplayNameTier, i)
    {
      if ms[i].displayName.None? {
        continue;
      }
      pairs := pairs + [Entry(i, ms[i].displayName.value)];
    }
  }

  method GetDescriptions(ms: seq<Member>) returns (pairs: seq<Entry>)
    ensures pairs == Entries(ms, DescriptionTier, |ms|)
  {
    pairs := [];
    for i := 0 to |ms|
      invariant pairs == Entries(ms, DescriptionTier, i)
    {
      if ms[i].description.None? {
        continue;
      }
      pairs := pairs + [Entry(i, ms[i].description.value)];
    }
  }

  method GetIsDefined(ms: seq<Member>) returns (r: Result<IsDefinedExpr>)
    ensures r == IsDefinedOf(ms)
  {
    if |ms| == 0 {
      return Ok(AlwaysFalse);
    }
    var value: nat := 0;
    for i := 0 to |ms|
      invariant AllConvert(ms[..i])
      invariant value == OrAll(Values(ms[..i]))
    {
      var converted := ToUInt64(ms[i].value);
      if converted.None? {
        return Err(OverflowMessage);
      }
      assert Values(ms[..i + 1]) == Values(ms[..i]) + [converted.value];
      value := Or(value, converted.value);
    }
    assert ms[..|ms|] == ms;
    if value == 0 {
      return Ok(ZeroTest);
    }
    return Ok(MaskTest(Radix.ToText(value, 2)));
  }

  /** What the class source written for `es` holds, field by field; it fixes
      every field of the artifact. */
  predicate Describes(es: EnumSpec, a: ClassArtifact) {
    var ms := es.members;
    && a.namespace == (if es.options.enumsClassNamespace.Some? then es.options.enumsClassNamespace
                       else es.namespace)
    && a.className == es.options.enumNameOverride.GetOr(es.name)
    && a.outerClass == es.options.enumsClassName.GetOr("Enums")
    && a.enumRef == es.fullyQualifiedName
    && a.visibility == VisibilityOf(es)
    && a.underlyingType == es.underlyingType
    && a.formatType == FormatTypeName(a.namespace, a.className)
    && a.memberCount == |ms|
    && a.isFlagEnum == es.hasFlags
    && |a.names| == |ms| && |a.values| == |ms| && |a.underlyingValues| == |ms|
    && (forall i :: 0 <= i < |ms| ==>
          a.names[i] == ms[i].name && a.values[i] == i && a.underlyingValues[i] == ms[i].value)
    && a.tryParseString == ParseBlocks(es)
    && a.tryParseSpan == a.tryParseString
    && Ok(a.isDefined) == IsDefinedOf(ms)
    && a.displayNames == (if es.hasDisplay then Some(Entries(ms, DisplayNameTier, |ms|)) else None)
    && a.descriptions == (if es.hasDescription then Some(Entries(ms, DescriptionTier, |ms|)) else None)
  }

  /** At most one artifact fits a spec. */
  lemma DescribesUnique(es: EnumSpec, a: ClassArtifact, b: ClassArtifact)
    requires Describes(es, a) && Describes(es, b)
    ensures a == b
  {
    assert a.names == b.names;
    assert a.values == b.values;
    assert a.underlyingValues == b.underlyingValues;
  }

  method Generate(es: EnumSpec) returns (r: Result<ClassArtifact>)
    ensures r.Err? <==> IsDefinedOf(es.members).Err?
    ensures r.Err? ==> r.message == OverflowMessage
    ensures r.Ok? ==> Describes(es, r.value)
  {
    var ns := if es.options.enumsClassNamespace.Some? then es.options.enumsClassNamespace else es.namespace;
    var cn := es.options.enumNameOverride.GetOr(es.name);
    var en := es.options.enumsClassName.GetOr("Enums");
    var ef := FormatTypeName(ns, cn);
    var names := GetMemberNames(es.members);
    var values := GetMemberValues(es.members);
    var underlying := GetUnderlyingValues(es.members);
    var parseString := GetTryParseSwitch(es);
    var parseSpan := GetTryParseSwitch(es);
    var isDefined := GetIsDefined(es.members);
    if isDefined.Err? {
      return Err(isDefined.message);
    }
    var displayNames: Option<seq<Entry>> := None;
    if es.hasDisplay {
      var pairs := GetDisplayNames(es.members);
      displayNames := Some(pairs);
    }
    var descriptions: Option<seq<Entry>> := None;
    if es.hasDescription {
      var pairs := GetDescriptions(es.members);
      descriptions := Some(pairs);
    }
    r := Ok(ClassArtifact(ns, en, cn, VisibilityOf(es), es.fullyQualifiedName, es.underlyingType, ef,
                          |es.members|, es.hasFlags, names, values, underlying,
                          parseString, parseSpan, isDefined.value, displayNames, descriptions));
  }
}
