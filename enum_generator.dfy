/** The incremental generator: `Transform` turns the compiler's view of an
    enum declaration into an `EnumSpec`, and the source-output step runs the
    three code generators on it and registers their sources (or reports a
    diagnostic). The compiler's symbols are modelled as plain values. */
module EnumGenerator {
  import opened Wrappers
  import opened EnumModel
  import EnumFormatCode
  import EnumClassCode
  import ExtensionCode
  import EnumClassSemantics
  import CSharpLiteral

  const DisplayAttribute: string := "System.ComponentModel.DataAnnotations.DisplayAttribute"
  const FlagsAttribute: string := "System.FlagsAttribute"
  const EnumSourceGenAttr: string := "Genbox.EnumSourceGen.EnumSourceGenAttribute"

  /** The named arguments of a `[Display]` attribute. */
  datatype DisplayData = DisplayData(name: Option<string>, description: Option<string>)

  /** One applied attribute: the display string of its class (`None` when
      the class did not resolve) and its named arguments, as read both as
      generation options and as display data. */
  datatype AttributeData = AttributeData(
    attributeClass: Option<string>,
    options: Options,
    display: DisplayData)

  /** A member of the enum type: only fields with a constant value become
      enum members. */
  datatype SymbolMember = SymbolMember(
    name: string,
    isField: bool,
    constantValue: Option<int>,
    attributes: seq<AttributeData>)

  /** The kinds of display part the name split looks at; every other kind
      (keywords, spaces, ...) is `OtherPart`. */
  datatype PartKind =
    | NamespaceName | ClassName | EnumName | StructName | InterfaceName
    | RecordClassName | RecordStructName | Punctuation | OtherPart

  /** Which part kinds end the namespace: `AsWritten`, only class and enum
      names (the `switch` at EnumGenerator.cs); `AllTypeNames`, every kind of
      type name, which is what an enum nested in a struct, interface or
      record needs. */
  datatype Reading = AsWritten | AllTypeNames

  predicate EndsNamespace(k: PartKind, rd: Reading) {
    match k
    case ClassName => true
    case EnumName => true
    case StructName | InterfaceName | RecordClassName | RecordStructName => rd == AllTypeNames
    case _ => false
  }

  /** One piece of the symbol's fully qualified display string. */
  datatype DisplayPart = DisplayPart(kind: PartKind, text: string)

  /** The target symbol of the attribute: a named type, or anything else. */
  datatype Symbol =
    | NamedType(
        name: string,
        attributes: seq<AttributeData>,
        members: seq<SymbolMember>,
        underlyingType: Option<string>,
        isPublic: bool,
        parts: seq<DisplayPart>)
    | OtherSymbol

  // ---------------------------------------------------------------------
  // Attributes

  /** The index of the last attribute of class `cls`: later attributes of
      the same class overwrite earlier ones in the scanning loops. */
  function LastIndexOf(attrs: seq<AttributeData>, cls: string): (r: Option<nat>)
    ensures r.Some? ==>
      && r.value < |attrs|
      && attrs[r.value].attributeClass == Some(cls)
      && forall j :: r.value < j < |attrs| ==> attrs[j].attributeClass != Some(cls)
    ensures r.None? <==> forall j :: 0 <= j < |attrs| ==> attrs[j].attributeClass != Some(cls)
  {
    if attrs == [] then None
    else if attrs[|attrs| - 1].attributeClass == Some(cls) then Some(|attrs| - 1)
    else
      var r := LastIndexOf(attrs[..|attrs| - 1], cls);
      assert forall j :: 0 <= j < |attrs| - 1 ==> attrs[..|attrs| - 1][j] == attrs[j];
      r
  }

  /** The options of the last `[EnumSourceGen]` attribute, if any. */
  function SourceGenOptions(attrs: seq<AttributeData>): Option<Options> {
    match LastIndexOf(attrs, EnumSourceGenAttr)
    case Some(i) => Some(attrs[i].options)
    case None => None
  }

  /** The display data of the last `[Display]` attribute of a field, if any. */
  function FieldDisplay(attrs: seq<AttributeData>): Option<DisplayData> {
    match LastIndexOf(attrs, DisplayAttribute)
    case Some(i) => Some(attrs[i].display)
    case None => None
  }

  /** The scan over the enum type's own attributes. */
  method ScanTypeAttributes(attrs: seq<AttributeData>) returns (hasFlags: bool, data: Option<Options>)
    ensures hasFlags <==> exists j :: 0 <= j < |attrs| && attrs[j].attributeClass == Some(FlagsAttribute)
    ensures data.Some? <==> exists j :: 0 <= j < |attrs| && attrs[j].attributeClass == Some(EnumSourceGenAttr)
    ensures data == SourceGenOptions(attrs)
  {
    hasFlags := false;
    data := None;
    var i := 0;
    while i < |attrs|
      invariant 0 <= i <= |attrs|
      invariant hasFlags <==> exists j :: 0 <= j < i && attrs[j].attributeClass == Some(FlagsAttribute)
      invariant data == SourceGenOptions(attrs[..i])
    {
      assert attrs[..i + 1][..i] == attrs[..i];
      var ad := attrs[i];
      if ad.attributeClass.Some? {
        var name := ad.attributeClass.value;
        if name == EnumSourceGenAttr {
          data := Some(ad.options);
        } else if name == FlagsAttribute {
          hasFlags := true;
        }
      }
      i := i + 1;
    }
    assert attrs[..i] == attrs;
  }

  /** The scan over one field's attributes. `hasName` and `hasDescription`
      are shared by all fields: every `[Display]` attribute overwrites both. */
  method ScanFieldAttributes(attrs: seq<AttributeData>, hasName0: bool, hasDescription0: bool)
    returns (display: Option<DisplayData>, hasName: bool, hasDescription: bool)
    ensures display.Some? <==> exists j :: 0 <= j < |attrs| && attrs[j].attributeClass == Some(DisplayAttribute)
    ensures display == FieldDisplay(attrs)
    ensures display.Some? ==> hasName == display.value.name.Some? && hasDescription == display.value.description.Some?
    ensures display.None? ==> hasName == hasName0 && hasDescription == hasDescription0
  {
    display := None;
    hasName, hasDescription := hasName0, hasDescription0;
    var i := 0;
    while i < |attrs|
      invariant 0 <= i <= |attrs|
      invariant display == FieldDisplay(attrs[..i])
      invariant display.Some? ==> hasName == display.value.name.Some? && hasDescription == display.value.description.Some?
      invariant display.None? ==> hasName == hasName0 && hasDescription == hasDescription0
    {
      assert attrs[..i + 1][..i] == attrs[..i];
      var ad := attrs[i];
      if ad.attributeClass.Some? && ad.attributeClass.value == DisplayAttribute {
        display := Some(ad.display);
        hasName := ad.display.name.Some?;
        hasDescription := ad.display.description.Some?;
      }
      i := i + 1;
    }
    assert attrs[..i] == attrs;
  }

  // ---------------------------------------------------------------------
  // Members

  predicate IsConstantField(m: SymbolMember) {
    m.isField && m.constantValue.Some?
  }

  function ToMember(m: SymbolMember): Member
    requires IsConstantField(m)
  {
    var d := FieldDisplay(m.attributes);
    Member(m.name, m.constantValue.value,
           if d.Some? then d.value.name else None,
           if d.Some? then d.value.description else None)
  }

  /** The positions of the constant fields, in increasing order: the
      reference for which members `Constants` keeps. */
  function ConstantIndices(ms: seq<SymbolMember>): (r: seq<nat>)
    ensures forall k :: 0 <= k < |r| ==> r[k] < |ms| && IsConstantField(ms[r[k]])
    ensures forall k, l :: 0 <= k < l < |r| ==> r[k] < r[l]
  {
    if ms == [] then []
    else
      var init := ConstantIndices(ms[..|ms| - 1]);
      assert forall j :: 0 <= j < |ms| - 1 ==> ms[..|ms| - 1][j] == ms[j];
      if IsConstantField(ms[|ms| - 1]) then init + [|ms| - 1] else init
  }

  /** No constant field is missing from `ConstantIndices`. */
  lemma {:induction false} ConstantIndicesComplete(ms: seq<SymbolMember>)
    ensures forall j :: 0 <= j < |ms| && IsConstantField(ms[j]) ==> j in ConstantIndices(ms)
  {
    if ms != [] {
      var p := ms[..|ms| - 1];
      ConstantIndicesComplete(p);
      assert forall j :: 0 <= j < |p| ==> p[j] == ms[j];
    }
  }

  /** The enum members: one per constant field, in declaration order. */
  function Constants(ms: seq<SymbolMember>): (r: seq<Member>)
    ensures |r| <= |ms|
    ensures (forall j :: 0 <= j < |ms| ==> IsConstantField(ms[j])) ==>
      |r| == |ms| && forall j :: 0 <= j < |ms| ==> r[j] == ToMember(ms[j])
    ensures (forall j :: 0 <= j < |ms| ==> !IsConstantField(ms[j])) ==> r == []
  {
    if ms == [] then []
    else
      var p := ms[..|ms| - 1];
      var init := Constants(p);
      assert forall j :: 0 <= j < |p| ==> p[j] == ms[j];
      var m := ms[|ms| - 1];
      var idx := ConstantIndices(p);
      if IsConstantField(m) then
        assert ConstantIndices(ms) == idx + [|p|];
        init + [ToMember(m)]
      else
        assert ConstantIndices(ms) == idx;
        init
  }

  /** `Constants` is exactly the filter of the constant fields: its k-th
      member is made from the k-th constant field, and it keeps every field
      exactly when every field is a constant. */
  lemma {:induction false} ConstantsFilter(ms: seq<SymbolMember>)
    ensures |Constants(ms)| == |ConstantIndices(ms)|
    ensures forall k :: 0 <= k < |Constants(ms)| ==> Constants(ms)[k] == ToMember(ms[ConstantIndices(ms)[k]])
  {
    if ms != [] {
      var p := ms[..|ms| - 1];
      ConstantsFilter(p);
      assert forall j :: 0 <= j < |p| ==> p[j] == ms[j];
      var m := ms[|ms| - 1];
      var idx, r := ConstantIndices(p), Constants(p);
      if IsConstantField(m) {
        assert ConstantIndices(ms) == idx + [|p|];
        assert Constants(ms) == r + [ToMember(m)];
        forall k | 0 <= k < |r|
          ensures Constants(ms)[k] == ToMember(ms[ConstantIndices(ms)[k]])
        {
          assert Constants(ms)[k] == r[k];
          assert ConstantIndices(ms)[k] == idx[k];
          assert ms[idx[k]] == p[idx[k]];
        }
      } else {
        assert ConstantIndices(ms) == idx;
        assert Constants(ms) == r;
        forall k | 0 <= k < |r|
          ensures Constants(ms)[k] == ToMember(ms[ConstantIndices(ms)[k]])
        {
          assert ms[idx[k]] == p[idx[k]];
        }
      }
    }
  }

  /** Every field is kept exactly when every field is a constant. */
  lemma {:induction false} ConstantsKeepAll(ms: seq<SymbolMember>)
    ensures |Constants(ms)| == |ms| <==> forall j :: 0 <= j < |ms| ==> IsConstantField(ms[j])
  {
    if ms != [] {
      var p := ms[..|ms| - 1];
      ConstantsKeepAll(p);
      assert forall j :: 0 <= j < |p| ==> p[j] == ms[j];
      if !IsConstantField(ms[|ms| - 1]) {
        assert |Constants(ms)| == |Constants(p)| <= |p|;
      }
    }
  }

  /** The display data of the last `[Display]` attribute over all constant
      fields: the one that decides both capability flags as written. */
  function LastDisplay(ms: seq<SymbolMember>): Option<DisplayData> {
    if ms == [] then None
    else
      var m := ms[|ms| - 1];
      if IsConstantField(m) && FieldDisplay(m.attributes).Some? then FieldDisplay(m.attributes)
      else LastDisplay(ms[..|ms| - 1])
  }

  /** The member loop: collects the members and, as written, the capability
      flags of the last `[Display]` attribute seen. */
  method CollectMembers(ms: seq<SymbolMember>) returns (members: seq<Member>, hasName: bool, hasDescription: bool)
    ensures members == Constants(ms)
    ensures hasName <==> LastDisplay(ms).Some? && LastDisplay(ms).value.name.Some?
    ensures hasDescription <==> LastDisplay(ms).Some? && LastDisplay(ms).value.description.Some?
  {
    members := [];
    hasName, hasDescription := false, false;
    var i := 0;
    while i < |ms|
      invariant 0 <= i <= |ms|
      invariant members == Constants(ms[..i])
      invariant hasName <==> LastDisplay(ms[..i]).Some? && LastDisplay(ms[..i]).value.name.Some?
      invariant hasDescription <==> LastDisplay(ms[..i]).Some? && LastDisplay(ms[..i]).value.description.Some?
    {
      assert ms[..i + 1][..i] == ms[..i];
      var m := ms[i];
      if IsConstantField(m) {
        var display;
        display, hasName, hasDescription := ScanFieldAttributes(m.attributes, hasName, hasDescription);
        members := members + [Member(m.name, m.constantValue.value,
                                     if display.Some? then display.value.name else None,
                                     if display.Some? then display.value.description else None)];
      }
      i := i + 1;
    }
    assert ms[..i] == ms;
  }

  /** The text a `[Display]` attribute gives in tier `t`. */
  function DisplayText(d: DisplayData, t: Tier): Option<string> {
    match t
    case DisplayNameTier => d.name
    case DescriptionTier => d.description
    case _ => None
  }

  lemma AnyTextSnoc(ms: seq<Member>, x: Member, t: Tier)
    ensures AnyText(ms, t) || TextOf(x, t).Some? ==> AnyText(ms + [x], t)
  {
    if AnyText(ms, t) {
      var i :| 0 <= i < |ms| && TextOf(ms[i], t).Some?;
      assert (ms + [x])[i] == ms[i];
    } else if TextOf(x, t).Some? {
      assert (ms + [x])[|ms|] == x;
    }
  }

  /** Whenever an as-written capability flag is set, some member really has
      a text in that tier: the flags err only by being false. */
  lemma {:induction false} LastDisplayIsSomeMember(ms: seq<SymbolMember>, t: Tier)
    requires t == DisplayNameTier || t == DescriptionTier
    requires LastDisplay(ms).Some? && DisplayText(LastDisplay(ms).value, t).Some?
    ensures AnyText(Constants(ms), t)
  {
    var init := ms[..|ms| - 1];
    var m := ms[|ms| - 1];
    if IsConstantField(m) {
      assert Constants(ms) == Constants(init) + [ToMember(m)];
      if FieldDisplay(m.attributes).None? {
        LastDisplayIsSomeMember(init, t);
      }
      AnyTextSnoc(Constants(init), ToMember(m), t);
    } else {
      assert Constants(ms) == Constants(init);
      LastDisplayIsSomeMember(init, t);
    }
  }

  // ---------------------------------------------------------------------
  // Names

  /** The display string of the parts, concatenated. */
  function PartsText(parts: seq<DisplayPart>, n: nat): string
    requires n <= |parts|
  {
    if n == 0 then "" else PartsText(parts, n - 1) + parts[n - 1].text
  }

  /** Whether the part `n - 1` is appended to the namespace: a namespace
      name switches the state on, a part that `EndsNamespace` switches it
      off, and every other part keeps it. */
  predicate InNamespaceAfter(parts: seq<DisplayPart>, n: nat, rd: Reading)
    requires n <= |parts|
  {
    if n == 0 then false
    else if parts[n - 1].kind == NamespaceName then true
    else if EndsNamespace(parts[n - 1].kind, rd) then false
    else InNamespaceAfter(parts, n - 1, rd)
  }

  function NamespaceText(parts: seq<DisplayPart>, n: nat, rd: Reading): string
    requires n <= |parts|
  {
    if n == 0 then ""
    else NamespaceText(parts, n - 1, rd) + (if InNamespaceAfter(parts, n, rd) then parts[n - 1].text else "")
  }

  function TypeText(parts: seq<DisplayPart>, n: nat, rd: Reading): string
    requires n <= |parts|
  {
    if n == 0 then ""
    else TypeText(parts, n - 1, rd) + (if InNamespaceAfter(parts, n, rd) then "" else parts[n - 1].text)
  }

  /** The loop over the display parts, filling three buffers. */
  method SplitDisplayParts(parts: seq<DisplayPart>) returns (ns: string, full: string, fqn: string)
    ensures ns == NamespaceText(parts, |parts|, AsWritten)
    ensures full == TypeText(parts, |parts|, AsWritten)
    ensures fqn == PartsText(parts, |parts|)
  {
    ns, full, fqn := "", "", "";
    var inNamespace := false;
    var i := 0;
    while i < |parts|
      invariant 0 <= i <= |parts|
      invariant inNamespace == InNamespaceAfter(parts, i, AsWritten)
      invariant ns == NamespaceText(parts, i, AsWritten)
      invariant full == TypeText(parts, i, AsWritten)
      invariant fqn == PartsText(parts, i)
    {
      var part := parts[i];
      match part.kind {
        case NamespaceName => inNamespace := true;
        case ClassName => inNamespace := false;
        case EnumName => inNamespace := false;
        case _ =>
      }
      if inNamespace {
        ns := ns + part.text;
      } else {
        full := full + part.text;
      }
      fqn := fqn + part.text;
      i := i + 1;
    }
  }

  /** The two buffers' lengths add up to the qualified name's: every part's
      text goes to one of them. */
  lemma {:induction false} SplitPartitions(parts: seq<DisplayPart>, n: nat, rd: Reading)
    requires n <= |parts|
    ensures |NamespaceText(parts, n, rd)| + |TypeText(parts, n, rd)| == |PartsText(parts, n)|
  {
    if n > 0 { SplitPartitions(parts, n - 1, rd); }
  }

  /** The display string of a type is its namespace parts followed by its
      type parts: `k` parts of namespace (the first a namespace name, none
      ending the namespace under `rd`), then a part that does, and no
      further namespace name. */
  predicate QualifiedShape(parts: seq<DisplayPart>, k: nat, rd: Reading) {
    && k <= |parts|
    && (k > 0 ==> parts[0].kind == NamespaceName)
    && (forall j :: 0 <= j < k ==> !EndsNamespace(parts[j].kind, rd))
    && (k < |parts| ==> EndsNamespace(parts[k].kind, rd))
    && (forall j :: k <= j < |parts| ==> parts[j].kind != NamespaceName)
  }

  /** For such a display string, the namespace buffer holds exactly the first
      `k` parts and the type buffer the rest: namespace + type == fqn. */
  lemma {:induction false} QualifiedSplit(parts: seq<DisplayPart>, k: nat, n: nat, rd: Reading)
    requires QualifiedShape(parts, k, rd) && n <= |parts|
    ensures n <= k ==>
      && InNamespaceAfter(parts, n, rd) == (n > 0)
      && NamespaceText(parts, n, rd) == PartsText(parts, n)
      && TypeText(parts, n, rd) == ""
    ensures n > k ==>
      && !InNamespaceAfter(parts, n, rd)
      && NamespaceText(parts, n, rd) == PartsText(parts, k)
      && PartsText(parts, k) + TypeText(parts, n, rd) == PartsText(parts, n)
  {
    if n > 0 {
      QualifiedSplit(parts, k, n - 1, rd);
      if n > k {
        assert PartsText(parts, k) + TypeText(parts, n, rd)
            == (PartsText(parts, k) + TypeText(parts, n - 1, rd)) + parts[n - 1].text;
      }
    }
  }

  /** The display parts of `N.S.E`: enum `E` nested in struct `S` in
      namespace `N`. */
  function NestedInStructParts(): seq<DisplayPart> {
    [DisplayPart(NamespaceName, "N"), DisplayPart(Punctuation, "."),
     DisplayPart(StructName, "S"), DisplayPart(Punctuation, "."),
     DisplayPart(EnumName, "E")]
  }

  /** As written, a struct name does not end the namespace: the enum nested
      in struct `S` gets namespace `N.S` and full name `E`. Reading every type
      name as the end of the namespace gives namespace `N` and `S.E`. */
  lemma NestedInStructSplit()
    ensures NamespaceOf(NamespaceText(NestedInStructParts(), 5, AsWritten)) == Some("N.S")
    ensures TypeText(NestedInStructParts(), 5, AsWritten) == "E"
    ensures NamespaceOf(NamespaceText(NestedInStructParts(), 5, AllTypeNames)) == Some("N")
    ensures TypeText(NestedInStructParts(), 5, AllTypeNames) == "S.E"
  {
    NestedInStructShape();
    TrimmedNamespaces();
    NestedInStructRead(AsWritten, 4);
    NestedInStructRead(AllTypeNames, 2);
    assert "N.S.E"[4..] == "E" && "N.S.E"[2..] == "S.E";
  }

  lemma NestedInStructRead(rd: Reading, k: nat)
    requires QualifiedShape(NestedInStructParts(), k, rd)
    ensures NamespaceText(NestedInStructParts(), 5, rd) == PartsText(NestedInStructParts(), k)
    ensures TypeText(NestedInStructParts(), 5, rd) ==
      PartsText(NestedInStructParts(), 5)[|PartsText(NestedInStructParts(), k)|..]
  {
    var parts := NestedInStructParts();
    QualifiedSplit(parts, k, 5, rd);
    var a, t := PartsText(parts, k), TypeText(parts, 5, rd);
    assert (a + t)[|a|..] == t;
  }

  lemma NestedInStructShape()
    ensures QualifiedShape(NestedInStructParts(), 4, AsWritten)
    ensures QualifiedShape(NestedInStructParts(), 2, AllTypeNames)
    ensures PartsText(NestedInStructParts(), 2) == "N."
    ensures PartsText(NestedInStructParts(), 4) == "N.S."
    ensures PartsText(NestedInStructParts(), 5) == "N.S.E"
  {
    var parts := NestedInStructParts();
    forall j | 0 <= j < 4 ensures !EndsNamespace(parts[j].kind, AsWritten) { }
    forall j | 0 <= j < 2 ensures !EndsNamespace(parts[j].kind, AllTypeNames) { }
    forall j | 2 <= j < 5 ensures parts[j].kind != NamespaceName { }
    assert PartsText(parts, 1) == "N";
    assert PartsText(parts, 2) == "N.";
    assert PartsText(parts, 3) == "N.S";
    assert PartsText(parts, 4) == "N.S.";
  }

  lemma TrimmedNamespaces()
    ensures TrimEndDots("N.S.") == "N.S" && TrimEndDots("N.") == "N"
  {
    assert "N.S."[..3] == "N.S";
    assert "N."[..1] == "N";
  }

  /** `TrimEnd('.')`: drop every trailing dot. */
  function TrimEndDots(s: string): (r: string)
    ensures r <= s
    ensures r == "" || r[|r| - 1] != '.'
    ensures forall j :: |r| <= j < |s| ==> s[j] == '.'
  {
    if s == "" || s[|s| - 1] != '.' then s
    else TrimEndDots(s[..|s| - 1])
  }

  /** The namespace: none when the buffer stayed empty (the global
      namespace), else the buffer without its trailing dots. */
  function NamespaceOf(ns: string): (r: Option<string>)
    ensures r.None? <==> ns == ""
    ensures r.Some? ==> r.value <= ns && (r.value == "" || r.value[|r.value| - 1] != '.')
    ensures r.Some? ==> forall j :: |r.value| <= j < |ns| ==> ns[j] == '.'
  {
    if |ns| == 0 then None else Some(TrimEndDots(ns))
  }

  // ---------------------------------------------------------------------
  // Transform

  /** `Transform`: nothing for a symbol that is not a named type or carries
      no `[EnumSourceGen]` attribute; otherwise the spec of the enum. */
  method Transform(sym: Symbol) returns (r: Option<EnumSpec>)
    ensures r.None? <==>
      || !sym.NamedType?
      || forall j :: 0 <= j < |sym.attributes| ==> sym.attributes[j].attributeClass != Some(EnumSourceGenAttr)
    ensures r.Some? ==>
      && SourceGenOptions(sym.attributes) == Some(r.value.options)
      && r.value.name == sym.name
      && r.value.fullyQualifiedName == PartsText(sym.parts, |sym.parts|)
      && r.value.fullName == TypeText(sym.parts, |sym.parts|, AsWritten)
      && r.value.namespace == NamespaceOf(NamespaceText(sym.parts, |sym.parts|, AsWritten))
      && r.value.isPublic == sym.isPublic
      && (r.value.hasFlags <==> exists j :: 0 <= j < |sym.attributes| && sym.attributes[j].attributeClass == Some(FlagsAttribute))
      && (r.value.hasDisplay <==> LastDisplay(sym.members).Some? && LastDisplay(sym.members).value.name.Some?)
      && (r.value.hasDescription <==> LastDisplay(sym.members).Some? && LastDisplay(sym.members).value.description.Some?)
      && r.value.underlyingType == sym.underlyingType.GetOr("int")
      && r.value.members == Constants(sym.members)
  {
    if !sym.NamedType? {
      return None;
    }
    var hasFlags, data := ScanTypeAttributes(sym.attributes);
    if data.None? {
      return None;
    }
    var members, hasName, hasDescription := CollectMembers(sym.members);
    var underlyingType := sym.underlyingType.GetOr("int");
    var ns, full, fqn := SplitDisplayParts(sym.parts);
    var enumNamespace := if |ns| == 0 then None else Some(TrimEndDots(ns));
    r := Some(EnumSpec(sym.name, full, fqn, enumNamespace, sym.isPublic, hasName, hasDescription,
                       hasFlags, underlyingType, members, data.value));
  }

  /** With the display-name flag off, no text parses with the display-name
      format: the display tier is not emitted and no other tier is enabled. */
  lemma HiddenLabelsDoNotParse(es: EnumSpec, x: string)
    requires !es.hasDisplay
    ensures EnumClassSemantics.EvalTryParse(EnumClassCode.ParseBlocks(es), x, EnumFormatCode.TierBit(DisplayNameTier), Ordinal).None?
  {
    forall t ensures !EnumClassSemantics.Enabled(es, EnumFormatCode.TierBit(DisplayNameTier), t) {
      EnumClassSemantics.TierBitsSelect(DisplayNameTier, t);
    }
    EnumClassSemantics.ParseFailsIffNoTierMatches(es, x, EnumFormatCode.TierBit(DisplayNameTier), Ordinal);
  }

  /** The two fields of the counterexample: a display name, then a
      description only. */
  function HiddenLabelFields(): seq<SymbolMember> {
    [LabelledField("A", 1, DisplayData(Some("Label"), None)),
     LabelledField("B", 2, DisplayData(None, Some("About B")))]
  }

  lemma HiddenLabelMembers()
    ensures Constants(HiddenLabelFields()) ==
      [Member("A", 1, Some("Label"), None), Member("B", 2, None, Some("About B"))]
    ensures LastDisplay(HiddenLabelFields()) == Some(DisplayData(None, Some("About B")))
  {
    var ms := HiddenLabelFields();
    assert ms[..1][..0] == [];
    assert ms[..|ms| - 1] == ms[..1];
    assert FieldDisplay(ms[0].attributes) == Some(DisplayData(Some("Label"), None));
    assert FieldDisplay(ms[1].attributes) == Some(DisplayData(None, Some("About B")));
  }

  /** Finding: as written, each `[Display]` attribute overwrites both flags,
      so a later description-only attribute hides an earlier display name.
      Here member 0 has a display name, yet the flag is off and the label
      does not parse back; with the flags recomputed it does. */
  lemma LastDisplayHidesEarlierName()
    ensures var ms := HiddenLabelFields();
      && Constants(ms)[0].displayName == Some("Label")
      && LastDisplay(ms).value.name.None?
      && EnumClassSemantics.EvalTryParse(
           EnumClassCode.ParseBlocks(SpecWith(Constants(ms), false, true)),
           "Label", EnumFormatCode.TierBit(DisplayNameTier), Ordinal).None?
      && EnumClassSemantics.EvalTryParse(
           EnumClassCode.ParseBlocks(WithDerivedCapabilities(SpecWith(Constants(ms), false, true))),
           "Label", EnumFormatCode.TierBit(DisplayNameTier), Ordinal) == Some(0)
  {
    HiddenLabelMembers();
    var es := SpecWith(Constants(HiddenLabelFields()), false, true);
    assert CSharpLiteral.LiteralSafe("Label");
    HiddenLabelsDoNotParse(es, "Label");
    DerivedCapabilitiesParseLabels(es, 0);
  }

  /** The corrected flags (`WithDerivedCapabilities`) make every display
      name parse back to its member with the display-name format, when the
      name stands in a literal as it is and no earlier member's display-name
      literal denotes the same text. */
  lemma DerivedCapabilitiesParseLabels(es: EnumSpec, i: nat)
    requires i < |es.members| && es.members[i].displayName.Some?
    requires CSharpLiteral.LiteralSafe(es.members[i].displayName.value)
    requires forall j :: 0 <= j < i && es.members[j].displayName.Some? ==>
               !CSharpLiteral.ReadsAs(es.members[j].displayName.value, es.members[i].displayName.value)
    ensures EnumClassSemantics.EvalTryParse(
      EnumClassCode.ParseBlocks(WithDerivedCapabilities(es)),
      es.members[i].displayName.value, EnumFormatCode.TierBit(DisplayNameTier), Ordinal) == Some(i)
  {
    var fixed := WithDerivedCapabilities(es);
    assert TextOf(fixed.members[i], DisplayNameTier).Some?;
    EnumClassSemantics.TierRoundTrip(fixed, DisplayNameTier, i);
  }

  /** A constant field carrying one `[Display]` attribute. */
  function LabelledField(name: string, value: int, d: DisplayData): SymbolMember {
    SymbolMember(name, true, Some(value), [AttributeData(Some(DisplayAttribute), DefaultOptions(), d)])
  }

  function DefaultOptions(): Options {
    Options(None, None, None, None, "EnumExtensions")
  }

  /** A spec over `ms` with the given capability flags. */
  function SpecWith(ms: seq<Member>, hasDisplay: bool, hasDescription: bool): EnumSpec {
    EnumSpec("E", "E", "E", None, true, hasDisplay, hasDescription, false, "int", ms, DefaultOptions())
  }

  // ---------------------------------------------------------------------
  // Source output

  datatype Severity = Error

  datatype Diagnostic = Diagnostic(id: string, title: string, message: string, category: string, severity: Severity)

  datatype Source =
    | FormatSource(format: EnumFormatCode.FormatArtifact)
    | ClassSource(enums: EnumClassCode.ClassArtifact)
    | ExtensionSource(extensions: ExtensionCode.ExtensionArtifact)

  /** What the output step does to the generation context, in order. */
  datatype Effect =
    | AddSource(hintName: string, header: string, body: Source)
    | Report(diagnostic: Diagnostic)

  /** The diagnostic reported when a generator throws. */
  function GenerationError(es: EnumSpec, message: string): Diagnostic {
    Diagnostic("ESG001", "EnumSourceGen",
               "An error happened while generating code for " + es.fullName + ". Error: " + message,
               "errors", Error)
  }

  /** The output step for one transformed symbol. The sources are added one
      by one, so when the class generator throws, the format source has
      already been added and the error is reported after it. */
  method Emit(header: string, es: Option<EnumSpec>) returns (effects: seq<Effect>)
    ensures es.None? ==> effects == []
    ensures es.Some? && EnumClassCode.IsDefinedOf(es.value.members).Err? ==>
      effects == [AddSource(es.value.fullyQualifiedName + "_EnumFormat.g.cs", header, FormatSource(EnumFormatCode.Generate(es.value))),
                  Report(GenerationError(es.value, EnumClassCode.OverflowMessage))]
    ensures es.Some? && EnumClassCode.IsDefinedOf(es.value.members).Ok? ==>
      && |effects| == 3
      && effects[0] == AddSource(es.value.fullyQualifiedName + "_EnumFormat.g.cs", header, FormatSource(EnumFormatCode.Generate(es.value)))
      && effects[1].AddSource? && effects[1].header == header && effects[1].body.ClassSource?
      && effects[1].hintName == es.value.fullyQualifiedName + "_Enums.g.cs"
      && EnumClassCode.Describes(es.value, effects[1].body.enums)
      && effects[2].AddSource? && effects[2].header == header && effects[2].body.ExtensionSource?
      && effects[2].hintName == es.value.fullyQualifiedName + "_Extensions.g.cs"
      && ExtensionCode.Describes(es.value, effects[2].body.extensions)
  {
    if es.None? {
      return [];
    }
    var spec := es.value;
    var fqn := spec.fullyQualifiedName;
    effects := [AddSource(fqn + "_EnumFormat.g.cs", header, FormatSource(EnumFormatCode.Generate(spec)))];
    var enums := EnumClassCode.Generate(spec);
    if enums.Err? {
      effects := effects + [Report(GenerationError(spec, enums.message))];
      return;
    }
    effects := effects + [AddSource(fqn + "_Enums.g.cs", header, ClassSource(enums.value))];
    var extensions := ExtensionCode.Generate(spec);
    effects := effects + [AddSource(fqn + "_Extensions.g.cs", header, ExtensionSource(extensions))];
  }
}
