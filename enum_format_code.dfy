/** The format-flag generator (`EnumFormatCode.Generate`): a byte-backed
    `[Flags]` enum `<Name>Format` whose members select the parse tiers. */
module EnumFormatCode {
  import opened Wrappers
  import opened Bits
  import opened EnumModel

  /** The right-hand side of a member declaration: a literal, or `A | B`. */
  datatype FormatValue = Literal(bits: nat) | Combined(left: string, right: string)

  datatype FormatEntry = FormatEntry(name: string, value: FormatValue)

  /** The generated file, without its layout. */
  datatype FormatArtifact = FormatArtifact(
    namespace: string,
    typeName: string,
    hasFlagsAttribute: bool,
    backingType: string,
    entries: seq<FormatEntry>)

  function Generate(es: EnumSpec): (r: FormatArtifact)
    ensures r.typeName == es.name + "Format"
    ensures r.hasFlagsAttribute && r.backingType == "byte"
    ensures r.namespace == es.options.enumsClassNamespace.GetOr("")
    ensures |r.entries| >= 4
    ensures r.entries[..3] == [FormatEntry("None", Literal(0)), FormatEntry("Name", Literal(1)),
                               FormatEntry("Value", Literal(2))]
    ensures r.entries[|r.entries| - 1] == FormatEntry("Default", Combined("Name", "Value"))
    ensures Declares(r, "DisplayName") <==> es.hasDisplay
    ensures Declares(r, "Description") <==> es.hasDescription
  {
    // A null namespace is interpolated as empty text: the line is always written.
    var fixed := [FormatEntry("None", Literal(0)), FormatEntry("Name", Literal(1)),
                  FormatEntry("Value", Literal(2))];
    var display := if es.hasDisplay then [FormatEntry("DisplayName", Literal(4))] else [];
    var description := if es.hasDescription then [FormatEntry("Description", Literal(8))] else [];
    var entries := fixed + display + description + [FormatEntry("Default", Combined("Name", "Value"))];
    assert es.hasDisplay ==> entries[3].name == "DisplayName";
    assert es.hasDescription ==> entries[|entries| - 2].name == "Description";
    FormatArtifact(es.options.enumsClassNamespace.GetOr(""), es.name + "Format", true, "byte", entries)
  }

  predicate Declares(a: FormatArtifact, name: string) {
    exists k :: 0 <= k < |a.entries| && a.entries[k].name == name
  }

  /** The literal value of the first entry called `name`. */
  function LiteralOf(entries: seq<FormatEntry>, name: string): Option<nat> {
    if entries == [] then None
    else if entries[0].name == name then
      (match entries[0].value
       case Literal(b) => Some(b)
       case Combined(_, _) => None)
    else LiteralOf(entries[1..], name)
  }

  /** The numeric value of the member called `name`, as the C# compiler
      computes it. */
  function Resolve(a: FormatArtifact, name: string): Option<nat> {
    if a.entries == [] then None
    else ResolveIn(a.entries, a.entries, name)
  }

  function ResolveIn(all: seq<FormatEntry>, rest: seq<FormatEntry>, name: string): Option<nat> {
    if rest == [] then None
    else if rest[0].name == name then
      (match rest[0].value
       case Literal(b) => Some(b)
       case Combined(l, r) =>
         var lv := LiteralOf(all, l);
         var rv := LiteralOf(all, r);
         if lv.Some? && rv.Some? then Some(Or(lv.value, rv.value)) else None)
    else ResolveIn(all, rest[1..], name)
  }

  /** The format member that enables tier `t` in the generated `TryParse`. */
  function TierMember(t: Tier): string {
    match t
    case NameTier => "Name"
    case ValueTier => "Value"
    case DisplayNameTier => "DisplayName"
    case DescriptionTier => "Description"
  }

  /** Its bit. */
  function TierBit(t: Tier): nat {
    match t
    case NameTier => 1
    case ValueTier => 2
    case DisplayNameTier => 4
    case DescriptionTier => 8
  }

  /** A single-bit value. */
  ghost predicate SingleBit(v: nat) {
    exists j: nat :: v == Pow2(j)
  }

  lemma {:induction false} SkipUnnamed(all: seq<FormatEntry>, pre: seq<FormatEntry>, post: seq<FormatEntry>, name: string)
    requires forall k :: 0 <= k < |pre| ==> pre[k].name != name
    ensures ResolveIn(all, pre + post, name) == ResolveIn(all, post, name)
    ensures LiteralOf(pre + post, name) == LiteralOf(post, name)
  {
    if pre != [] {
      assert (pre + post)[1..] == pre[1..] + post;
      SkipUnnamed(all, pre[1..], post, name);
    } else {
      assert pre + post == post;
    }
  }

  lemma FirstNamed(all: seq<FormatEntry>, e: seq<FormatEntry>, k: nat, name: string)
    requires k < |e| && e[k].name == name
    requires forall j :: 0 <= j < k ==> e[j].name != name
    ensures ResolveIn(all, e, name) == ResolveIn(all, e[k..], name)
    ensures LiteralOf(e, name) == LiteralOf(e[k..], name)
  {
    SkipUnnamed(all, e[..k], e[k..], name);
    assert e[..k] + e[k..] == e;
  }

  lemma NoneNamed(all: seq<FormatEntry>, e: seq<FormatEntry>, name: string)
    requires forall j :: 0 <= j < |e| ==> e[j].name != name
    ensures ResolveIn(all, e, name) == None
  {
    SkipUnnamed(all, e, [], name);
    assert e + [] == e;
  }

  lemma ResolveGenerate(es: EnumSpec, name: string)
    ensures Resolve(Generate(es), name) ==
      if name == "None" then Some(0)
      else if name == "Name" then Some(1)
      else if name == "Value" then Some(2)
      else if name == "DisplayName" && es.hasDisplay then Some(4)
      else if name == "Description" && es.hasDescription then Some(8)
      else if name == "Default" then Some(3)
      else None
  {
    var e := Generate(es).entries;
    var last := |e| - 1;
    FirstNamed(e, e, 1, "Name");
    FirstNamed(e, e, 2, "Value");
    assert Or(1, 2) == 3 by {
      assert Or(0, 1) == 1;
    }
    if name == "None" {
    } else if name == "Name" {
    } else if name == "Value" {
    } else if name == "DisplayName" && es.hasDisplay {
      FirstNamed(e, e, 3, name);
    } else if name == "Description" && es.hasDescription {
      FirstNamed(e, e, last - 1, name);
    } else if name == "Default" {
      FirstNamed(e, e, last, name);
    } else {
      NoneNamed(e, e, name);
    }
  }

  /** `Default` is `Name | Value`, that is 3. */
  lemma DefaultIsNameOrValue(es: EnumSpec)
    ensures Resolve(Generate(es), "Default") == Some(Or(TierBit(NameTier), TierBit(ValueTier)))
    ensures Resolve(Generate(es), "Default") == Some(3)
  {
    ResolveGenerate(es, "Default");
    assert Or(0, 1) == 1;
  }

  /** A member present in two generated format types has the same value in
      both: bit positions do not depend on which optional members exist. */
  lemma FormatBitsStable(es1: EnumSpec, es2: EnumSpec, name: string)
    requires Resolve(Generate(es1), name).Some? && Resolve(Generate(es2), name).Some?
    ensures Resolve(Generate(es1), name) == Resolve(Generate(es2), name)
  {
    ResolveGenerate(es1, name);
    ResolveGenerate(es2, name);
  }

  /** Every member other than `None` and `Default` is a single bit, distinct
      members have distinct bits, and every value fits the `byte` backing. */
  lemma FormatMembersAreDistinctBits(es: EnumSpec, n1: string, n2: string)
    requires Resolve(Generate(es), n1).Some? && Resolve(Generate(es), n2).Some?
    requires n1 !in {"None", "Default"} && n2 !in {"None", "Default"}
    ensures SingleBit(Resolve(Generate(es), n1).value)
    ensures n1 != n2 ==> Resolve(Generate(es), n1) != Resolve(Generate(es), n2)
    ensures Resolve(Generate(es), n1).value < 256
  {
    ResolveGenerate(es, n1);
    ResolveGenerate(es, n2);
    var v := Resolve(Generate(es), n1).value;
    assert Pow2(0) == 1 && Pow2(1) == 2 && Pow2(2) == 4 && Pow2(3) == 8;
    if v == 1 { assert v == Pow2(0); }
    else if v == 2 { assert v == Pow2(1); }
    else if v == 4 { assert v == Pow2(2); }
    else { assert v == Pow2(3); }
  }

  /** The generated format type declares exactly the tiers the other
      generators emit code for, each with the bit that the parse code tests. */
  lemma TierMembersMatchTiers(es: EnumSpec, t: Tier)
    ensures TierEmitted(es, t) ==> Resolve(Generate(es), TierMember(t)) == Some(TierBit(t))
    ensures !TierEmitted(es, t) ==> Resolve(Generate(es), TierMember(t)).None?
  {
    ResolveGenerate(es, TierMember(t));
  }
}
