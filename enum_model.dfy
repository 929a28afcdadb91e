/** The description of one enum that every generator reads (the `EnumSpec`
    record and its `EnumMember` entries), and the one shape every generated
    lookup table takes: a list of (member, text) entries in declaration order. */
module EnumModel {
  import opened Wrappers
  import Bits
  import Radix
  import CSharpLiteral

  /** One enum member: its identifier, its underlying value, and the `Name`
      and `Description` of its `[Display]` attribute, if any. */
  datatype Member = Member(
    name: string,
    value: int,
    displayName: Option<string>,
    description: Option<string>)

  /** Generation options carried by the `[EnumSourceGen]` attribute. The
      three generators were written against different revisions of the
      spec record; this is the union of the option fields they read. */
  datatype Options = Options(
    enumsClassNamespace: Option<string>,
    enumNameOverride: Option<string>,
    enumsClassName: Option<string>,
    extNamespace: Option<string>,
    extName: string)

  datatype EnumSpec = EnumSpec(
    name: string,
    fullName: string,           // including enclosing types
    fullyQualifiedName: string, // including the namespace
    namespace: Option<string>,
    isPublic: bool,
    hasDisplay: bool,
    hasDescription: bool,
    hasFlags: bool,
    underlyingType: string,
    members: seq<Member>,
    options: Options)

  /** The accessibility keyword of a generated class. */
  datatype Visibility = Public | Internal

  function VisibilityOf(es: EnumSpec): Visibility {
    if es.isPublic then Public else Internal
  }

  /** Member names are C# identifiers, so each stands in a string literal as
      it is: no quote, backslash or line break. */
  predicate IdentifierNames(ms: seq<Member>) {
    forall i :: 0 <= i < |ms| ==> CSharpLiteral.LiteralSafe(ms[i].name)
  }

  /** `StringComparison.Ordinal`: exact equality of the two texts. */
  predicate Ordinal(a: string, b: string) {
    a == b
  }

  /** The four ways a text can denote a member, in parse priority order. */
  datatype Tier = NameTier | ValueTier | DisplayNameTier | DescriptionTier

  /** The text by which member `m` is known in tier `t`, if any. */
  function TextOf(m: Member, t: Tier): Option<string> {
    match t
    case NameTier => Some(m.name)
    case ValueTier => Some(Radix.IntText(m.value))
    case DisplayNameTier => m.displayName
    case DescriptionTier => m.description
  }

  /** Whether the generators emit code for tier `t` at all: the name and
      value tiers always, the others only when the spec's flag says so. */
  predicate TierEmitted(es: EnumSpec, t: Tier) {
    match t
    case NameTier => true
    case ValueTier => true
    case DisplayNameTier => es.hasDisplay
    case DescriptionTier => es.hasDescription
  }

  /** A member (by declaration index) paired with a text: one array element
      `(E.Member, "text")`, one `case E.Member:` arm, or one
      `if (value.Equals("text", comparison))` check. */
  datatype Entry = Entry(member: nat, text: string)

  /** The entries a generator loop appends for tier `t` over the first `n`
      members: one per member that has a text in that tier, in order. */
  function Entries(ms: seq<Member>, t: Tier, n: nat): seq<Entry>
    requires n <= |ms|
  {
    if n == 0 then []
    else
      Entries(ms, t, n - 1)
      + (match TextOf(ms[n - 1], t)
         case Some(x) => [Entry(n - 1, x)]
         case None => [])
  }

  lemma EntriesSnoc(ms: seq<Member>, t: Tier, n: nat)
    requires 0 < n <= |ms|
    ensures TextOf(ms[n - 1], t).None? ==> Entries(ms, t, n) == Entries(ms, t, n - 1)
    ensures TextOf(ms[n - 1], t).Some? ==>
      Entries(ms, t, n) == Entries(ms, t, n - 1) + [Entry(n - 1, TextOf(ms[n - 1], t).value)]
  {
  }

  /** Every entry names a member below `n` and carries that member's text. */
  lemma {:induction false} EntriesSound(ms: seq<Member>, t: Tier, n: nat)
    requires n <= |ms|
    ensures forall k :: 0 <= k < |Entries(ms, t, n)| ==>
      Entries(ms, t, n)[k].member < n &&
      TextOf(ms[Entries(ms, t, n)[k].member], t) == Some(Entries(ms, t, n)[k].text)
  {
    if n > 0 {
      EntriesSound(ms, t, n - 1);
      EntriesSnoc(ms, t, n);
    }
  }

  /** Entries follow declaration order, each member at most once. */
  lemma {:induction false} EntriesOrdered(ms: seq<Member>, t: Tier, n: nat)
    requires n <= |ms|
    ensures forall k, l :: 0 <= k < l < |Entries(ms, t, n)| ==>
      Entries(ms, t, n)[k].member < Entries(ms, t, n)[l].member
  {
    if n > 0 {
      EntriesOrdered(ms, t, n - 1);
      EntriesSound(ms, t, n - 1);
      EntriesSnoc(ms, t, n);
    }
  }

  /** Every member below `n` that has a text in tier `t` has an entry. */
  lemma {:induction false} EntriesComplete(ms: seq<Member>, t: Tier, n: nat, i: nat)
    requires i < n <= |ms|
    requires TextOf(ms[i], t).Some?
    ensures exists k :: 0 <= k < |Entries(ms, t, n)| && Entries(ms, t, n)[k].member == i
  {
    EntriesSnoc(ms, t, n);
    var es := Entries(ms, t, n);
    if i < n - 1 {
      EntriesComplete(ms, t, n - 1, i);
      var prev := Entries(ms, t, n - 1);
      var k :| 0 <= k < |prev| && prev[k].member == i;
      assert es[k] == prev[k];
    } else {
      assert es[|es| - 1].member == i;
    }
  }

  /** In the name and value tiers every member has a text, so entry `i` is
      member `i`: one entry per member. */
  lemma {:induction false} TotalTierEntries(ms: seq<Member>, t: Tier, n: nat)
    requires n <= |ms|
    requires t == NameTier || t == ValueTier
    ensures |Entries(ms, t, n)| == n
    ensures forall i :: 0 <= i < n ==> Entries(ms, t, n)[i] == Entry(i, TextOf(ms[i], t).value)
  {
    if n > 0 { TotalTierEntries(ms, t, n - 1); }
  }

  /** The integer type an `underlyingType` names: the metadata name of the
      enum's underlying type (`Int32`, `Byte`, ...), or `int` when the
      compiler reports none. This is the type of the generated casts
      `(ut)input`. */
  function KindOf(ut: string): (r: Option<Bits.IntKind>)
    ensures r.Some? ==> Bits.ValidKind(r.value)
    ensures r.Some? <==> ut in {"SByte", "Byte", "Int16", "UInt16", "Int32", "UInt32", "Int64", "UInt64", "int"}
    ensures r.Some? ==> (r.value.signed <==> ut in {"SByte", "Int16", "Int32", "Int64", "int"})
  {
    if ut == "SByte" then Some(Bits.IntKind(8, true))
    else if ut == "Byte" then Some(Bits.IntKind(8, false))
    else if ut == "Int16" then Some(Bits.IntKind(16, true))
    else if ut == "UInt16" then Some(Bits.IntKind(16, false))
    else if ut == "Int32" || ut == "int" then Some(Bits.IntKind(32, true))
    else if ut == "UInt32" then Some(Bits.IntKind(32, false))
    else if ut == "Int64" then Some(Bits.IntKind(64, true))
    else if ut == "UInt64" then Some(Bits.IntKind(64, false))
    else None
  }

  /** Distinct metadata names name distinct integer types; only the fallback
      `int` shares its type, with `Int32`. */
  lemma KindOfInjective(a: string, b: string)
    requires KindOf(a).Some? && KindOf(a) == KindOf(b)
    ensures a == b || {a, b} == {"Int32", "int"}
  {
  }

  /** No two members share an underlying value (otherwise the generated
      `switch` statements would have duplicate case labels). */
  predicate DistinctValues(ms: seq<Member>) {
    forall i, j :: 0 <= i < j < |ms| ==> ms[i].value != ms[j].value
  }

  /** Some member has a text in tier `t`. */
  function AnyText(ms: seq<Member>, t: Tier): (r: bool)
    ensures r <==> exists i :: 0 <= i < |ms| && TextOf(ms[i], t).Some?
  {
    if ms == [] then false
    else if TextOf(ms[|ms| - 1], t).Some? then true
    else
      var r := AnyText(ms[..|ms| - 1], t);
      assert forall i :: 0 <= i < |ms| - 1 ==> ms[..|ms| - 1][i] == ms[i];
      r
  }

  /** The capability flags agree with the members, as they are meant to:
      `hasDisplay` (`hasDescription`) holds iff some member has a display
      name (description). */
  predicate Consistent(es: EnumSpec) {
    && es.hasDisplay == AnyText(es.members, DisplayNameTier)
    && es.hasDescription == AnyText(es.members, DescriptionTier)
  }

  /** The spec with both capability flags recomputed from its members. */
  function WithDerivedCapabilities(es: EnumSpec): (r: EnumSpec)
    ensures Consistent(r)
    ensures r.members == es.members
    ensures r.hasDisplay <==> exists i :: 0 <= i < |es.members| && es.members[i].displayName.Some?
    ensures r.hasDescription <==> exists i :: 0 <= i < |es.members| && es.members[i].description.Some?
    ensures Consistent(es) ==> r == es
  {
    es.(hasDisplay := AnyText(es.members, DisplayNameTier),
        hasDescription := AnyText(es.members, DescriptionTier))
  }
}
