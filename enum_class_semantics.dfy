/** What the code written by `EnumClassCode.Generate` does when it runs:
    an evaluation function for each generated operation, and the properties
    those operations have for every enum description. */
module EnumClassSemantics {
  import opened Wrappers
  import opened Bits
  import Radix
  import opened EnumModel
  import EnumFormatCode
  import opened EnumClassCode
  import opened CSharpLiteral

  // ---------------------------------------------------------------------
  // TryParse and Parse.

  /** The generated comparison `string.Equals(value, "<text>", comparison)`:
      the text is pasted between quotes as it is, so the input is compared
      with the string that literal denotes. A literal that `ReadBody` does
      not read (one that does not compile, or one a raw quote closes early)
      is taken as a check that never succeeds. */
  predicate LiteralMatches(input: string, lit: string, eq: (string, string) -> bool) {
    ReadBody(lit).Some? && eq(input, ReadBody(lit).value)
  }

  /** The first check whose literal matches the input, in order. */
  function FirstByText(checks: seq<Entry>, input: string, eq: (string, string) -> bool): Option<nat> {
    if checks == [] then None
    else if LiteralMatches(input, checks[0].text, eq) then Some(checks[0].member)
    else FirstByText(checks[1..], input, eq)
  }

  /** The generated `TryParse(value, out result, format, comparison)`: the
      blocks run in order, each only if `format.HasFlag` its tier's bit, and
      the first equal check returns its member. `None` is `result = default;
      return false`. */
  function EvalTryParse(blocks: seq<Block>, input: string, format: nat, eq: (string, string) -> bool): Option<nat> {
    if blocks == [] then None
    else
      var r := if HasFlag(format, EnumFormatCode.TierBit(blocks[0].tier))
               then FirstByText(blocks[0].checks, input, eq) else None;
      if r.Some? then r else EvalTryParse(blocks[1..], input, format, eq)
  }

  /** The generated `Parse`: the member `TryParse` finds, or the
      `ArgumentOutOfRangeException` it throws otherwise. The `Err` text is
      the one string given to the exception, which fills its `ParamName`. */
  function EvalParse(blocks: seq<Block>, input: string, format: nat, eq: (string, string) -> bool): (r: Result<nat>)
    ensures r.Err? <==> EvalTryParse(blocks, input, format, eq).None?
    ensures r.Ok? ==> EvalTryParse(blocks, input, format, eq) == Some(r.value)
    ensures r.Err? ==> r.message == "Invalid value: " + input
  {
    match EvalTryParse(blocks, input, format, eq)
    case Some(m) => Ok(m)
    case None => Err("Invalid value: " + input)
  }

  // The reference search: tiers in the fixed order name, value, display
  // name, description; a tier takes part only if it is emitted and its bit
  // is in the format; within a tier the first member in declaration order
  // whose text, written as a literal, matches the input wins.

  predicate MatchesAt(ms: seq<Member>, t: Tier, i: nat, input: string, eq: (string, string) -> bool)
    requires i < |ms|
  {
    TextOf(ms[i], t).Some? && LiteralMatches(input, TextOf(ms[i], t).value, eq)
  }

  function LeastMatch(ms: seq<Member>, t: Tier, input: string, eq: (string, string) -> bool, from: nat): Option<nat>
    decreases |ms| - from
  {
    if from >= |ms| then None
    else if MatchesAt(ms, t, from, input, eq) then Some(from)
    else LeastMatch(ms, t, input, eq, from + 1)
  }

  function TierOrder(): seq<Tier> {
    [NameTier, ValueTier, DisplayNameTier, DescriptionTier]
  }

  predicate Enabled(es: EnumSpec, format: nat, t: Tier) {
    TierEmitted(es, t) && HasFlag(format, EnumFormatCode.TierBit(t))
  }

  function SearchTiers(es: EnumSpec, tiers: seq<Tier>, input: string, format: nat, eq: (string, string) -> bool): Option<nat> {
    if tiers == [] then None
    else
      var r := if Enabled(es, format, tiers[0]) then LeastMatch(es.members, tiers[0], input, eq, 0) else None;
      if r.Some? then r else SearchTiers(es, tiers[1..], input, format, eq)
  }

  lemma {:induction false} FirstByTextAppend(a: seq<Entry>, b: seq<Entry>, input: string, eq: (string, string) -> bool)
    ensures FirstByText(a + b, input, eq) ==
      if FirstByText(a, input, eq).Some? then FirstByText(a, input, eq) else FirstByText(b, input, eq)
  {
    if a == [] {
      assert a + b == b;
    } else {
      assert (a + b)[1..] == a[1..] + b;
      FirstByTextAppend(a[1..], b, input, eq);
    }
  }

  /** Searching the checks a tier loop wrote for the first `n` members finds
      the least matching member below `n`, or none when none matches. */
  lemma {:induction false} FirstByTextFindsLeast(ms: seq<Member>, t: Tier, n: nat, input: string, eq: (string, string) -> bool)
    requires n <= |ms|
    ensures var r := FirstByText(Entries(ms, t, n), input, eq);
      && (r.Some? ==> r.value < n && MatchesAt(ms, t, r.value, input, eq) &&
                      forall j :: 0 <= j < r.value ==> !MatchesAt(ms, t, j, input, eq))
      && (r.None? ==> forall j :: 0 <= j < n ==> !MatchesAt(ms, t, j, input, eq))
  {
    if n > 0 {
      FirstByTextFindsLeast(ms, t, n - 1, input, eq);
      EntriesSnoc(ms, t, n);
      var tail := if TextOf(ms[n - 1], t).Some? then [Entry(n - 1, TextOf(ms[n - 1], t).value)] else [];
      assert Entries(ms, t, n) == Entries(ms, t, n - 1) + tail;
      FirstByTextAppend(Entries(ms, t, n - 1), tail, input, eq);
      if tail != [] {
        assert tail[1..] == [];
      }
    }
  }

  lemma {:induction false} LeastMatchIsLeast(ms: seq<Member>, t: Tier, input: string, eq: (string, string) -> bool, from: nat)
    ensures var r := LeastMatch(ms, t, input, eq, from);
      && (r.Some? ==> from <= r.value < |ms| && MatchesAt(ms, t, r.value, input, eq) &&
                      forall j :: from <= j < r.value ==> !MatchesAt(ms, t, j, input, eq))
      && (r.None? ==> forall j :: from <= j < |ms| ==> !MatchesAt(ms, t, j, input, eq))
    decreases |ms| - from
  {
    if from < |ms| && !MatchesAt(ms, t, from, input, eq) {
      LeastMatchIsLeast(ms, t, input, eq, from + 1);
    }
  }

  /** One generated tier block finds what the reference search finds in that tier. */
  lemma TierBlockIsLeastMatch(ms: seq<Member>, t: Tier, input: string, eq: (string, string) -> bool)
    ensures FirstByText(Entries(ms, t, |ms|), input, eq) == LeastMatch(ms, t, input, eq, 0)
  {
    FirstByTextFindsLeast(ms, t, |ms|, input, eq);
    LeastMatchIsLeast(ms, t, input, eq, 0);
  }

  /** The blocks the generator writes for a list of tiers: one per emitted tier. */
  function BlocksFor(es: EnumSpec, tiers: seq<Tier>): seq<Block> {
    if tiers == [] then []
    else
      (if TierEmitted(es, tiers[0])
       then [Block(tiers[0], Entries(es.members, tiers[0], |es.members|))] else [])
      + BlocksFor(es, tiers[1..])
  }

  lemma ParseBlocksAreBlocksFor(es: EnumSpec)
    ensures ParseBlocks(es) == BlocksFor(es, TierOrder())
  {
    var ms := es.members;
    var o := TierOrder();
    assert o[1..] == [ValueTier, DisplayNameTier, DescriptionTier];
    assert o[1..][1..] == [DisplayNameTier, DescriptionTier];
    assert o[1..][1..][1..] == [DescriptionTier];
    assert o[1..][1..][1..][1..] == [];
    var d := if es.hasDescription then [Block(DescriptionTier, Entries(ms, DescriptionTier, |ms|))] else [];
    var l := if es.hasDisplay then [Block(DisplayNameTier, Entries(ms, DisplayNameTier, |ms|))] else [];
    assert BlocksFor(es, [DescriptionTier]) == d + BlocksFor(es, []);
    assert BlocksFor(es, [DescriptionTier]) == d;
    assert BlocksFor(es, [DisplayNameTier, DescriptionTier]) == l + d;
    assert BlocksFor(es, [ValueTier, DisplayNameTier, DescriptionTier])
        == [Block(ValueTier, Entries(ms, ValueTier, |ms|))] + l + d;
    assert BlocksFor(es, o)
        == [Block(NameTier, Entries(ms, NameTier, |ms|))] + [Block(ValueTier, Entries(ms, ValueTier, |ms|))] + l + d;
  }

  lemma {:induction false} BlocksForAreSearch(es: EnumSpec, tiers: seq<Tier>, input: string, format: nat, eq: (string, string) -> bool)
    ensures EvalTryParse(BlocksFor(es, tiers), input, format, eq) == SearchTiers(es, tiers, input, format, eq)
  {
    if tiers != [] {
      var t := tiers[0];
      BlocksForAreSearch(es, tiers[1..], input, format, eq);
      if TierEmitted(es, t) {
        TierBlockIsLeastMatch(es.members, t, input, eq);
        var bs := BlocksFor(es, tiers);
        assert bs[0] == Block(t, Entries(es.members, t, |es.members|));
        assert bs[1..] == BlocksFor(es, tiers[1..]);
      } else {
        assert BlocksFor(es, tiers) == BlocksFor(es, tiers[1..]);
      }
    }
  }

  /** The generated `TryParse` is the tiered first-match search: for every
      enum description, input text, format value and comparison. */
  lemma TryParseIsTieredSearch(es: EnumSpec, input: string, format: nat, eq: (string, string) -> bool)
    ensures EvalTryParse(ParseBlocks(es), input, format, eq) == SearchTiers(es, TierOrder(), input, format, eq)
  {
    ParseBlocksAreBlocksFor(es);
    BlocksForAreSearch(es, TierOrder(), input, format, eq);
  }

  /** A reference search result is a matching member of an enabled tier. */
  lemma {:induction false} SearchTiersSound(es: EnumSpec, tiers: seq<Tier>, input: string, format: nat, eq: (string, string) -> bool)
    ensures var r := SearchTiers(es, tiers, input, format, eq);
      r.Some? ==> (r.value < |es.members| &&
        exists k :: 0 <= k < |tiers| && Enabled(es, format, tiers[k]) && MatchesAt(es.members, tiers[k], r.value, input, eq))
    ensures SearchTiers(es, tiers, input, format, eq).None? <==>
      forall k, j :: 0 <= k < |tiers| && 0 <= j < |es.members| && Enabled(es, format, tiers[k]) ==>
        !MatchesAt(es.members, tiers[k], j, input, eq)
  {
    if tiers != [] {
      SearchTiersSound(es, tiers[1..], input, format, eq);
      LeastMatchIsLeast(es.members, tiers[0], input, eq, 0);
      var r := SearchTiers(es, tiers, input, format, eq);
      if r.Some? && !(Enabled(es, format, tiers[0]) && LeastMatch(es.members, tiers[0], input, eq, 0).Some?) {
        var k :| 0 <= k < |tiers[1..]| && Enabled(es, format, tiers[1..][k]) &&
                 MatchesAt(es.members, tiers[1..][k], r.value, input, eq);
        assert tiers[k + 1] == tiers[1..][k];
      }
      if r.None? {
        forall k, j | 0 <= k < |tiers| && 0 <= j < |es.members| && Enabled(es, format, tiers[k])
          ensures !MatchesAt(es.members, tiers[k], j, input, eq)
        {
          if k > 0 { assert tiers[k] == tiers[1..][k - 1]; }
        }
      } else if !(Enabled(es, format, tiers[0]) && LeastMatch(es.members, tiers[0], input, eq, 0).Some?) {
        var k :| 0 <= k < |tiers[1..]| && Enabled(es, format, tiers[1..][k]) &&
                 MatchesAt(es.members, tiers[1..][k], r.value, input, eq);
        var j := r.value;
        assert tiers[k + 1] == tiers[1..][k];
      }
    }
  }

  /** `Parse` throws exactly when no enabled tier has a member whose text
      equals the input; otherwise it returns a member whose text in some
      enabled tier equals the input. */
  lemma ParseFailsIffNoTierMatches(es: EnumSpec, input: string, format: nat, eq: (string, string) -> bool)
    ensures var r := EvalParse(ParseBlocks(es), input, format, eq);
      && (r.Err? <==> forall t, j :: 0 <= j < |es.members| && Enabled(es, format, t) ==>
                                        !MatchesAt(es.members, t, j, input, eq))
      && (r.Ok? ==> r.value < |es.members| &&
                    exists t :: Enabled(es, format, t) && MatchesAt(es.members, t, r.value, input, eq))
  {
    var order := TierOrder();
    TryParseIsTieredSearch(es, input, format, eq);
    SearchTiersSound(es, order, input, format, eq);
    var r := EvalParse(ParseBlocks(es), input, format, eq);
    if r.Err? {
      forall t, j | 0 <= j < |es.members| && Enabled(es, format, t)
        ensures !MatchesAt(es.members, t, j, input, eq)
      {
        var k := match t
          case NameTier => 0
          case ValueTier => 1
          case DisplayNameTier => 2
          case DescriptionTier => 3;
        assert order[k] == t;
      }
    }
  }

  /** The tier bits are distinct single bits: a format holding exactly one
      tier's bit enables that tier and no other. */
  lemma TierBitsSelect(t: Tier, u: Tier)
    ensures HasFlag(EnumFormatCode.TierBit(t), EnumFormatCode.TierBit(u)) <==> t == u
  {
    assert And(1, 1) == 1 && And(2, 2) == 2 && And(4, 4) == 4 && And(8, 8) == 8;
    assert And(0, 1) == 0 && And(1, 0) == 0 && And(0, 2) == 0 && And(2, 0) == 0;
    assert And(1, 2) == 0 && And(2, 1) == 0 && And(1, 4) == 0 && And(4, 1) == 0;
    assert And(1, 8) == 0 && And(8, 1) == 0 && And(2, 4) == 0 && And(4, 2) == 0;
    assert And(2, 8) == 0 && And(8, 2) == 0 && And(4, 8) == 0 && And(8, 4) == 0;
  }

  /** Round trip for every emitted tier: parsing a member's text in that tier,
      with only that tier's format bit and ordinal comparison, yields that
      member, provided the text is written correctly by being pasted as it
      is (it is `LiteralSafe`) and no earlier member's literal in that tier
      denotes the same text. */
  lemma TierRoundTrip(es: EnumSpec, t: Tier, i: nat)
    requires TierEmitted(es, t)
    requires i < |es.members| && TextOf(es.members[i], t).Some?
    requires LiteralSafe(TextOf(es.members[i], t).value)
    requires forall j :: 0 <= j < i && TextOf(es.members[j], t).Some? ==>
               !ReadsAs(TextOf(es.members[j], t).value, TextOf(es.members[i], t).value)
    ensures EvalTryParse(ParseBlocks(es), TextOf(es.members[i], t).value, EnumFormatCode.TierBit(t), Ordinal) == Some(i)
  {
    var x := TextOf(es.members[i], t).value;
    var bit := EnumFormatCode.TierBit(t);
    ReadsAsItselfIffSafe(x);
    TryParseIsTieredSearch(es, x, bit, Ordinal);
    LeastMatchIsLeast(es.members, t, x, Ordinal, 0);
    forall u ensures Enabled(es, bit, u) <==> u == t { TierBitsSelect(t, u); }
    var order := TierOrder();
    assert t in order by {
      match t
      case NameTier => assert order[0] == t;
      case ValueTier => assert order[1] == t;
      case DisplayNameTier => assert order[2] == t;
      case DescriptionTier => assert order[3] == t;
    }
    SearchOnlyTier(es, order, x, bit, Ordinal, t);
    assert MatchesAt(es.members, t, i, x, Ordinal);
  }

  /** The value tier always round-trips: decimal texts need no escaping. */
  lemma ValueRoundTrip(es: EnumSpec, i: nat)
    requires i < |es.members|
    requires forall j :: 0 <= j < i ==> es.members[j].value != es.members[i].value
    ensures EvalTryParse(ParseBlocks(es), Radix.IntText(es.members[i].value), EnumFormatCode.TierBit(ValueTier), Ordinal) == Some(i)
  {
    var x := Radix.IntText(es.members[i].value);
    IntTextIsSafe(es.members[i].value);
    forall j | 0 <= j < i
      ensures !ReadsAs(Radix.IntText(es.members[j].value), x)
    {
      IntTextIsSafe(es.members[j].value);
      SafeReadsAsOnlyItself(Radix.IntText(es.members[j].value), x);
      Radix.IntTextInjective(es.members[j].value, es.members[i].value);
    }
    TierRoundTrip(es, ValueTier, i);
  }

  /** As written, a display name holding a backslash does not round-trip:
      the label `a\tb` is pasted as the literal `"a\tb"`, which denotes
      a, TAB, b, so parsing the declared text fails and the TAB text parses. */
  lemma UnescapedLabelMisparses()
    ensures var es := EnumSpec("E", "E", "E", None, true, true, false, false, "int",
                               [Member("A", 0, Some("a\\tb"), None)], Options(None, None, None, None, "EnumExtensions"));
      && EvalTryParse(ParseBlocks(es), "a\\tb", EnumFormatCode.TierBit(DisplayNameTier), Ordinal).None?
      && EvalTryParse(ParseBlocks(es), "a\tb", EnumFormatCode.TierBit(DisplayNameTier), Ordinal) == Some(0)
  {
    var es := EnumSpec("E", "E", "E", None, true, true, false, false, "int",
                       [Member("A", 0, Some("a\\tb"), None)], Options(None, None, None, None, "EnumExtensions"));
    var bit := EnumFormatCode.TierBit(DisplayNameTier);
    UnescapedTextsMisread();
    forall u ensures Enabled(es, bit, u) <==> u == DisplayNameTier { TierBitsSelect(DisplayNameTier, u); }
    var order := TierOrder();
    assert order[2] == DisplayNameTier;
    TryParseIsTieredSearch(es, "a\\tb", bit, Ordinal);
    SearchOnlyTier(es, order, "a\\tb", bit, Ordinal, DisplayNameTier);
    assert !MatchesAt(es.members, DisplayNameTier, 0, "a\\tb", Ordinal);
    TryParseIsTieredSearch(es, "a\tb", bit, Ordinal);
    SearchOnlyTier(es, order, "a\tb", bit, Ordinal, DisplayNameTier);
    assert MatchesAt(es.members, DisplayNameTier, 0, "a\tb", Ordinal);
  }

  /** When `t` is the only enabled tier, the search is the search of `t`. */
  lemma {:induction false} SearchOnlyTier(es: EnumSpec, tiers: seq<Tier>, input: string, format: nat, eq: (string, string) -> bool, t: Tier)
    requires forall u :: Enabled(es, format, u) <==> u == t
    requires t in tiers
    ensures SearchTiers(es, tiers, input, format, eq) == LeastMatch(es.members, t, input, eq, 0)
  {
    if tiers[0] != t {
      SearchOnlyTier(es, tiers[1..], input, format, eq, t);
    } else if LeastMatch(es.members, t, input, eq, 0).None? {
      SearchNoneEnabled(es, tiers[1..], input, format, eq, t);
    }
  }

  lemma {:induction false} SearchNoneEnabled(es: EnumSpec, tiers: seq<Tier>, input: string, format: nat, eq: (string, string) -> bool, t: Tier)
    requires forall u :: Enabled(es, format, u) <==> u == t
    requires LeastMatch(es.members, t, input, eq, 0).None?
    ensures SearchTiers(es, tiers, input, format, eq).None?
  {
    if tiers != [] {
      SearchNoneEnabled(es, tiers[1..], input, format, eq, t);
    }
  }

  /** With the name bit in the format (as in `Default`), a member's name
      parses back to that member when no earlier member has that name:
      the name tier is searched first. Names are C# identifiers, which need
      no escaping. */
  lemma NameRoundTrip(es: EnumSpec, i: nat, format: nat, eq: (string, string) -> bool)
    requires HasFlag(format, EnumFormatCode.TierBit(NameTier))
    requires forall s :: eq(s, s)
    requires IdentifierNames(es.members)
    requires i < |es.members|
    requires forall j :: 0 <= j < i ==> !eq(es.members[i].name, es.members[j].name)
    ensures EvalTryParse(ParseBlocks(es), es.members[i].name, format, eq) == Some(i)
  {
    var x := es.members[i].name;
    forall j | 0 <= j < |es.members|
      ensures ReadsAs(es.members[j].name, es.members[j].name)
    {
      ReadsAsItselfIffSafe(es.members[j].name);
    }
    TryParseIsTieredSearch(es, x, format, eq);
    LeastMatchIsLeast(es.members, NameTier, x, eq, 0);
    assert MatchesAt(es.members, NameTier, i, x, eq);
  }

  // ---------------------------------------------------------------------
  // GetDisplayNames and GetDescriptions.

  /** The array the generated `GetDisplayNames()` (`GetDescriptions()`)
      returns: one `(E.Member, "<text>")` element per pair, in order, whose
      string is what the pasted literal denotes (`None` where it does not
      compile). */
  function EvalPairs(pairs: seq<Entry>): seq<(nat, Option<string>)> {
    seq(|pairs|, k requires 0 <= k < |pairs| => (pairs[k].member, ReadBody(pairs[k].text)))
  }

  /** The pairs as declared: each member with its text as written in the
      attribute. */
  function DeclaredPairs(pairs: seq<Entry>): seq<(nat, Option<string>)> {
    seq(|pairs|, k requires 0 <= k < |pairs| => (pairs[k].member, Some(pairs[k].text)))
  }

  /** The generated array holds each member with a text in tier `t` (in
      order), with the string its literal denotes; it holds the declared
      texts exactly when none of them needs escaping. */
  lemma PairsReadAsDeclared(ms: seq<Member>, t: Tier)
    ensures |EvalPairs(Entries(ms, t, |ms|))| == |Entries(ms, t, |ms|)|
    ensures forall k :: 0 <= k < |Entries(ms, t, |ms|)| ==>
      && Entries(ms, t, |ms|)[k].member < |ms|
      && TextOf(ms[Entries(ms, t, |ms|)[k].member], t).Some?
      && EvalPairs(Entries(ms, t, |ms|))[k] ==
           (Entries(ms, t, |ms|)[k].member, ReadBody(TextOf(ms[Entries(ms, t, |ms|)[k].member], t).value))
    ensures EvalPairs(Entries(ms, t, |ms|)) == DeclaredPairs(Entries(ms, t, |ms|)) <==>
      forall i :: 0 <= i < |ms| && TextOf(ms[i], t).Some? ==> LiteralSafe(TextOf(ms[i], t).value)
  {
    var es := Entries(ms, t, |ms|);
    EntriesSound(ms, t, |ms|);
    if EvalPairs(es) == DeclaredPairs(es) {
      forall i | 0 <= i < |ms| && TextOf(ms[i], t).Some?
        ensures LiteralSafe(TextOf(ms[i], t).value)
      {
        EntriesComplete(ms, t, |ms|, i);
        var k :| 0 <= k < |es| && es[k].member == i;
        assert EvalPairs(es)[k] == DeclaredPairs(es)[k];
        ReadsAsItselfIffSafe(es[k].text);
      }
    }
    if forall i :: 0 <= i < |ms| && TextOf(ms[i], t).Some? ==> LiteralSafe(TextOf(ms[i], t).value) {
      forall k | 0 <= k < |es|
        ensures EvalPairs(es)[k] == DeclaredPairs(es)[k]
      {
        ReadsAsItselfIffSafe(es[k].text);
      }
    }
  }

  // ---------------------------------------------------------------------
  // IsDefined.

  /** The generated `IsDefined(input)` for an input of the underlying type
      `k`; `&` and `==` act on the two's-complement patterns. */
  function EvalIsDefined(e: IsDefinedExpr, k: IntKind, input: int): bool
    requires ValidKind(k) && InRange(k, input)
  {
    match e
    case AlwaysFalse => false
    case ZeroTest => input == 0
    case MaskTest(b) => And(Radix.FromText(b, 2), Pattern(k, input)) == Pattern(k, input)
  }

  lemma WithinZero(x: nat)
    ensures Within(x, 0) <==> x == 0
  {
    NoBitOfZero(0);
    if Within(x, 0) {
      forall i: nat ensures Bit(x, i) == Bit(0, i) { NoBitOfZero(i); }
      BitsDetermine(x, 0);
    }
    forall i: nat ensures !Bit(0, i) { NoBitOfZero(i); }
  }

  lemma MaskBelow(ms: seq<Member>)
    requires AllConvert(ms)
    ensures Mask(ms) < Pow2(64)
  {
    var vs := Values(ms);
    forall j | 0 <= j < |vs| ensures vs[j] < Pow2(64) {
      assert ToUInt64(ms[j].value).Some?;
    }
    OrAllBelow(vs, 64);
  }

  /** The binary literal after `0b` denotes the OR of all member values, is
      written without leading zeros, and has at most 64 digits. */
  lemma MaskLiteralDenotesMask(ms: seq<Member>)
    requires IsDefinedOf(ms).Ok? && IsDefinedOf(ms).value.MaskTest?
    ensures var b := IsDefinedOf(ms).value.binary;
      && Radix.FromText(b, 2) == Mask(ms)
      && Radix.Canonical(b, 2) && b[0] == '1'
      && |b| <= 64
  {
    var m := Mask(ms);
    Radix.TextRoundTrip(m, 2);
    Radix.TextCanonical(m, 2);
    MaskBelow(ms);
    Radix.BinaryLength(m, 64);
  }

  /** `IsDefined` accepts exactly the inputs whose bits all lie in the OR of
      the member values, for flags and non-flags enums alike, and nothing
      when there are no members. */
  lemma IsDefinedIsMaskTest(ms: seq<Member>, k: IntKind, input: int)
    requires IsDefinedOf(ms).Ok?
    requires ValidKind(k) && InRange(k, input)
    ensures EvalIsDefined(IsDefinedOf(ms).value, k, input) <==>
      |ms| > 0 && Within(Pattern(k, input), Mask(ms))
  {
    if |ms| > 0 {
      var m := Mask(ms);
      if m == 0 {
        WithinZero(Pattern(k, input));
        assert InRange(k, 0);
        PatternInjective(k, input, 0);
      } else {
        Radix.TextRoundTrip(m, 2);
        MaskTestIsWithin(m, Pattern(k, input));
      }
    }
  }

  /** Every member value is defined. */
  lemma IsDefinedAcceptsMembers(ms: seq<Member>, k: IntKind, i: nat)
    requires IsDefinedOf(ms).Ok?
    requires ValidKind(k) && i < |ms| && InRange(k, ms[i].value)
    ensures EvalIsDefined(IsDefinedOf(ms).value, k, ms[i].value)
  {
    IsDefinedIsMaskTest(ms, k, ms[i].value);
    OperandWithinOrAll(Values(ms), i);
  }

  /** With a signed underlying type, no negative input is defined. */
  lemma IsDefinedRejectsNegative(ms: seq<Member>, k: IntKind, input: int)
    requires IsDefinedOf(ms).Ok?
    requires ValidKind(k) && k.signed && InRange(k, input) && input < 0
    requires forall i :: 0 <= i < |ms| ==> InRange(k, ms[i].value)
    ensures !EvalIsDefined(IsDefinedOf(ms).value, k, input)
  {
    IsDefinedIsMaskTest(ms, k, input);
    if |ms| > 0 {
      var w := k.width;
      OrAllBelow(Values(ms), w - 1);
      HighBitClear(Mask(ms), w - 1);
      NegativeHasSignBit(k, input);
    }
  }
}
