/** What the extension methods written by `ExtensionCode.Generate` do when
    they run, and how they relate to the generated `Enums` class. */
module ExtensionSemantics {
  import opened Wrappers
  import opened Bits
  import Radix
  import opened EnumModel
  import EnumFormatCode
  import EnumClassCode
  import EnumClassSemantics
  import opened CSharpLiteral

  /** A `switch (value)` over `case <Enum>.<member>:` arms: the first arm
      whose member has the value switched on. */
  function Dispatch(cases: seq<Entry>, ms: seq<Member>, v: int): Option<Entry> {
    if cases == [] then None
    else if cases[0].member < |ms| && ms[cases[0].member].value == v then Some(cases[0])
    else Dispatch(cases[1..], ms, v)
  }

  /** `GetString(value)`: the string the arm's literal `"<name>"` denotes, or
      `None` for the fallback arm `_ => value.ToString()` (and for a literal
      that does not compile, which an identifier never gives). */
  function EvalGetString(arms: seq<Entry>, ms: seq<Member>, v: int): Option<string> {
    match Dispatch(arms, ms, v)
    case Some(e) => ReadBody(e.text)
    case None => None
  }

  /** `TryGetUnderlyingValue(value, out underlyingValue)`: the literal of the
      matching case, read as C# reads it, or `default` and `false`. */
  function EvalTryGetUnderlyingValue(cases: seq<Entry>, ms: seq<Member>, v: int): (bool, int) {
    match Dispatch(cases, ms, v)
    case Some(e) => (true, Radix.IntOfText(e.text))
    case None => (false, 0)
  }

  /** `GetUnderlyingValue(value)`: throws `ArgumentOutOfRangeException`
      exactly when `TryGetUnderlyingValue` returns false. The `Err` text is
      the one string given to the exception, which fills its `ParamName`. */
  function EvalGetUnderlyingValue(cases: seq<Entry>, ms: seq<Member>, v: int): (r: Result<int>)
    ensures r.Err? <==> !EvalTryGetUnderlyingValue(cases, ms, v).0
    ensures r.Ok? ==> r.value == EvalTryGetUnderlyingValue(cases, ms, v).1
  {
    var (found, u) := EvalTryGetUnderlyingValue(cases, ms, v);
    if found then Ok(u) else Err("Invalid value " + Radix.IntText(v))
  }

  /** `TryGetDisplayName` / `TryGetDescription`: the string denoted by the
      matching case's literal `"<text>"`, into which the text is pasted as it
      is, or `null` and `false`. A literal that does not compile is shown
      as `None` too. */
  function EvalTryGetText(cases: seq<Entry>, ms: seq<Member>, v: int): Option<string> {
    match Dispatch(cases, ms, v)
    case Some(e) => ReadBody(e.text)
    case None => None
  }

  /** `GetDisplayName` / `GetDescription`: throws exactly when the `Try`
      variant returns false, with the value as the exception's `ParamName`. */
  function EvalGetText(cases: seq<Entry>, ms: seq<Member>, v: int): (r: Result<string>)
    ensures r.Err? <==> EvalTryGetText(cases, ms, v).None?
    ensures r.Ok? ==> EvalTryGetText(cases, ms, v) == Some(r.value)
  {
    match EvalTryGetText(cases, ms, v)
    case Some(x) => Ok(x)
    case None => Err("Invalid value " + Radix.IntText(v))
  }

  /** `IsFlagSet(value, flag)`: `((ut)value & (ut)flag) == (ut)flag` on the
      two's-complement patterns of the underlying type `k`. */
  function EvalIsFlagSet(k: IntKind, value: int, flag: int): bool
    requires ValidKind(k) && InRange(k, value) && InRange(k, flag)
  {
    HasFlag(Pattern(k, value), Pattern(k, flag))
  }

  /** Member `i` has value `v` and a text in tier `t`. */
  predicate KeyAt(ms: seq<Member>, t: Tier, i: nat, v: int)
    requires i < |ms|
  {
    ms[i].value == v && TextOf(ms[i], t).Some?
  }

  lemma {:induction false} DispatchAppend(a: seq<Entry>, b: seq<Entry>, ms: seq<Member>, v: int)
    ensures Dispatch(a + b, ms, v) == if Dispatch(a, ms, v).Some? then Dispatch(a, ms, v) else Dispatch(b, ms, v)
  {
    if a == [] {
      assert a + b == b;
    } else {
      assert (a + b)[1..] == a[1..] + b;
      DispatchAppend(a[1..], b, ms, v);
    }
  }

  /** A generated switch over the members having a text in tier `t` selects
      the first such member with the value switched on, and yields its text;
      it selects nothing when no such member has that value. */
  lemma {:induction false} DispatchFindsFirst(ms: seq<Member>, t: Tier, n: nat, v: int)
    requires n <= |ms|
    ensures var r := Dispatch(Entries(ms, t, n), ms, v);
      && (r.Some? ==> r.value.member < n && KeyAt(ms, t, r.value.member, v) &&
                      TextOf(ms[r.value.member], t) == Some(r.value.text) &&
                      forall j :: 0 <= j < r.value.member ==> !KeyAt(ms, t, j, v))
      && (r.None? ==> forall j :: 0 <= j < n ==> !KeyAt(ms, t, j, v))
  {
    if n > 0 {
      DispatchFindsFirst(ms, t, n - 1, v);
      EntriesSnoc(ms, t, n);
      var tail := if TextOf(ms[n - 1], t).Some? then [Entry(n - 1, TextOf(ms[n - 1], t).value)] else [];
      assert Entries(ms, t, n) == Entries(ms, t, n - 1) + tail;
      DispatchAppend(Entries(ms, t, n - 1), tail, ms, v);
      if tail != [] {
        assert tail[1..] == [];
      }
    }
  }

  /** `GetString` maps each member's value to that member's name and is
      total: any other value takes the `ToString()` fallback. */
  lemma GetStringNamesMembers(ms: seq<Member>, v: int)
    requires DistinctValues(ms)
    requires IdentifierNames(ms)
    ensures forall i :: 0 <= i < |ms| && ms[i].value == v ==>
      EvalGetString(Entries(ms, NameTier, |ms|), ms, v) == Some(ms[i].name)
    ensures (forall i :: 0 <= i < |ms| ==> ms[i].value != v) ==>
      EvalGetString(Entries(ms, NameTier, |ms|), ms, v).None?
  {
    DispatchFindsFirst(ms, NameTier, |ms|, v);
    var r := Dispatch(Entries(ms, NameTier, |ms|), ms, v);
    forall i | 0 <= i < |ms| && ms[i].value == v
      ensures EvalGetString(Entries(ms, NameTier, |ms|), ms, v) == Some(ms[i].name)
    {
      assert KeyAt(ms, NameTier, i, v);
      var m := r.value.member;
      assert m == i;
      ReadsAsItselfIffSafe(ms[i].name);
    }
  }

  /** `TryGetUnderlyingValue` succeeds exactly on the members' values and
      then yields the value itself; otherwise it yields `default` and false. */
  lemma TryGetUnderlyingValueMeaning(ms: seq<Member>, v: int)
    ensures EvalTryGetUnderlyingValue(Entries(ms, ValueTier, |ms|), ms, v) ==
      if exists i :: 0 <= i < |ms| && ms[i].value == v then (true, v) else (false, 0)
  {
    DispatchFindsFirst(ms, ValueTier, |ms|, v);
    var r := Dispatch(Entries(ms, ValueTier, |ms|), ms, v);
    if r.Some? {
      Radix.IntTextRoundTrip(v);
    } else {
      forall i | 0 <= i < |ms| ensures ms[i].value != v {
        assert !KeyAt(ms, ValueTier, i, v);
      }
    }
  }

  /** The display-name (or description) lookup of a member's value yields
      what that member's text denotes as a literal: the text itself when it
      needs no escaping, something else (or no program) when it does. It
      fails for members without a text and for values that are no member's. */
  lemma TextLookupMeaning(ms: seq<Member>, t: Tier, v: int)
    requires t == DisplayNameTier || t == DescriptionTier
    requires DistinctValues(ms)
    ensures forall i :: 0 <= i < |ms| && ms[i].value == v ==>
      EvalTryGetText(Entries(ms, t, |ms|), ms, v) ==
        if TextOf(ms[i], t).Some? then ReadBody(TextOf(ms[i], t).value) else None
    ensures forall i :: 0 <= i < |ms| && ms[i].value == v && TextOf(ms[i], t).Some? ==>
      (EvalTryGetText(Entries(ms, t, |ms|), ms, v) == TextOf(ms[i], t) <==> LiteralSafe(TextOf(ms[i], t).value))
    ensures (forall i :: 0 <= i < |ms| ==> ms[i].value != v) ==>
      EvalTryGetText(Entries(ms, t, |ms|), ms, v).None?
  {
    DispatchFindsFirst(ms, t, |ms|, v);
    var r := Dispatch(Entries(ms, t, |ms|), ms, v);
    forall i | 0 <= i < |ms| && ms[i].value == v
      ensures EvalTryGetText(Entries(ms, t, |ms|), ms, v) ==
        if TextOf(ms[i], t).Some? then ReadBody(TextOf(ms[i], t).value) else None
    {
      if r.Some? {
        var m := r.value.member;
        assert m == i;
      } else {
        assert !KeyAt(ms, t, i, v);
      }
    }
    forall i | 0 <= i < |ms| && ms[i].value == v && TextOf(ms[i], t).Some?
      ensures EvalTryGetText(Entries(ms, t, |ms|), ms, v) == TextOf(ms[i], t) <==> LiteralSafe(TextOf(ms[i], t).value)
    {
      ReadsAsItselfIffSafe(TextOf(ms[i], t).value);
    }
  }

  /** `IsFlagSet(value, flag)` holds exactly when every bit of `flag` is set
      in `value`. */
  lemma IsFlagSetMeaning(k: IntKind, value: int, flag: int)
    requires ValidKind(k) && InRange(k, value) && InRange(k, flag)
    ensures EvalIsFlagSet(k, value, flag) <==> Within(Pattern(k, flag), Pattern(k, value))
  {
    MaskTestIsWithin(Pattern(k, value), Pattern(k, flag));
  }

  /** Round trip across the two generated classes: `GetString` of a member,
      parsed back with the name tier enabled, yields that member, when
      member values and names are distinct. */
  lemma GetStringThenParse(es: EnumSpec, i: nat, format: nat)
    requires DistinctValues(es.members)
    requires IdentifierNames(es.members)
    requires forall j, l :: 0 <= j < l < |es.members| ==> es.members[j].name != es.members[l].name
    requires HasFlag(format, EnumFormatCode.TierBit(NameTier))
    requires i < |es.members|
    ensures var s := EvalGetString(Entries(es.members, NameTier, |es.members|), es.members, es.members[i].value);
      s.Some? && EnumClassSemantics.EvalTryParse(EnumClassCode.ParseBlocks(es), s.value, format, Ordinal) == Some(i)
  {
    GetStringNamesMembers(es.members, es.members[i].value);
    EnumClassSemantics.NameRoundTrip(es, i, format, Ordinal);
  }
}
