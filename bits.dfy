/** Bit-level view of non-negative integers. It stands in for the `ulong`
    arithmetic of the generator (`value |= ...`) and for the `&` tests of the
    generated code, where a value of a signed or unsigned underlying type is
    read through its two's-complement bit pattern. */
module Bits {

  function Pow2(k: nat): (r: nat)
    ensures r >= 1
  {
    if k == 0 then 1 else 2 * Pow2(k - 1)
  }

  /** Bit `i` of `n`, bit 0 being the least significant one. */
  predicate Bit(n: nat, i: nat) {
    if i == 0 then n % 2 == 1 else Bit(n / 2, i - 1)
  }

  /** Every bit set in `x` is also set in `m`. */
  ghost predicate Within(x: nat, m: nat) {
    forall i: nat :: Bit(x, i) ==> Bit(m, i)
  }

  /** Bitwise OR (C# `|` on `ulong`). */
  function Or(a: nat, b: nat): nat
    decreases a + b
  {
    if a == 0 then b
    else if b == 0 then a
    else 2 * Or(a / 2, b / 2) + (if a % 2 == 1 || b % 2 == 1 then 1 else 0)
  }

  /** Bitwise AND (C# `&`). */
  function And(a: nat, b: nat): nat
    decreases a + b
  {
    if a == 0 || b == 0 then 0
    else 2 * And(a / 2, b / 2) + (if a % 2 == 1 && b % 2 == 1 then 1 else 0)
  }

  /** `xs[0] | xs[1] | ... `, accumulated left to right from 0. */
  function OrAll(xs: seq<nat>): nat {
    if xs == [] then 0 else Or(OrAll(xs[..|xs| - 1]), xs[|xs| - 1])
  }

  /** C#'s `Enum.HasFlag` and the generated `IsFlagSet`: `(value & flag) == flag`. */
  predicate HasFlag(value: nat, flag: nat) {
    And(value, flag) == flag
  }

  lemma {:induction false} NoBitOfZero(i: nat)
    ensures !Bit(0, i)
  {
    if i > 0 { NoBitOfZero(i - 1); }
  }

  lemma {:induction false} BitOfOr(a: nat, b: nat, i: nat)
    ensures Bit(Or(a, b), i) <==> Bit(a, i) || Bit(b, i)
    decreases a + b
  {
    NoBitOfZero(i);
    if a != 0 && b != 0 {
      var h := Or(a / 2, b / 2);
      var d := if a % 2 == 1 || b % 2 == 1 then 1 else 0;
      assert (2 * h + d) % 2 == d && (2 * h + d) / 2 == h;
      if i > 0 { BitOfOr(a / 2, b / 2, i - 1); }
    }
  }

  lemma {:induction false} BitOfAnd(a: nat, b: nat, i: nat)
    ensures Bit(And(a, b), i) <==> Bit(a, i) && Bit(b, i)
    decreases a + b
  {
    NoBitOfZero(i);
    if a != 0 && b != 0 {
      var h := And(a / 2, b / 2);
      var d := if a % 2 == 1 && b % 2 == 1 then 1 else 0;
      assert (2 * h + d) % 2 == d && (2 * h + d) / 2 == h;
      if i > 0 { BitOfAnd(a / 2, b / 2, i - 1); }
    } else if a == 0 {
      NoBitOfZero(i);
    } else {
      NoBitOfZero(i);
    }
  }

  /** A number is determined by its bits. */
  lemma {:induction false} BitsDetermine(a: nat, b: nat)
    requires forall i: nat :: Bit(a, i) == Bit(b, i)
    ensures a == b
    decreases a + b
  {
    if a + b > 0 {
      assert Bit(a, 0) == Bit(b, 0);
      forall i: nat
        ensures Bit(a / 2, i) == Bit(b / 2, i)
      {
        assert Bit(a, i + 1) == Bit(b, i + 1);
      }
      BitsDetermine(a / 2, b / 2);
    }
  }

  /** `(m & x) == x` holds exactly when every bit of `x` lies in `m`. */
  lemma MaskTestIsWithin(m: nat, x: nat)
    ensures And(m, x) == x <==> Within(x, m)
  {
    forall i: nat
      ensures Bit(And(m, x), i) <==> Bit(m, i) && Bit(x, i)
    {
      BitOfAnd(m, x, i);
    }
    if Within(x, m) {
      BitsDetermine(And(m, x), x);
    }
  }

  /** A bit of the accumulated OR is a bit of one of the operands. */
  lemma {:induction false} BitOfOrAll(xs: seq<nat>, i: nat)
    ensures Bit(OrAll(xs), i) <==> exists j :: 0 <= j < |xs| && Bit(xs[j], i)
  {
    if xs == [] {
      NoBitOfZero(i);
    } else {
      var init := xs[..|xs| - 1];
      BitOfOrAll(init, i);
      BitOfOr(OrAll(init), xs[|xs| - 1], i);
      if Bit(OrAll(xs), i) {
        if Bit(OrAll(init), i) {
          var j :| 0 <= j < |init| && Bit(init[j], i);
          assert xs[j] == init[j];
        }
      }
      if exists j :: 0 <= j < |xs| && Bit(xs[j], i) {
        var j :| 0 <= j < |xs| && Bit(xs[j], i);
        if j < |xs| - 1 {
          assert init[j] == xs[j];
        }
      }
    }
  }

  /** Every operand of the accumulated OR lies within it. */
  lemma OperandWithinOrAll(xs: seq<nat>, j: nat)
    requires j < |xs|
    ensures Within(xs[j], OrAll(xs))
  {
    forall i: nat | Bit(xs[j], i)
      ensures Bit(OrAll(xs), i)
    {
      BitOfOrAll(xs, i);
    }
  }

  lemma {:induction false} OrBelow(a: nat, b: nat, k: nat)
    requires a < Pow2(k) && b < Pow2(k)
    ensures Or(a, b) < Pow2(k)
  {
    if k > 0 && a != 0 && b != 0 {
      OrBelow(a / 2, b / 2, k - 1);
    }
  }

  /** ORing values below 2^k never sets bit k or above. */
  lemma {:induction false} OrAllBelow(xs: seq<nat>, k: nat)
    requires forall j :: 0 <= j < |xs| ==> xs[j] < Pow2(k)
    ensures OrAll(xs) < Pow2(k)
  {
    if xs != [] {
      OrAllBelow(xs[..|xs| - 1], k);
      OrBelow(OrAll(xs[..|xs| - 1]), xs[|xs| - 1], k);
    }
  }

  lemma {:induction false} TopBitSet(n: nat, k: nat)
    requires Pow2(k) <= n < Pow2(k + 1)
    ensures Bit(n, k)
  {
    if k > 0 { TopBitSet(n / 2, k - 1); }
  }

  lemma {:induction false} HighBitClear(n: nat, k: nat)
    requires n < Pow2(k)
    ensures !Bit(n, k)
  {
    if k > 0 { HighBitClear(n / 2, k - 1); }
  }

  /** An integer type of the host language: its width in bits and signedness. */
  datatype IntKind = IntKind(width: nat, signed: bool)

  predicate ValidKind(k: IntKind) {
    k.width == 8 || k.width == 16 || k.width == 32 || k.width == 64
  }

  predicate InRange(k: IntKind, v: int)
    requires ValidKind(k)
  {
    if k.signed then -(Pow2(k.width - 1) as int) <= v < Pow2(k.width - 1)
    else 0 <= v < Pow2(k.width)
  }

  lemma Pow2Step(k: nat)
    requires k > 0
    ensures Pow2(k) == 2 * Pow2(k - 1)
  {
  }

  /** The two's-complement bit pattern of an in-range value `v` of kind `k`:
      `v` itself when non-negative, `v + 2^width` otherwise. */
  function Pattern(k: IntKind, v: int): (r: nat)
    requires ValidKind(k) && InRange(k, v)
    ensures r < Pow2(k.width)
  {
    Pow2Step(k.width);
    if v < 0 then v + Pow2(k.width) else v
  }

  /** The pattern of a negative value of a signed type has its sign bit set. */
  lemma NegativeHasSignBit(k: IntKind, v: int)
    requires ValidKind(k) && k.signed && InRange(k, v) && v < 0
    ensures Bit(Pattern(k, v), k.width - 1)
  {
    Pow2Step(k.width);
    TopBitSet(Pattern(k, v), k.width - 1);
  }

  /** Patterns of in-range values are distinct, so comparing patterns is
      comparing values. */
  lemma PatternInjective(k: IntKind, a: int, b: int)
    requires ValidKind(k) && InRange(k, a) && InRange(k, b)
    ensures Pattern(k, a) == Pattern(k, b) <==> a == b
  {
    if k.signed { Pow2Step(k.width); }
  }
}
