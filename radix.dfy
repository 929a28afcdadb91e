/** Digit strings. `ToText(n, 2)` is the digit string the generator writes
    after `0b` (`Convert.ToString(..., 2)`), and `IntText` is how a member's
    underlying value is written into generated code (`{{enumVal.Value}}`),
    taken here in the invariant culture. */
module Radix {
  import opened Bits

  function DigitChar(d: nat): (c: char)
    requires d < 10
    ensures '0' <= c <= '9'
  {
    ('0' as int + d) as char
  }

  function DigitValue(c: char): nat {
    if '0' <= c <= '9' then c as int - '0' as int else 0
  }

  /** `s` is a non-empty string of digits below `base`, without leading zero
      unless it is "0" itself. */
  predicate Canonical(s: string, base: nat) {
    && |s| >= 1
    && (forall k :: 0 <= k < |s| ==> '0' <= s[k] && (s[k] as int) < '0' as int + base)
    && (|s| > 1 ==> s[0] != '0')
  }

  /** The digits of `n` in `base`, most significant first. */
  function ToText(n: nat, base: nat): string
    requires 2 <= base <= 10
    decreases n
  {
    if n < base then [DigitChar(n)] else ToText(n / base, base) + [DigitChar(n % base)]
  }

  /** The value that a digit string denotes in `base`. */
  function FromText(s: string, base: nat): nat {
    if s == [] then 0 else FromText(s[..|s| - 1], base) * base + DigitValue(s[|s| - 1])
  }

  lemma FromTextSnoc(q: string, c: char, base: nat)
    ensures FromText(q + [c], base) == FromText(q, base) * base + DigitValue(c)
  {
    assert (q + [c])[..|q|] == q;
  }

  lemma DivMod(n: nat, base: nat)
    requires base >= 2
    ensures (n / base) * base + n % base == n
    ensures n >= base ==> 0 < n / base < n
  {
  }

  /** Writing a number out and reading it back yields the number. */
  lemma {:induction false} TextRoundTrip(n: nat, base: nat)
    requires 2 <= base <= 10
    ensures FromText(ToText(n, base), base) == n
    decreases n
  {
    if n >= base {
      DivMod(n, base);
      TextRoundTrip(n / base, base);
      FromTextSnoc(ToText(n / base, base), DigitChar(n % base), base);
    }
  }

  /** The written form is canonical: digits only, no leading zero. */
  lemma {:induction false} TextCanonical(n: nat, base: nat)
    requires 2 <= base <= 10
    ensures Canonical(ToText(n, base), base)
    ensures n > 0 ==> ToText(n, base)[0] != '0'
    decreases n
  {
    if n >= base {
      DivMod(n, base);
      TextCanonical(n / base, base);
    }
  }

  /** A positive number below 2^k has at most k binary digits. */
  lemma {:induction false} BinaryLength(n: nat, k: nat)
    requires 0 < n < Pow2(k)
    ensures |ToText(n, 2)| <= k
    decreases n
  {
    if n >= 2 {
      BinaryLength(n / 2, k - 1);
    }
  }

  /** A signed decimal, with a leading '-' for negative values. */
  function IntText(v: int): string {
    if v < 0 then "-" + ToText(-v, 10) else ToText(v, 10)
  }

  /** Reading an `IntText` back, as the C# compiler reads the literal. */
  function IntOfText(s: string): int {
    if |s| > 0 && s[0] == '-' then -(FromText(s[1..], 10) as int) else FromText(s, 10)
  }

  lemma IntTextRoundTrip(v: int)
    ensures IntOfText(IntText(v)) == v
  {
    if v < 0 {
      TextRoundTrip(-v, 10);
      TextCanonical(-v, 10);
      assert IntText(v)[1..] == ToText(-v, 10);
    } else {
      TextRoundTrip(v, 10);
      TextCanonical(v, 10);
    }
  }

  /** Distinct values are written as distinct texts. */
  lemma IntTextInjective(a: int, b: int)
    ensures IntText(a) == IntText(b) <==> a == b
  {
    IntTextRoundTrip(a);
    IntTextRoundTrip(b);
  }
}
