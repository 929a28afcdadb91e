/** How the C# compiler reads the body of a regular string literal `"..."`,
    which is where the generators paste member names, values, display names
    and descriptions. `ReadBody` gives the string the literal denotes, or
    `None` when the literal does not compile. */
module CSharpLiteral {
  import opened Wrappers
  import Radix

  /** The characters C# treats as line breaks; none may stand raw inside a
      regular string literal. */
  predicate IsNewLine(c: char) {
    c == '\r' || c == '\n' || c == '\U{85}' || c == '\U{2028}' || c == '\U{2029}'
  }

  /** `s` can stand between quotes as it is and means itself: it holds no
      quote, no backslash and no line break. */
  predicate LiteralSafe(s: string) {
    forall k :: 0 <= k < |s| ==> s[k] != '"' && s[k] != '\\' && !IsNewLine(s[k])
  }

  /** The character a one-letter escape `\c` stands for. */
  function SimpleEscape(c: char): Option<char> {
    if c == '\'' then Some('\'')
    else if c == '"' then Some('"')
    else if c == '\\' then Some('\\')
    else if c == '0' then Some('\0')
    else if c == 'a' then Some('\U{7}')
    else if c == 'b' then Some('\U{8}')
    else if c == 'f' then Some('\U{C}')
    else if c == 'n' then Some('\n')
    else if c == 'r' then Some('\r')
    else if c == 't' then Some('\t')
    else if c == 'v' then Some('\U{B}')
    else None
  }

  predicate IsHexDigit(c: char) {
    ('0' <= c <= '9') || ('a' <= c <= 'f') || ('A' <= c <= 'F')
  }

  function HexDigit(c: char): (d: nat)
    requires IsHexDigit(c)
    ensures d < 16
  {
    if '0' <= c <= '9' then c as int - '0' as int
    else if 'a' <= c <= 'f' then c as int - 'a' as int + 10
    else c as int - 'A' as int + 10
  }

  predicate HexQuad(s: string) {
    |s| == 4 && IsHexDigit(s[0]) && IsHexDigit(s[1]) && IsHexDigit(s[2]) && IsHexDigit(s[3])
  }

  /** The code unit named by the four hex digits of a `\uXXXX` escape. */
  function HexQuadValue(s: string): (v: nat)
    requires HexQuad(s)
    ensures v < 0x1_0000
  {
    ((HexDigit(s[0]) * 16 + HexDigit(s[1])) * 16 + HexDigit(s[2])) * 16 + HexDigit(s[3])
  }

  function Prepend(c: char, rest: Option<string>): (r: Option<string>)
    ensures r.Some? <==> rest.Some?
    ensures r.Some? ==> r.value == [c] + rest.value
  {
    match rest
    case None => None
    case Some(t) => Some([c] + t)
  }

  /** The string a regular literal with body `s` denotes. A raw line break, a
      dangling backslash or an unknown escape does not compile. A raw quote
      closes the literal early and C# reads the rest as code; that is not
      modelled, and `None` stands for it too (see README). `\uXXXX` is read
      for code units outside the surrogate range; `\x` and `\U` escapes are
      not read here. */
  function ReadBody(s: string): (r: Option<string>)
    ensures r.Some? ==> |r.value| <= |s|
    decreases |s|
  {
    if s == [] then Some([])
    else if s[0] == '"' || IsNewLine(s[0]) then None
    else if s[0] != '\\' then Prepend(s[0], ReadBody(s[1..]))
    else if |s| < 2 then None
    else if SimpleEscape(s[1]).Some? then Prepend(SimpleEscape(s[1]).value, ReadBody(s[2..]))
    else if s[1] == 'u' && |s| >= 6 && HexQuad(s[2..6]) && !(0xD800 <= HexQuadValue(s[2..6]) < 0xE000) then
      Prepend(HexQuadValue(s[2..6]) as char, ReadBody(s[6..]))
    else None
  }

  /** A literal with body `lit` denotes `x`. */
  predicate ReadsAs(lit: string, x: string) {
    ReadBody(lit) == Some(x)
  }

  /** A literal reads as its own body exactly when the body is safe: any escape
      is longer than the character it stands for. */
  lemma {:induction false} ReadsAsItselfIffSafe(s: string)
    ensures ReadsAs(s, s) <==> LiteralSafe(s)
    decreases |s|
  {
    if s != [] {
      ReadsAsItselfIffSafe(s[1..]);
      if s[0] != '"' && !IsNewLine(s[0]) && s[0] != '\\' {
        assert [s[0]] + s[1..] == s;
        if ReadsAs(s, s) {
          assert ReadBody(s[1..]) == Some(s[1..]);
          forall k | 0 <= k < |s|
            ensures s[k] != '"' && s[k] != '\\' && !IsNewLine(s[k])
          {
            if k > 0 {
              assert s[k] == s[1..][k - 1];
            }
          }
        }
        if LiteralSafe(s) {
          assert LiteralSafe(s[1..]) by {
            forall k | 0 <= k < |s[1..]|
              ensures s[1..][k] != '"' && s[1..][k] != '\\' && !IsNewLine(s[1..][k])
            {
              assert s[1..][k] == s[k + 1];
            }
          }
        }
      } else {
        assert !LiteralSafe(s) by {
          assert s[0] == '"' || s[0] == '\\' || IsNewLine(s[0]);
        }
      }
    }
  }

  /** A safe text reads as itself, and as nothing else. */
  lemma SafeReadsAsOnlyItself(s: string, x: string)
    requires LiteralSafe(s)
    ensures ReadsAs(s, x) <==> x == s
  {
    ReadsAsItselfIffSafe(s);
  }

  /** Decimal texts of integers are safe: digits and a leading minus sign. */
  lemma IntTextIsSafe(v: int)
    ensures LiteralSafe(Radix.IntText(v))
  {
    if v < 0 {
      Radix.TextCanonical(-v, 10);
      var t := Radix.ToText(-v, 10);
      assert Radix.IntText(v) == "-" + t;
      forall k | 0 <= k < |Radix.IntText(v)|
        ensures Radix.IntText(v)[k] != '"' && Radix.IntText(v)[k] != '\\' && !IsNewLine(Radix.IntText(v)[k])
      {
        if k > 0 {
          assert Radix.IntText(v)[k] == t[k - 1];
        }
      }
    } else {
      Radix.TextCanonical(v, 10);
    }
  }

  /** The escape sequence that makes `c` stand for itself in a literal. */
  function EscapeChar(c: char): string {
    if c == '"' then "\\\""
    else if c == '\\' then "\\\\"
    else if c == '\r' then "\\r"
    else if c == '\n' then "\\n"
    else if c == '\U{85}' then "\\u0085"
    else if c == '\U{2028}' then "\\u2028"
    else if c == '\U{2029}' then "\\u2029"
    else [c]
  }

  /** A text rewritten so that a regular literal with this body denotes it. */
  function Escape(s: string): string {
    if s == [] then [] else EscapeChar(s[0]) + Escape(s[1..])
  }

  lemma EscapeCharReads(c: char, rest: string)
    ensures ReadBody(EscapeChar(c) + rest) == Prepend(c, ReadBody(rest))
  {
    var s := EscapeChar(c) + rest;
    if c == '"' || c == '\\' || c == '\r' || c == '\n' {
      assert s[2..] == rest;
    } else if c == '\U{85}' || c == '\U{2028}' || c == '\U{2029}' {
      assert s[6..] == rest;
      assert s[2..6] == EscapeChar(c)[2..6];
    } else {
      assert s[1..] == rest;
    }
  }

  /** Escaping is undone by the compiler: the literal denotes the text. */
  lemma {:induction false} EscapeRoundTrip(s: string)
    ensures ReadsAs(Escape(s), s)
    decreases |s|
  {
    if s != [] {
      EscapeRoundTrip(s[1..]);
      EscapeCharReads(s[0], Escape(s[1..]));
      assert [s[0]] + s[1..] == s;
    }
  }

  /** Escaping leaves safe texts as they are, so it changes no output the
      generators already get right. */
  lemma {:induction false} EscapeKeepsSafeTexts(s: string)
    requires LiteralSafe(s)
    ensures Escape(s) == s
    decreases |s|
  {
    if s != [] {
      assert LiteralSafe(s[1..]) by {
        forall k | 0 <= k < |s[1..]|
          ensures s[1..][k] != '"' && s[1..][k] != '\\' && !IsNewLine(s[1..][k])
        {
          assert s[1..][k] == s[k + 1];
        }
      }
      EscapeKeepsSafeTexts(s[1..]);
      assert [s[0]] + s[1..] == s;
    }
  }

  /** A display name written `a\tb` is pasted as it is, and the literal then
      denotes a, TAB, b; a path such as `C:\Temp` gives a literal that does not
      compile. */
  lemma UnescapedTextsMisread()
    ensures ReadsAs("a\\tb", "a\tb")
    ensures ReadBody("C:\\Temp") == None
  {
    var s := "a\\tb";
    assert ReadBody([]) == Some([]);
    assert "b"[1..] == [];
    assert ReadBody("b") == Prepend('b', ReadBody([]));
    assert ['b'] + [] == "b";
    assert s[1..][2..] == "b";
    assert ReadBody(s[1..]) == Prepend('\t', ReadBody("b"));
    assert ['\t'] + "b" == "\tb";
    assert ReadBody(s) == Prepend('a', ReadBody(s[1..]));
    assert ['a'] + "\tb" == "a\tb";
    var p := "C:\\Temp";
    assert p[1..][1..] == "\\Temp";
    assert SimpleEscape('T') == None;
  }
}
