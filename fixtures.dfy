/** The enums declared by the repository's test code and what the generated
    code does for them: `TestEnum` (a `[Flags]` enum with one `[Display]`
    member) and the non-flags `TestEnum` of the `Code2` namespace. */
module Fixtures {
  import opened Wrappers
  import opened Bits
  import Radix
  import opened EnumModel
  import EnumFormatCode
  import EnumClassCode
  import EnumClassSemantics
  import ExtensionSemantics
  import EnumGenerator
  import CSharpLiteral

  function TestEnumMembers(): seq<Member> {
    [Member("First", 8, Some("FirstDisplayName"), Some("FirstDescription")),
     Member("Second", 1, None, None),
     Member("Third", 2, None, None),
     Member("Other", 256, None, None)]
  }

  function TestEnumSpec(): EnumSpec {
    EnumSpec("TestEnum", "TestEnum", "Genbox.EnumSourceGen.Tests.Code.TestEnum",
             Some("Genbox.EnumSourceGen.Tests.Code"), true, true, true, true, "Int32",
             TestEnumMembers(), Options(None, None, None, None, "TestEnumExtensions"))
  }

  /** The display parts of `Genbox.EnumSourceGen.Tests.Code.TestEnum`. */
  function TestEnumParts(): seq<EnumGenerator.DisplayPart> {
    [EnumGenerator.DisplayPart(EnumGenerator.NamespaceName, "Genbox"),
     EnumGenerator.DisplayPart(EnumGenerator.Punctuation, "."),
     EnumGenerator.DisplayPart(EnumGenerator.NamespaceName, "EnumSourceGen"),
     EnumGenerator.DisplayPart(EnumGenerator.Punctuation, "."),
     EnumGenerator.DisplayPart(EnumGenerator.NamespaceName, "Tests"),
     EnumGenerator.DisplayPart(EnumGenerator.Punctuation, "."),
     EnumGenerator.DisplayPart(EnumGenerator.NamespaceName, "Code"),
     EnumGenerator.DisplayPart(EnumGenerator.Punctuation, "."),
     EnumGenerator.DisplayPart(EnumGenerator.EnumName, "TestEnum")]
  }

  const Int32: IntKind := IntKind(32, true)

  /** `TestEnum` is based on `int`, whose metadata name is `Int32`, so its
      casts act on 32-bit two's-complement patterns. */
  lemma TestEnumKind()
    ensures KindOf(TestEnumSpec().underlyingType) == Some(Int32)
    ensures Int32.signed && Int32.width == 32
  {
  }

  lemma Pow2AtLeast(k: nat)
    requires k >= 9
    ensures Pow2(k) >= 512
  {
    if k > 9 { Pow2AtLeast(k - 1); }
  }

  lemma TestEnumPartsText()
    ensures EnumGenerator.PartsText(TestEnumParts(), 8) == "Genbox.EnumSourceGen.Tests.Code."
    ensures EnumGenerator.PartsText(TestEnumParts(), 9) == "Genbox.EnumSourceGen.Tests.Code.TestEnum"
  {
    var parts := TestEnumParts();
    assert EnumGenerator.PartsText(parts, 2) == "Genbox.";
    assert EnumGenerator.PartsText(parts, 4) == "Genbox.EnumSourceGen.";
    assert EnumGenerator.PartsText(parts, 6) == "Genbox.EnumSourceGen.Tests.";
  }

  lemma TestEnumShape()
    ensures EnumGenerator.QualifiedShape(TestEnumParts(), 8, EnumGenerator.AsWritten)
  {
    var parts := TestEnumParts();
    forall j | 0 <= j < 8
      ensures !EnumGenerator.EndsNamespace(parts[j].kind, EnumGenerator.AsWritten)
    {
    }
  }

  /** The display string splits into the namespace and the enum name. */
  lemma TestEnumNames()
    ensures EnumGenerator.NamespaceOf(EnumGenerator.NamespaceText(TestEnumParts(), 9, EnumGenerator.AsWritten)) ==
      Some("Genbox.EnumSourceGen.Tests.Code")
    ensures EnumGenerator.TypeText(TestEnumParts(), 9, EnumGenerator.AsWritten) == "TestEnum"
    ensures EnumGenerator.PartsText(TestEnumParts(), 9) == "Genbox.EnumSourceGen.Tests.Code.TestEnum"
  {
    var parts := TestEnumParts();
    TestEnumShape();
    TestEnumPartsText();
    EnumGenerator.QualifiedSplit(parts, 8, 9, EnumGenerator.AsWritten);
    var ns := "Genbox.EnumSourceGen.Tests.Code.";
    assert ns[..|ns| - 1] == "Genbox.EnumSourceGen.Tests.Code";
    assert EnumGenerator.PartsText(parts, 8) + EnumGenerator.TypeText(parts, 9, EnumGenerator.AsWritten)
        == "Genbox.EnumSourceGen.Tests.Code." + "TestEnum";
  }

  lemma Or267()
    ensures OrAll([8, 1, 2, 256]) == 267
  {
    var xs: seq<nat> := [8, 1, 2, 256];
    assert Or(0, 8) == 8 && Or(8, 1) == 9 && Or(9, 2) == 11 && Or(11, 256) == 267;
    assert xs[..3] == [8, 1, 2] && xs[..3][..2] == [8, 1] && xs[..3][..2][..1] == [8];
    assert OrAll([8]) == 8 by { assert [8][..0] == []; }
    assert OrAll([8, 1]) == 9;
    assert OrAll([8, 1, 2]) == 11;
  }

  lemma Text267()
    ensures Radix.ToText(267, 2) == "100001011"
  {
    assert Radix.ToText(1, 2) == "1";
    assert Radix.ToText(2, 2) == "10";
    assert Radix.ToText(4, 2) == "100";
    assert Radix.ToText(8, 2) == "1000";
    assert Radix.ToText(16, 2) == "10000";
    assert Radix.ToText(33, 2) == "100001";
    assert Radix.ToText(66, 2) == "1000010";
    assert Radix.ToText(133, 2) == "10000101";
  }

  /** Bits 8 | 1 | 2 | 256 = 267, written `100001011`. */
  lemma Mask267()
    ensures OrAll([8, 1, 2, 256]) == 267
    ensures Radix.ToText(267, 2) == "100001011"
    ensures Radix.FromText("100001011", 2) == 267
  {
    Or267();
    Text267();
    Radix.TextRoundTrip(267, 2);
  }

  /** Member values 8, 1, 2 and 256 give the mask `0b100001011`. */
  lemma TestEnumMask()
    ensures EnumClassCode.IsDefinedOf(TestEnumMembers()) == Ok(EnumClassCode.MaskTest("100001011"))
  {
    var ms := TestEnumMembers();
    Pow2AtLeast(64);
    assert EnumClassCode.AllConvert(ms);
    assert EnumClassCode.Values(ms) == [8, 1, 2, 256];
    Mask267();
  }

  /** `IsDefined(3)` holds (3 = Second | Third) and `IsDefined(4)` does not. */
  lemma TestEnumIsDefined()
    ensures InRange(Int32, 3) && InRange(Int32, 4)
    ensures EnumClassSemantics.EvalIsDefined(EnumClassCode.MaskTest("100001011"), Int32, 3)
    ensures !EnumClassSemantics.EvalIsDefined(EnumClassCode.MaskTest("100001011"), Int32, 4)
  {
    Pow2AtLeast(31);
    Mask267();
    assert And(267, 3) == 3;
    assert And(267, 4) == 0;
  }

  /** The display name parses back with the `DisplayName` format, and the
      value text `"256"` with the `Value` format. */
  lemma TestEnumParse()
    ensures EnumClassSemantics.EvalTryParse(EnumClassCode.ParseBlocks(TestEnumSpec()), "FirstDisplayName",
      EnumFormatCode.TierBit(DisplayNameTier), Ordinal) == Some(0)
    ensures EnumClassSemantics.EvalTryParse(EnumClassCode.ParseBlocks(TestEnumSpec()), "256",
      EnumFormatCode.TierBit(ValueTier), Ordinal) == Some(3)
  {
    var es := TestEnumSpec();
    assert CSharpLiteral.LiteralSafe("FirstDisplayName");
    EnumClassSemantics.TierRoundTrip(es, DisplayNameTier, 0);
    EnumClassSemantics.ValueRoundTrip(es, 3);
    assert Radix.IntText(256) == "256";
  }

  lemma TestEnumIdentifiers()
    ensures IdentifierNames(TestEnumMembers())
  {
    assert CSharpLiteral.LiteralSafe("First");
    assert CSharpLiteral.LiteralSafe("Second");
    assert CSharpLiteral.LiteralSafe("Third");
    assert CSharpLiteral.LiteralSafe("Other");
  }

  /** `GetString` names the member with value 1, and a value that is no
      member's falls back to `ToString()`. */
  lemma TestEnumGetString()
    ensures ExtensionSemantics.EvalGetString(Entries(TestEnumMembers(), NameTier, 4), TestEnumMembers(), 1) == Some("Second")
    ensures ExtensionSemantics.EvalGetString(Entries(TestEnumMembers(), NameTier, 4), TestEnumMembers(), 3).None?
  {
    var ms := TestEnumMembers();
    TestEnumIdentifiers();
    ExtensionSemantics.GetStringNamesMembers(ms, 1);
    ExtensionSemantics.GetStringNamesMembers(ms, 3);
  }

  function NonFlagsMembers(): seq<Member> {
    [Member("First", 0, None, None), Member("Second", 1, None, None), Member("Third", 2, None, None)]
  }

  /** Non-flags `First, Second, Third` (0, 1, 2): the mask test also accepts
      3, which is no member's value. */
  lemma NonFlagsIsDefined()
    ensures EnumClassCode.IsDefinedOf(NonFlagsMembers()) == Ok(EnumClassCode.MaskTest("11"))
    ensures InRange(Int32, 3) && EnumClassSemantics.EvalIsDefined(EnumClassCode.MaskTest("11"), Int32, 3)
  {
    NonFlagsMask();
    Pow2AtLeast(31);
    assert Radix.FromText("11", 2) == 3;
    assert And(3, 3) == 3;
  }

  lemma NonFlagsMask()
    ensures EnumClassCode.IsDefinedOf(NonFlagsMembers()) == Ok(EnumClassCode.MaskTest("11"))
  {
    Pow2AtLeast(64);
    var ms := NonFlagsMembers();
    var xs: seq<nat> := [0, 1, 2];
    assert EnumClassCode.Values(ms) == xs;
    assert Or(0, 0) == 0 && Or(0, 1) == 1 && Or(1, 2) == 3;
    assert xs[..2] == [0, 1] && xs[..2][..1] == [0];
    assert OrAll([0]) == 0 by { assert [0][..0] == []; }
    assert OrAll([0, 1]) == 1;
    assert OrAll(xs) == 3;
    assert Radix.ToText(1, 2) == "1";
    assert Radix.ToText(3, 2) == "11";
  }

  /** `IsFlagSet(11, 8)` holds: 11 = 8 | 2 | 1. */
  lemma TestEnumIsFlagSet()
    ensures InRange(Int32, 11) && InRange(Int32, 8) && InRange(Int32, 256)
    ensures ExtensionSemantics.EvalIsFlagSet(Int32, 11, 8)
    ensures !ExtensionSemantics.EvalIsFlagSet(Int32, 11, 256)
  {
    Pow2AtLeast(31);
    assert And(11, 8) == 8;
    assert And(11, 256) == 0;
  }
}
