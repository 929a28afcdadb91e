# EnumSourceGen, modelled in Dafny

EnumSourceGen is a C# incremental source generator. For every enum marked
`[EnumSourceGen]` it writes three C# files:

- a `[Flags]` enum `<Enum>Format : byte` that selects the parse tiers;
- a static class `Enums.<Enum>` with the member arrays, `TryParse`/`Parse`
  and `IsDefined`;
- a class of extension methods: `GetString`, `TryGetUnderlyingValue` /
  `GetUnderlyingValue`, the display-name and description lookups, and
  `IsFlagSet`.

This project models the core of the generator:

- the `Transform` step, which reads the compiler's view of the enum into an
  `EnumSpec`;
- the three code generators;
- the output step, which registers the sources or reports diagnostic `ESG001`.

A generator does not produce text here. It produces an *artifact*: a datatype
holding exactly what varies in the generated code. Every generated
operation also has an evaluation function, which states what the C# code does
when it runs. The lemmas relate those evaluations to reference definitions.
For example, `TryParse` is proved to be a tiered first-match search, and
`IsDefined` a mask test.

Files, one module each:

- `wrappers.dfy`: `Option` and `Result`.
- `bits.dfy`: bitwise `|`, `&` and `HasFlag` on naturals, and the
  two's-complement pattern of a value of a C# integer type.
- `radix.dfy`: the binary literal written after `0b`, and the decimal text
  of a value.
- `csharp_literal.dfy`: how the C# compiler reads a regular string literal
  `"..."`. The generators paste names, values, display names and
  descriptions between quotes, and this is what the pasted text then denotes.
- `enum_model.dfy`: the `EnumSpec` record, the four parse *tiers* (name, value,
  display name, description) and `Entries`. `Entries` is the one list shape
  behind every generated array, `case` list and `if` chain.
- `enum_format_code.dfy`: `EnumFormatCode.Generate` and the values of the
  format enum.
- `enum_class_code.dfy`: `EnumClassCode.Generate` and its `StringBuilder`
  helper loops. Each loop is a method proved against a specification function.
- `enum_class_semantics.dfy`: what the generated `TryParse`, `Parse` and
  `IsDefined` do.
- `extension_code.dfy`: `ExtensionCode.Generate` and its helper loops.
- `extension_semantics.dfy`: what the generated extension methods do.
- `enum_generator.dfy`: `Transform`, its loops, and the source-output step.
- `fixtures.dfy`: the test project's enums and what the generated code does
  for them.

Behaviours of the code that the model keeps, as written:

- **`IsDefined` on non-flags enums.** The class generator emits the same
  mask test `(value & mask) == value` for every enum
  (src/EnumSourceGen/Generators/EnumClassCode.cs:84, 299-313). For members 0,
  1, 2 the value 3 is therefore "defined" (`Fixtures.NonFlagsIsDefined`).
- **Negative member values.** `Convert.ChangeType(v, typeof(ulong))` throws
  for them (EnumClassCode.cs:304-307). Generation then reports `ESG001`
  after the format source was already added
  (Src/EnumSourceGen/EnumGenerator.cs:54-63; `EnumClassCode.IsDefinedOf`,
  `EnumGenerator.Emit`).
- **The `TestEnum` mask.** Members 8, 1, 2 and 256 give 267, written
  `0b100001011` (`Fixtures.TestEnumMask`).
- **Omitted members.** No generator reads `[EnumOmitValue]`, so nothing is
  left out of the generated arrays.
- **Texts pasted into literals.** Names, display names and descriptions are
  written between quotes without escaping (EnumClassCode.cs:164, 217, 247,
  276, 293; ExtensionCode.cs:121, 163, 188). The model reads each such
  literal as the C# compiler does (`CSharpLiteral.ReadBody`): in the
  `TryParse` checks (`EnumClassSemantics.LiteralMatches`), in the arrays of
  `GetDisplayNames()`/`GetDescriptions()` (`EnumClassSemantics.EvalPairs`)
  and in the extension lookups (`ExtensionSemantics.EvalTryGetText`,
  `EvalGetString`). So a text that needs escaping does not round-trip (see
  Findings).

## Model

| member | source | states |
|---|---|---|
| Bits.MaskTestIsWithin | src/EnumSourceGen/Generators/EnumClassCode.cs:312 | `(m & x) == x` holds exactly when every bit of `x` is set in `m` |
| Bits.OperandWithinOrAll | src/EnumSourceGen/Generators/EnumClassCode.cs:304-307 | every value OR-ed into the accumulator has all its bits in the result |
| Bits.OrAllBelow | src/EnumSourceGen/Generators/EnumClassCode.cs:304-307 | the OR of values below 2^k is below 2^k |
| Bits.Pattern | src/EnumSourceGen/Generators/EnumClassCode.cs:312 | the cast `(ut)input` gives a bit pattern below 2^width |
| Bits.PatternInjective | src/EnumSourceGen/Generators/EnumClassCode.cs:312 | comparing the patterns of two in-range values compares the values |
| Bits.NegativeHasSignBit | src/EnumSourceGen/Generators/EnumClassCode.cs:312 | a negative value of a signed type has its sign bit set |
| Bits.HighBitClear | src/EnumSourceGen/Generators/EnumClassCode.cs:312 | a number below 2^k has no bit at position k or above |
| Radix.TextRoundTrip | src/EnumSourceGen/Generators/EnumClassCode.cs:312 | the binary digits written after `0b` denote the mask |
| Radix.TextCanonical | src/EnumSourceGen/Generators/EnumClassCode.cs:312 | those digits have no leading zero |
| Radix.BinaryLength | src/EnumSourceGen/Generators/EnumClassCode.cs:312 | a value below 2^k takes at most k binary digits |
| Radix.IntTextRoundTrip | src/EnumSourceGen/Generators/ExtensionCode.cs:138 | the decimal literal written for a value reads back as that value |
| Radix.IntTextInjective | src/EnumSourceGen/Generators/EnumClassCode.cs:143 | distinct values are written as distinct decimal literals |
| CSharpLiteral.ReadsAsItselfIffSafe | src/EnumSourceGen/Generators/EnumClassCode.cs:217 | a text pasted between quotes denotes itself exactly when it holds no quote, backslash or line break |
| CSharpLiteral.SafeReadsAsOnlyItself | src/EnumSourceGen/Generators/EnumClassCode.cs:164 | such a text denotes itself and nothing else |
| CSharpLiteral.IntTextIsSafe | src/EnumSourceGen/Generators/EnumClassCode.cs:188 | the decimal text of a value needs no escaping |
| CSharpLiteral.UnescapedTextsMisread | src/EnumSourceGen/Generators/EnumClassCode.cs:217 | counterexample: the pasted text `a\tb` denotes a, TAB, b, and `C:\Temp` does not compile |
| CSharpLiteral.EscapeRoundTrip | src/EnumSourceGen/Generators/EnumClassCode.cs:217 | corrected: the escaped text, pasted between quotes, denotes the text, for every text |
| CSharpLiteral.EscapeKeepsSafeTexts | src/EnumSourceGen/Generators/EnumClassCode.cs:217 | escaping leaves a text that needs none unchanged |
| EnumModel.EntriesSound | src/EnumSourceGen/Generators/EnumClassCode.cs:265-280 | every generated entry names an existing member and carries that member's text |
| EnumModel.EntriesOrdered | src/EnumSourceGen/Generators/EnumClassCode.cs:265-280 | entries follow declaration order, each member at most once |
| EnumModel.EntriesComplete | src/EnumSourceGen/Generators/EnumClassCode.cs:265-280 | every member with a text in the tier has an entry |
| EnumModel.TotalTierEntries | src/EnumSourceGen/Generators/EnumClassCode.cs:158-170 | in the name and value tiers, entry i is member i |
| EnumModel.KindOf | Src/EnumSourceGen/EnumGenerator.cs:132 | the eight underlying-type names (and the `int` fallback) name valid 8-, 16-, 32- or 64-bit kinds, signed exactly for `SByte`, `Int16`, `Int32`, `Int64` and `int`; any other name names none |
| EnumModel.KindOfInjective | Src/EnumSourceGen/EnumGenerator.cs:132 | two names give the same kind only when they are equal, or are `Int32` and the fallback `int` |
| EnumModel.AnyText | Src/EnumSourceGen/EnumGenerator.cs:116-121 | the intended capability flag: some member has a display name (or a description) |
| EnumModel.WithDerivedCapabilities | Src/EnumSourceGen/EnumGenerator.cs:97-121 | the corrected flags: set exactly when some member has the text; the members are unchanged; a consistent spec is left as it is |
| EnumFormatCode.Generate | src/EnumSourceGen/Generators/EnumFormatCode.cs:7-42 | `<Enum>Format : byte` with `[Flags]`, in the options' namespace; `None`, `Name`, `Value` first and `Default` last; `DisplayName` (`Description`) declared exactly when the spec's flag is set |
| EnumFormatCode.ResolveGenerate | src/EnumSourceGen/Generators/EnumFormatCode.cs:15-39 | the value of every format member: 0, 1, 2, 4 and 8, and `Default` = 3; undeclared names have no value |
| EnumFormatCode.DefaultIsNameOrValue | src/EnumSourceGen/Generators/EnumFormatCode.cs:36-39 | `Default` is `Name \| Value`, that is 3 |
| EnumFormatCode.FormatBitsStable | src/EnumSourceGen/Generators/EnumFormatCode.cs:15-34 | a declared member has the same value for every enum |
| EnumFormatCode.FormatMembersAreDistinctBits | src/EnumSourceGen/Generators/EnumFormatCode.cs:15-34 | the tier members are distinct single bits that fit a byte |
| EnumFormatCode.TierMembersMatchTiers | src/EnumSourceGen/Generators/EnumFormatCode.cs:15-34 | a tier's format member exists exactly when the tier is emitted, and its value is the tier's bit |
| EnumClassCode.IsDefinedOf | src/EnumSourceGen/Generators/EnumClassCode.cs:299-313 | generation throws exactly when a member value does not convert to `ulong`; the test is `false` exactly when there are no members |
| EnumClassCode.GetMemberNames | src/EnumSourceGen/Generators/EnumClassCode.cs:115-126 | the names array holds every member's name, in order |
| EnumClassCode.GetMemberValues | src/EnumSourceGen/Generators/EnumClassCode.cs:128-136 | the values array refers to every member, in order |
| EnumClassCode.GetUnderlyingValues | src/EnumSourceGen/Generators/EnumClassCode.cs:138-146 | the underlying-values array holds every member's value, in order |
| EnumClassCode.GetTryParseSwitch | src/EnumSourceGen/Generators/EnumClassCode.cs:148-263 | the name and value blocks are always emitted; the display-name and description blocks only when the flags are set; each block lists its tier's entries |
| EnumClassCode.GetDisplayNames | src/EnumSourceGen/Generators/EnumClassCode.cs:265-280 | the (member, display name) pairs of the members that have one, in order |
| EnumClassCode.GetDescriptions | src/EnumSourceGen/Generators/EnumClassCode.cs:282-297 | the (member, description) pairs of the members that have one, in order |
| EnumClassCode.GetIsDefined | src/EnumSourceGen/Generators/EnumClassCode.cs:299-313 | the loop's OR accumulator yields `false` for no members, a zero test for mask 0, else the binary mask literal; it fails when a value does not convert |
| EnumClassCode.Generate | src/EnumSourceGen/Generators/EnumClassCode.cs:10-316 | fails exactly when `GetIsDefined` throws; otherwise namespace, class names, visibility, member count, flag constant, arrays, parse blocks, `IsDefined` and optional tables are as stated |
| EnumClassCode.DescribesUnique | src/EnumSourceGen/Generators/EnumClassCode.cs:10-316 | the stated fields determine the class artifact |
| EnumClassSemantics.LiteralMatches | src/EnumSourceGen/Generators/EnumClassCode.cs:148-263 | one generated check `value.Equals("<text>", comparison)`: the input is compared with what the pasted literal denotes, and a literal that does not compile never matches |
| EnumClassSemantics.FirstByText | src/EnumSourceGen/Generators/EnumClassCode.cs:148-263 | one tier's chain of checks: the member of the first check that matches; its meaning is `FirstByTextFindsLeast` |
| EnumClassSemantics.EvalTryParse | src/EnumSourceGen/Generators/EnumClassCode.cs:52-66 | `TryParse`: the blocks in order, each run only if `format.HasFlag` its tier, the first match returned, else `false`; its meaning is `TryParseIsTieredSearch` |
| EnumClassSemantics.EvalParse | src/EnumSourceGen/Generators/EnumClassCode.cs:68-82 | `Parse` throws exactly when `TryParse` fails, and otherwise returns its result; the string given to the exception is `Invalid value: <input>` |
| EnumClassSemantics.FirstByTextFindsLeast | src/EnumSourceGen/Generators/EnumClassCode.cs:158-170 | a block of `if` checks returns the first member in declaration order whose literal denotes a text equal to the input |
| EnumClassSemantics.LeastMatchIsLeast | src/EnumSourceGen/Generators/EnumClassCode.cs:158-170 | the reference first-match search returns the least matching member |
| EnumClassSemantics.TryParseIsTieredSearch | src/EnumSourceGen/Generators/EnumClassCode.cs:148-263 | generated `TryParse` = search of the tiers in order name, value, display name, description; a tier is searched only if emitted and its bit is in the format |
| EnumClassSemantics.SearchTiersSound | src/EnumSourceGen/Generators/EnumClassCode.cs:148-263 | a found member matches the input in an enabled tier; nothing is found iff no enabled tier matches |
| EnumClassSemantics.ParseFailsIffNoTierMatches | src/EnumSourceGen/Generators/EnumClassCode.cs:68-82 | `Parse` fails iff no member's literal in an enabled tier denotes a text equal to the input; on success the member matches in an enabled tier |
| EnumClassSemantics.TierBitsSelect | src/EnumSourceGen/Generators/EnumClassCode.cs:148-263 | `format.HasFlag(tier)` with a one-tier format holds only for that tier |
| EnumClassSemantics.TierRoundTrip | src/EnumSourceGen/Generators/EnumClassCode.cs:148-263 | a member's text in an emitted tier, parsed with that tier's format, yields that member when the text needs no escaping and no earlier member's literal denotes the same text |
| EnumClassSemantics.ValueRoundTrip | src/EnumSourceGen/Generators/EnumClassCode.cs:179-196 | a member's decimal value text, parsed with the `Value` format, yields the first member with that value |
| EnumClassSemantics.UnescapedLabelMisparses | src/EnumSourceGen/Generators/EnumClassCode.cs:205-222 | counterexample: a display name `a\tb` does not parse with the `DisplayName` format, while a, TAB, b does |
| EnumClassSemantics.NameRoundTrip | src/EnumSourceGen/Generators/EnumClassCode.cs:148-170 | with the `Name` bit set (as in `Default`), a member's name (an identifier) parses back to that member |
| EnumClassSemantics.EvalPairs | src/EnumSourceGen/Generators/EnumClassCode.cs:87-113 | the `(member, string)` array `GetDisplayNames()`/`GetDescriptions()` returns, each string being what the pasted literal denotes; its meaning is `PairsReadAsDeclared` |
| EnumClassSemantics.PairsReadAsDeclared | src/EnumSourceGen/Generators/EnumClassCode.cs:265-297 | the array holds each member with a text, in order, with what its literal denotes; it equals the declared `(member, text)` pairs iff no text needs escaping |
| EnumClassSemantics.EvalIsDefined | src/EnumSourceGen/Generators/EnumClassCode.cs:84 | `IsDefined(input)`: `false`, or the mask test `(mask & (ut)input) == (ut)input` on two's-complement patterns; its meaning is `IsDefinedIsMaskTest` |
| EnumClassSemantics.MaskBelow | src/EnumSourceGen/Generators/EnumClassCode.cs:304-307 | the accumulated mask fits in 64 bits |
| EnumClassSemantics.MaskLiteralDenotesMask | src/EnumSourceGen/Generators/EnumClassCode.cs:304-312 | the `0b` literal denotes the OR of all member values, has no leading zero and at most 64 digits |
| EnumClassSemantics.IsDefinedIsMaskTest | src/EnumSourceGen/Generators/EnumClassCode.cs:299-313 | `IsDefined(x)` holds iff there are members and every bit of x's pattern is in the mask, for flags and non-flags enums alike |
| EnumClassSemantics.IsDefinedAcceptsMembers | src/EnumSourceGen/Generators/EnumClassCode.cs:299-313 | every member value is defined |
| EnumClassSemantics.IsDefinedRejectsNegative | src/EnumSourceGen/Generators/EnumClassCode.cs:299-313 | for a signed type with in-range members, no negative input is defined |
| ExtensionCode.GetMemberStrings | src/EnumSourceGen/Generators/ExtensionCode.cs:113-125 | one `GetString` arm per member, in order, yielding its name |
| ExtensionCode.GetValueStrings | src/EnumSourceGen/Generators/ExtensionCode.cs:127-147 | one `case` per member, in order, yielding its value's literal |
| ExtensionCode.GetDisplayNames | src/EnumSourceGen/Generators/ExtensionCode.cs:149-172 | one `case` per member with a display name, in order |
| ExtensionCode.GetDescriptions | src/EnumSourceGen/Generators/ExtensionCode.cs:174-197 | one `case` per member with a description, in order |
| ExtensionCode.Generate | src/EnumSourceGen/Generators/ExtensionCode.cs:7-200 | class name and namespace from the options; the enum is referred to by its short name only when the namespaces agree; the optional methods exist exactly when the flags are set |
| ExtensionCode.DescribesUnique | src/EnumSourceGen/Generators/ExtensionCode.cs:7-200 | the stated fields determine the extension artifact |
| ExtensionSemantics.Dispatch | src/EnumSourceGen/Generators/ExtensionCode.cs:31-39 | a `switch (value)` over `case E.Member:` arms: the first arm whose member has the value; its meaning is `DispatchFindsFirst` |
| ExtensionSemantics.EvalGetString | src/EnumSourceGen/Generators/ExtensionCode.cs:24-29 | `GetString`: what the matching arm's literal denotes, or the `ToString()` fallback (`None`); its meaning is `GetStringNamesMembers` |
| ExtensionSemantics.EvalTryGetUnderlyingValue | src/EnumSourceGen/Generators/ExtensionCode.cs:31-39 | `TryGetUnderlyingValue`: (true, the value of the case's decimal literal), or (false, default); its meaning is `TryGetUnderlyingValueMeaning` |
| ExtensionSemantics.EvalTryGetText | src/EnumSourceGen/Generators/ExtensionCode.cs:56-64 | `TryGetDisplayName`/`TryGetDescription`: what the matching case's literal denotes, or `null` and `false`; its meaning is `TextLookupMeaning` |
| ExtensionSemantics.EvalIsFlagSet | src/EnumSourceGen/Generators/ExtensionCode.cs:108-109 | `IsFlagSet`: `((ut)value & (ut)flag) == (ut)flag` on the two's-complement patterns of the underlying type; its meaning is `IsFlagSetMeaning` |
| ExtensionSemantics.EvalGetUnderlyingValue | src/EnumSourceGen/Generators/ExtensionCode.cs:41-47 | throws exactly when `TryGetUnderlyingValue` returns false, else returns its value |
| ExtensionSemantics.EvalGetText | src/EnumSourceGen/Generators/ExtensionCode.cs:66-72 | `GetDisplayName`/`GetDescription` throw exactly when the `Try` variant returns false, and otherwise return its text |
| ExtensionSemantics.DispatchFindsFirst | src/EnumSourceGen/Generators/ExtensionCode.cs:31-39 | a generated `switch` selects the first member of its tier with the value, and nothing when no such member exists |
| ExtensionSemantics.GetStringNamesMembers | src/EnumSourceGen/Generators/ExtensionCode.cs:24-29 | with distinct values and identifier names, `GetString` of a member's value is its name; any other value takes the `ToString()` fallback |
| ExtensionSemantics.TryGetUnderlyingValueMeaning | src/EnumSourceGen/Generators/ExtensionCode.cs:31-39 | `TryGetUnderlyingValue` returns (true, v) iff v is a member's value, else (false, default) |
| ExtensionSemantics.TextLookupMeaning | src/EnumSourceGen/Generators/ExtensionCode.cs:56-64 | `TryGetDisplayName` of a member's value yields what its pasted display name denotes: the display name itself exactly when it needs no escaping; it fails for members without one and for non-member values |
| ExtensionSemantics.IsFlagSetMeaning | src/EnumSourceGen/Generators/ExtensionCode.cs:108-109 | `IsFlagSet(value, flag)` holds iff every bit of flag is set in value |
| ExtensionSemantics.GetStringThenParse | src/EnumSourceGen/Generators/ExtensionCode.cs:24-29 | `GetString` of a member, parsed back with the `Name` bit and ordinal comparison, yields that member |
| EnumGenerator.LastIndexOf | Src/EnumSourceGen/EnumGenerator.cs:75-88 | the last attribute of a class, after which none follows; none iff no attribute has the class |
| EnumGenerator.ScanTypeAttributes | Src/EnumSourceGen/EnumGenerator.cs:75-88 | `hasFlags` iff some attribute is `System.FlagsAttribute`; the options of the last `[EnumSourceGen]`, present iff one is applied |
| EnumGenerator.ScanFieldAttributes | Src/EnumSourceGen/EnumGenerator.cs:109-127 | the last `[Display]` of the field; each one overwrites both capability flags |
| EnumGenerator.Constants | Src/EnumSourceGen/EnumGenerator.cs:100-130 | one member per constant field, in order: all fields when all are constant, none when none is |
| EnumGenerator.ConstantIndices | Src/EnumSourceGen/EnumGenerator.cs:100-103 | the positions of the constant fields, increasing, each one a constant field |
| EnumGenerator.ConstantIndicesComplete | Src/EnumSourceGen/EnumGenerator.cs:100-103 | no constant field is skipped |
| EnumGenerator.ConstantsFilter | Src/EnumSourceGen/EnumGenerator.cs:100-130 | the k-th member is made from the k-th constant field, and there are as many members as constant fields |
| EnumGenerator.ConstantsKeepAll | Src/EnumSourceGen/EnumGenerator.cs:100-103 | every field becomes a member exactly when every field is a constant |
| EnumGenerator.CollectMembers | Src/EnumSourceGen/EnumGenerator.cs:100-130 | the members, and both flags as decided by the last `[Display]` attribute over all fields |
| EnumGenerator.LastDisplayIsSomeMember | Src/EnumSourceGen/EnumGenerator.cs:116-121 | when an as-written flag is set, some member does have the text: the flags can be wrong only by being false |
| EnumGenerator.SplitDisplayParts | Src/EnumSourceGen/EnumGenerator.cs:141-163 | the three buffers hold the namespace parts, the type parts and all parts, with only namespace, class and enum names changing state |
| EnumGenerator.SplitPartitions | Src/EnumSourceGen/EnumGenerator.cs:157-162 | the two buffers' lengths add up to the qualified name's |
| EnumGenerator.QualifiedSplit | Src/EnumSourceGen/EnumGenerator.cs:141-168 | for a namespace-then-type display string, the namespace buffer is the namespace parts and namespace + type name = fully qualified name |
| EnumGenerator.NestedInStructSplit | Src/EnumSourceGen/EnumGenerator.cs:144-155 | counterexample: for `N.S.E` with `S` a struct, the namespace is `N.S` and the full name `E` as written; reading every type name as ending the namespace gives `N` and `S.E` |
| EnumGenerator.TrimEndDots | Src/EnumSourceGen/EnumGenerator.cs:168 | the longest prefix that does not end in '.'; only dots are removed |
| EnumGenerator.NamespaceOf | Src/EnumSourceGen/EnumGenerator.cs:168 | no namespace iff the buffer is empty; otherwise the buffer with exactly its trailing dots removed |
| EnumGenerator.Transform | Src/EnumSourceGen/EnumGenerator.cs:66-171 | nothing for a non-type or an enum without `[EnumSourceGen]`; otherwise the spec with names, flags, members, `int` as the default underlying type, and the options |
| EnumGenerator.HiddenLabelsDoNotParse | src/EnumSourceGen/Generators/EnumClassCode.cs:148-263 | with the display flag off, no text parses with the `DisplayName` format |
| EnumGenerator.LastDisplayHidesEarlierName | Src/EnumSourceGen/EnumGenerator.cs:120-121 | counterexample: an earlier display name is hidden by a later description-only `[Display]`, so its label does not parse; with the corrected flags it does |
| EnumGenerator.DerivedCapabilitiesParseLabels | Src/EnumSourceGen/EnumGenerator.cs:116-121 | with the corrected flags, a display name that needs no escaping, and that no earlier display-name literal denotes, parses back to its member |
| EnumGenerator.Emit | Src/EnumSourceGen/EnumGenerator.cs:40-63 | nothing for no spec; three sources named `<fqn>_EnumFormat.g.cs`, `_Enums.g.cs` and `_Extensions.g.cs` holding the artifacts the three generators describe; or, when the class generator throws, the format source and then `ESG001` |
| Fixtures.TestEnumNames | src/EnumSourceGen.Tests/Code/TestEnum.cs:3-7 | `Genbox.EnumSourceGen.Tests.Code.TestEnum` splits into namespace and enum name |
| Fixtures.TestEnumMask | src/EnumSourceGen.Tests/Code/TestEnum.cs:9-13 | members 8, 1, 2, 256 give `0b100001011` |
| Fixtures.TestEnumKind | src/EnumSourceGen.Tests/Code/TestEnum.cs:7 | `TestEnum` declares no base type, so its underlying type `Int32` is the signed 32-bit kind its casts use |
| Fixtures.TestEnumIsDefined | src/EnumSourceGen.Tests/Code/TestEnum.cs:9-13 | 3 and 4 are `int` values; `IsDefined(3)` holds and `IsDefined(4)` does not |
| Fixtures.TestEnumParse | src/EnumSourceGen.Tests/Code/TestEnum.cs:9-13 | `"FirstDisplayName"` parses to `First` with the `DisplayName` format, and `"256"` to `Other` with the `Value` format |
| Fixtures.TestEnumGetString | src/EnumSourceGen.Tests/Code/TestEnum.cs:9-13 | `GetString(1)` is `"Second"`; 3 takes the fallback |
| Fixtures.TestEnumIsFlagSet | src/EnumSourceGen.Tests/Code/TestEnum.cs:9-13 | 11, 8 and 256 are `int` values; `IsFlagSet(11, 8)` holds and `IsFlagSet(11, 256)` does not |
| Fixtures.NonFlagsIsDefined | src/EnumSourceGen.Tests/Code/Enums.cs:26-32 | non-flags members 0, 1, 2 give mask `0b11`, and `IsDefined(3)` holds |

## Left out

- Roslyn plumbing is not modelled: the syntax predicate, incremental caching,
  `SourceText`/UTF-8 encoding and `Location`. Compiler symbols are plain
  datatypes.
- The generated text itself is not modelled: whitespace, indentation,
  `TrimEnd` of separators and the `// <auto-generated />` lines. Artifacts
  keep only what varies.
- The generated arrays are built once and cached (`??=`). The model does not
  capture that caching.
- The header's assembly version and UTC timestamp come from the environment.
  The header is a parameter of `EnumGenerator.Emit`.
- Cancellation (`ThrowIfCancellationRequested`) is left out.
- `TypeHelper.MapData`, which reads named attribute arguments, is not part of
  this model. An attribute carries its options and display data already
  mapped.
- `[EnumTransform]`, `[EnumTransformValue]` and `[EnumOmitValue]` data are
  read by `Transform` but used by none of the modelled generators. They are
  left out.
- `EnumGenerator.Debug` only changes a comment line. It is left out.
- The generators are written against different revisions of the spec record:
  the class generator also takes an `AttributeOptions` argument. One
  `EnumSpec` carries the union of their fields.
- `StringComparison` is a parameter `eq` of the parse evaluation. Ordinal
  comparison is exact equality. Culture-dependent comparisons are not
  modelled.
- Values are written in the invariant culture's decimal form.
- ExtensionSemantics.EvalGetUnderlyingValue: the string given to the
  exception shows the value's decimal text. For a `[Flags]` enum, .NET's
  `ToString()` may list flag names instead. That one string is the
  exception's `ParamName`, not its `Message`; `Err` carries it as it is.
- ExtensionSemantics.EvalGetText: the string `"Invalid value " + value` is
  the exception's `ParamName`. The model writes the value's decimal text
  there. .NET's `Enum.ToString()` instead gives the member's name, and this
  function throws for every member without a text (for `TestEnum.Second`,
  `GetDisplayName()` gives `Invalid value Second` where the model gives
  `Invalid value 1`). For a `[Flags]` combination it gives a comma-separated
  list of flag names, and the decimal text only for other values.
- EnumClassSemantics.EvalParse: `Invalid value: <input>` is likewise the
  exception's `ParamName`, not its `Message`.
- CSharpLiteral.ReadBody: `\x` escapes, `\U` escapes and `\u` escapes of
  surrogate code units are not decoded; such a literal is read as not
  compiling.
- CSharpLiteral.ReadBody: a raw `"` in a pasted text closes the literal
  early, and C# reads the rest of the text as code. That code may build:
  a display name `x"+"y` is pasted as `"x"+"y"`, which denotes `xy`, so
  the generated `TryParse` accepts `xy` and `TryGetDisplayName` returns it.
  `ReadBody` treats every raw quote as a literal that does not compile, so
  the model rejects that input and fails that lookup. C# expressions are
  not modelled.
- A literal that does not compile makes the whole generated file fail to
  build. The model instead treats that one check as never matching
  (`EnumClassSemantics.LiteralMatches`) and that one lookup as failing
  (`ExtensionSemantics.EvalTryGetText`, `EvalGetString`).
- An enum with no members gets `new[] { }` for its names and values arrays
  (src/EnumSourceGen/Generators/EnumClassCode.cs:36, 42), which the C#
  compiler rejects because it cannot infer the element type. The model has
  no notion of array element typing, so the artifact just holds empty lists.
- Duplicate underlying values (aliases) make the generated `switch` invalid
  C#. The compile error is not modelled: dispatch takes the first case, and
  the lookup lemmas assume distinct values.
- Underlying types wider than 64 bits do not exist in C#. `IsDefined` and
  `IsFlagSet` are evaluated for a kind of width 8, 16, 32 or 64, and their
  lemmas hold for every such kind. `EnumModel.KindOf` gives the kind a
  spec's `underlyingType` names (see `Fixtures.TestEnumKind`).
- Each `StringBuilder` helper starts with `sb.Clear()`, so the one shared
  builder is modelled as a local accumulator per helper method.
- The exception text of a failing conversion is the fixed `OverflowMessage`.
  .NET's exact wording for other failures is not modelled.

## Findings

| source | as written | input that shows it | evidently intended | confidence | as-written member | corrected member |
|---|---|---|---|---|---|---|
| Src/EnumSourceGen/EnumGenerator.cs:120-121 | every `[Display]` attribute overwrites `hasName` and `hasDescription`, so the last one decides both | `A` with `[Display(Name = "Label")]`, then `B` with `[Display(Description = "About B")]`: `hasName` is false, so the format enum has no `DisplayName` and `"Label"` never parses | each flag is set when any member has the text | high, not executed | EnumGenerator.LastDisplayHidesEarlierName | EnumModel.WithDerivedCapabilities |
| src/EnumSourceGen/Generators/EnumClassCode.cs:217 | display names are pasted into `"..."` unescaped; so are descriptions (:247, :276, :293, ExtensionCode.cs:163, :188) | `[Display(Name = "a\\tb")]`: the literal `"a\tb"` denotes a, TAB, b, so `TryParse("a\\tb", DisplayName)` fails; `Name = "C:\\Temp"` gives a file that does not compile; `Name = "x\"+\"y"` is pasted as `"x"+"y"`, which compiles and denotes `xy` | every text is escaped, so the literal denotes the declared text | high, not executed | EnumClassSemantics.UnescapedLabelMisparses | CSharpLiteral.EscapeRoundTrip |
| Src/EnumSourceGen/EnumGenerator.cs:144-155 | only namespace, class and enum names change `inNamespace`; a struct name keeps it set | enum `E` nested in struct `S` in namespace `N`: namespace `N.S`, full name `E`, so the class is emitted into `namespace N.S;`, which clashes with struct `N.S` | every kind of type name ends the namespace: namespace `N`, full name `S.E` | medium, not executed | EnumGenerator.NestedInStructSplit | EnumGenerator.QualifiedSplit |

`Transform` models the flags and the name split as written. The semantic
lemmas about display names and descriptions
(`EnumClassSemantics.TierRoundTrip` and
`EnumGenerator.DerivedCapabilitiesParseLabels`) are stated for specs whose
flags agree with their members, which `EnumModel.WithDerivedCapabilities`
establishes, and for texts that need no escaping: those are the texts the
generated code gets right, and `CSharpLiteral.EscapeKeepsSafeTexts` shows
escaping would leave them unchanged. `EnumGenerator.QualifiedSplit` is
proved for both readings of the part kinds, so it covers the corrected
split (`AllTypeNames`) as well as the code as written (`AsWritten`).
