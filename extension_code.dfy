/** The extension generator (`ExtensionCode.Generate`): the static class of
    extension methods `GetString`, `TryGetUnderlyingValue`/`GetUnderlyingValue`,
    the optional display-name and description lookups, and `IsFlagSet`. */
module ExtensionCode {
  import opened Wrappers
  import opened EnumModel

  datatype ExtensionArtifact = ExtensionArtifact(
    namespace: Option<string>,
    className: string,
    visibility: Visibility,
    enumRef: string,
    underlyingType: string,
    stringArms: seq<Entry>,                // GetString: `<Enum>.<member> => "<text>"`
    valueCases: seq<Entry>,                // TryGetUnderlyingValue: `case <Enum>.<member>: underlyingValue = <text>;`
    displayCases: Option<seq<Entry>>,      // TryGetDisplayName / GetDisplayName
    descriptionCases: Option<seq<Entry>>,  // TryGetDescription / GetDescription
    hasIsFlagSet: bool)

  method GetMemberStrings(ms: seq<Member>) returns (arms: seq<Entry>)
    ensures arms == Entries(ms, NameTier, |ms|)
  {
    arms := [];
    for i := 0 to |ms|
      invariant arms == Entries(ms, NameTier, i)
    {
      arms := arms + [Entry(i, ms[i].name)];
    }
  }

  method GetValueStrings(ms: seq<Member>) returns (cases: seq<Entry>)
    ensures cases == Entries(ms, ValueTier, |ms|)
  {
    cases := [];
    for i := 0 to |ms|
      invariant cases == Entries(ms, ValueTier, i)
    {
      cases := cases + [Entry(i, TextOf(ms[i], ValueTier).value)];
    }
  }

  method GetDisplayNames(ms: seq<Member>) returns (cases: seq<Entry>)
    ensures cases == Entries(ms, DisplayNameTier, |ms|)
  {
    cases := [];
    for i := 0 to |ms|
      invariant cases == Entries(ms, DisplayNameTier, i)
    {
      if ms[i].displayName.None? {
        continue;
      }
      cases := cases + [Entry(i, ms[i].displayName.value)];
    }
  }

  method GetDescriptions(ms: seq<Member>) returns (cases: seq<Entry>)
    ensures cases == Entries(ms, DescriptionTier, |ms|)
  {
    cases := [];
    for i := 0 to |ms|
      invariant cases == Entries(ms, DescriptionTier, i)
    {
      if ms[i].description.None? {
        continue;
      }
      cases := cases + [Entry(i, ms[i].description.value)];
    }
  }

  /** What the extension source written for `es` holds, field by field; it
      fixes every field of the artifact. */
  predicate Describes(es: EnumSpec, a: ExtensionArtifact) {
    && a.namespace == es.options.extNamespace
    && a.className == es.options.extName
    && a.visibility == VisibilityOf(es)
    && a.enumRef == (if es.options.extNamespace == es.namespace then es.fullName else es.fullyQualifiedName)
    && a.underlyingType == es.underlyingType
    && a.stringArms == Entries(es.members, NameTier, |es.members|)
    && a.valueCases == Entries(es.members, ValueTier, |es.members|)
    && a.displayCases == (if es.hasDisplay then Some(Entries(es.members, DisplayNameTier, |es.members|)) else None)
    && a.descriptionCases == (if es.hasDescription then Some(Entries(es.members, DescriptionTier, |es.members|)) else None)
    && a.hasIsFlagSet == es.hasFlags
  }

  /** At most one artifact fits a spec. */
  lemma DescribesUnique(es: EnumSpec, a: ExtensionArtifact, b: ExtensionArtifact)
    requires Describes(es, a) && Describes(es, b)
    ensures a == b
  {
  }

  method Generate(es: EnumSpec) returns (a: ExtensionArtifact)
    ensures Describes(es, a)
  {
    var sn := if es.options.extNamespace == es.namespace then es.fullName else es.fullyQualifiedName;
    var arms := GetMemberStrings(es.members);
    var values := GetValueStrings(es.members);
    var display: Option<seq<Entry>> := None;
    if es.hasDisplay {
      var cases := GetDisplayNames(es.members);
      display := Some(cases);
    }
    var description: Option<seq<Entry>> := None;
    if es.hasDescription {
      var cases := GetDescriptions(es.members);
      description := Some(cases);
    }
    a := ExtensionArtifact(es.options.extNamespace, es.options.extName, VisibilityOf(es), sn,
                           es.underlyingType, arms, values, display, description, es.hasFlags);
  }
}
