/**
 * The values the resolver works on (directives, descriptors, reported errors) and its two
 * pure steps: parsing a directive's lookup text into a (type pattern, assembly name) pair,
 * and deciding whether a descriptor is selected by such a pair.
 */
module Lookup {
  import opened Wrappers
  import opened Text
  import opened Wildcard

  /** A position in the Razor document; the resolver only passes it through to errors. */
  datatype SourceLocation = SourceLocation(absoluteIndex: int, lineIndex: int, characterIndex: int)

  /** The two directive kinds, named as the `TagHelperDirectiveType` enum names them. */
  datatype TagHelperDirectiveType = AddTagHelper | RemoveTagHelper

  /** A parsed `@addtaghelper` / `@removetaghelper` directive; its lookup text may be null. */
  datatype TagHelperDirectiveDescriptor = TagHelperDirectiveDescriptor(
    directiveType: TagHelperDirectiveType,
    lookupText: Option<string>,
    location: SourceLocation)

  /** An HTML attribute bound to a property of the tag helper. */
  datatype TagHelperAttributeDescriptor = TagHelperAttributeDescriptor(name: string, propertyName: string)

  /** One tag helper targeting one tag; equality is structural. */
  datatype TagHelperDescriptor = TagHelperDescriptor(
    tagName: string,
    typeName: string,
    assemblyName: string,
    attributes: seq<TagHelperAttributeDescriptor>)

  /** What the resolver reports to its error sink, as structured values instead of
      formatted resource strings. */
  datatype ResolutionError =
    | InvalidLookupText(location: SourceLocation, lookupText: Option<string>)
    | EncounteredUnexpectedError(location: SourceLocation, directiveName: string,
                                 lookupText: Option<string>, message: string)

  /** The parsed lookup text: a type-name pattern and an assembly name. */
  datatype LookupInfo = LookupInfo(typeMatcher: string, assemblyName: string)

  /** What the two halves of a parsed lookup text look like: non-empty, comma-free and not
      padded with white space. */
  predicate IsLookupPart(part: string)
  {
    part != [] && ',' !in part && !IsWhiteSpace(part[0]) && !IsWhiteSpace(part[|part| - 1])
  }

  /** The lookup text has exactly one comma, at `k`, with something other than white space
      on each side of it. */
  predicate IsWellFormedAt(text: string, k: int)
  {
    0 <= k < |text| && text[k] == ',' && ',' !in text[..k] && ',' !in text[k + 1..] &&
    !IsBlank(text[..k]) && !IsBlank(text[k + 1..])
  }

  lemma TrimmedPieceIsLookupPart(piece: string)
    requires ',' !in piece && !IsBlank(piece)
    ensures IsLookupPart(Trim(piece))
  {
    var i, j := TrimKeepsCore(piece);
    assert forall c :: c in piece[i..j] ==> c in piece;
  }

  /** `lookupStrings.Any(string.IsNullOrWhiteSpace)`. */
  predicate AnyNullOrWhiteSpace(pieces: seq<string>)
  {
    exists k :: 0 <= k < |pieces| && IsNullOrWhiteSpace(Some(pieces[k]))
  }

  /** A text that splits into two pieces has its only comma between them. */
  lemma SplitInTwo(text: string) returns (k: int)
    requires |Split(text, ',')| == 2
    ensures 0 <= k < |text| && text[k] == ','
    ensures text[..k] == Split(text, ',')[0] && text[k + 1..] == Split(text, ',')[1]
    ensures ',' !in text[..k] && ',' !in text[k + 1..]
  {
    var pieces := Split(text, ',');
    JoinOfTwo(pieces, ',');
    k := |pieces[0]|;
    assert text[..k] == pieces[0];
    assert text[k + 1..] == pieces[1];
  }

  /** Splits the lookup text on ',' and accepts exactly two non-blank pieces, which are
      trimmed into (type pattern, assembly name); anything else is reported once, with the
      directive's location and its raw lookup text. */
  function GetLookupInfo(directive: TagHelperDirectiveDescriptor): (r: Result<LookupInfo, ResolutionError>)
    ensures r.Failure? ==> r.error == InvalidLookupText(directive.location, directive.lookupText)
    ensures r.Success? ==> directive.lookupText.Some?
    ensures r.Success? ==> IsLookupPart(r.value.typeMatcher) && IsLookupPart(r.value.assemblyName)
  {
    var lookupText := directive.lookupText;
    if lookupText.None? then
      Failure(InvalidLookupText(directive.location, lookupText))
    else
      var lookupStrings := Split(lookupText.value, ',');
      if AnyNullOrWhiteSpace(lookupStrings) || |lookupStrings| != 2 then
        Failure(InvalidLookupText(directive.location, lookupText))
      else
        TrimmedPieceIsLookupPart(lookupStrings[0]);
        TrimmedPieceIsLookupPart(lookupStrings[1]);
        Success(LookupInfo(Trim(lookupStrings[0]), Trim(lookupStrings[1])))
  }

  /** Acceptance, one way: a lookup text with a single comma and non-blank text on both
      sides parses into its two trimmed sides. */
  lemma {:induction false} WellFormedLookupParses(directive: TagHelperDirectiveDescriptor, k: int)
    requires directive.lookupText.Some? && IsWellFormedAt(directive.lookupText.value, k)
    ensures GetLookupInfo(directive) ==
      Success(LookupInfo(Trim(directive.lookupText.value[..k]), Trim(directive.lookupText.value[k + 1..])))
  {
    var text := directive.lookupText.value;
    var pieces := [text[..k], text[k + 1..]];
    assert pieces[1..] == [text[k + 1..]];
    assert Join(pieces, ',') == text;
    SplitOfJoin(pieces, ',');
  }

  /** Acceptance, the other way: a parsed lookup text has a single comma, at the returned
      position, with non-blank text on both sides, and the result is its two trimmed sides. */
  lemma {:induction false} ParsedLookupIsWellFormed(directive: TagHelperDirectiveDescriptor) returns (k: int)
    requires GetLookupInfo(directive).Success?
    ensures directive.lookupText.Some? && IsWellFormedAt(directive.lookupText.value, k)
    ensures GetLookupInfo(directive).value ==
      LookupInfo(Trim(directive.lookupText.value[..k]), Trim(directive.lookupText.value[k + 1..]))
  {
    var text := directive.lookupText.value;
    var pieces := Split(text, ',');
    assert !AnyNullOrWhiteSpace(pieces) && |pieces| == 2;
    assert !IsNullOrWhiteSpace(Some(pieces[0])) && !IsNullOrWhiteSpace(Some(pieces[1]));
    k := SplitInTwo(text);
  }

  /** A null lookup text, or one without any comma (a bare assembly name), is rejected. */
  lemma NoCommaIsRejected(directive: TagHelperDirectiveDescriptor)
    requires directive.lookupText.None? || ',' !in directive.lookupText.value
    ensures GetLookupInfo(directive) == Failure(InvalidLookupText(directive.location, directive.lookupText))
  {
    if directive.lookupText.Some? {
      SplitCount(directive.lookupText.value, ',');
    }
  }

  /** A lookup text with two commas or more is rejected. */
  lemma TwoCommasAreRejected(directive: TagHelperDirectiveDescriptor, k1: int, k2: int)
    requires directive.lookupText.Some?
    requires 0 <= k1 < k2 < |directive.lookupText.value|
    requires directive.lookupText.value[k1] == ',' && directive.lookupText.value[k2] == ','
    ensures GetLookupInfo(directive) == Failure(InvalidLookupText(directive.location, directive.lookupText))
  {
    if GetLookupInfo(directive).Success? {
      var k := ParsedLookupIsWellFormed(directive);
    }
  }

  /** A descriptor is selected when its assembly name is ordinally equal to the lookup's
      and its full type name matches the lookup's anchored wildcard pattern. */
  predicate MatchesLookupInfo(descriptor: TagHelperDescriptor, lookupInfo: LookupInfo)
  {
    descriptor.assemblyName == lookupInfo.assemblyName &&
    RegexIsMatch(lookupInfo.typeMatcher, descriptor.typeName)
  }

  /** Whatever the pattern, a descriptor from another assembly is never selected. */
  lemma OtherAssemblyNeverMatches(descriptor: TagHelperDescriptor, lookupInfo: LookupInfo)
    requires descriptor.assemblyName != lookupInfo.assemblyName
    ensures !MatchesLookupInfo(descriptor, lookupInfo)
  {
  }

  /** A lookup whose pattern is `*` selects every descriptor of its assembly. */
  lemma StarSelectsWholeAssembly(descriptor: TagHelperDescriptor, lookupInfo: LookupInfo)
    requires lookupInfo.typeMatcher == "*"
    ensures MatchesLookupInfo(descriptor, lookupInfo) <==> descriptor.assemblyName == lookupInfo.assemblyName
  {
    StarMatchesEverything(descriptor.typeName);
  }
}
