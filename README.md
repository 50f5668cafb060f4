# Tag-helper descriptor resolution (Razor runtime)

This project models the part of the Razor runtime that decides which tag helpers apply to
a document:

- `TagHelperDescriptorResolver.Resolve` takes the document's `@addtaghelper` /
  `@removetaghelper` directives in order.
- Each directive's lookup text, such as `"My*Helper, MyAssembly"`, is parsed into a
  type-name pattern and an assembly name.
- Removal deletes the matching descriptors from an accumulating set.
- Addition brings in the matching descriptors of the named assembly.
- A malformed lookup text abandons the whole pass with an empty result.
- A failing assembly scan is reported and skips only that directive.

It also models `HtmlElementNameAttribute`, which validates the tag names a tag helper
targets.

Files:

- `wrappers.dfy`: `Option` for .NET `null`, and `Result` for a call that throws.
- `text.dfy`: the .NET string primitives used by the core: `char.IsWhiteSpace` (the full
  .NET list of white-space characters), `IsNullOrWhiteSpace`, `Trim`, `Split(',')`.
- `wildcard.dfy`: the pattern language. `GlobMatches` is a recursive matcher. `IsInstance`
  is an independent reference semantics: "some filling-in of the stars". They are proved
  equal. `RegexIsMatch` is what the compiled `^…$` regex accepts.
- `lookup.dfy`: directives, descriptors and errors as datatypes, `GetLookupInfo` and
  `MatchesLookupInfo`.
- `resolver.dfy`: the pure specification (`Step`, `Resolved`), the imperative `Resolve`
  loop proved against it, and the properties of resolution.
- `html_element_name.dfy`: `ValidateTagName` and the two constructors.

Where the code and its comments disagree, the model follows the code:

- The comment at `TagHelperDescriptorResolver.cs:136-138` lists a bare `"assemblyName"` as
  a valid lookup text. The check at 139-141 rejects it (`NoCommaIsRejected`).
- The regex is anchored with `^` and `$` without the Multiline option. In .NET that `$`
  also matches just before a final `'\n'`. So a pattern without `*` accepts the identical
  type name and also that name followed by one newline (`LiteralPatternIsExact`). Real CLR
  type names never end in a newline.
- Descriptor equality is structural on the datatype, bound attributes in order. The
  comparer used by the `HashSet` is not part of this model.

## Model

| member | source | states |
|---|---|---|
| Text.IsNullOrWhiteSpace | src/Microsoft.AspNet.Razor.Runtime/TagHelpers/TagHelperDescriptorResolver.cs:140 | `string.IsNullOrWhiteSpace`: null, or made only of .NET white-space characters; its effect on parsing is stated by `Lookup.WellFormedLookupParses` and `Lookup.ParsedLookupIsWellFormed`, and on tag names by `HtmlElementName.ValidateTagName` |
| Text.Trim | src/Microsoft.AspNet.Razor.Runtime/TagHelpers/TagHelperDescriptorResolver.cs:152-153 | `string.Trim()`; its contract is stated by `Text.TrimKeepsCore` (and the two one-sided lemmas below) |
| Text.TrimStartDropsBlankPrefix | src/Microsoft.AspNet.Razor.Runtime/TagHelpers/TagHelperDescriptorResolver.cs:152-153 | the start of `Trim` removes exactly the longest white-space prefix: what is dropped is blank and what is kept is a suffix that does not start with white space |
| Text.TrimEndDropsBlankSuffix | src/Microsoft.AspNet.Razor.Runtime/TagHelpers/TagHelperDescriptorResolver.cs:152-153 | the end of `Trim` removes exactly the longest white-space suffix |
| Text.TrimKeepsCore | src/Microsoft.AspNet.Razor.Runtime/TagHelpers/TagHelperDescriptorResolver.cs:152-153 | `Trim(s)` is the slice of `s` between a blank prefix and a blank suffix; it neither starts nor ends with white space; it is empty exactly when `s` is blank |
| Text.Split | src/Microsoft.AspNet.Razor.Runtime/TagHelpers/TagHelperDescriptorResolver.cs:134 | `Split(',')` yields at least one piece, no piece contains a comma, and joining the pieces with commas gives back the text |
| Text.SplitCount | src/Microsoft.AspNet.Razor.Runtime/TagHelpers/TagHelperDescriptorResolver.cs:134 | the number of pieces is the number of commas plus one |
| Text.SplitOfJoin | src/Microsoft.AspNet.Razor.Runtime/TagHelpers/TagHelperDescriptorResolver.cs:134 | splitting undoes joining comma-free pieces, so the pieces of `Split` are the only comma-free pieces that join to the text |
| Wildcard.GlobMatches | src/Microsoft.AspNet.Razor.Runtime/TagHelpers/TagHelperDescriptorResolver.cs:117-125 | the anchored, Singleline match of the escaped pattern with each `\*` turned into `.*?`; its contract is stated by `Wildcard.ExpandMatches`, `Wildcard.MatchedIsExpansion` and `Wildcard.GlobMatchesIffInstance` |
| Wildcard.RegexIsMatch | src/Microsoft.AspNet.Razor.Runtime/TagHelpers/TagHelperDescriptorResolver.cs:117-127 | `IsMatch` of that regex, whose `$` also matches before a final newline; its contract is stated by `Wildcard.LiteralPatternIsExact` and `Wildcard.RegexIsMatchIffInstance` |
| Wildcard.ExpandMatches | src/Microsoft.AspNet.Razor.Runtime/TagHelpers/TagHelperDescriptorResolver.cs:117-127 | completeness: every string obtained by filling in the pattern's stars is matched |
| Wildcard.MatchedIsExpansion | src/Microsoft.AspNet.Razor.Runtime/TagHelpers/TagHelperDescriptorResolver.cs:117-127 | soundness: whatever is matched is a filling-in of the stars, and the returned fills witness it |
| Wildcard.GlobMatchesIffInstance | src/Microsoft.AspNet.Razor.Runtime/TagHelpers/TagHelperDescriptorResolver.cs:117-127 | the matcher accepts exactly the fillings-in of the stars, where `*` is any possibly-empty run, newlines included |
| Wildcard.LiteralPatternMatchesItself | src/Microsoft.AspNet.Razor.Runtime/TagHelpers/TagHelperDescriptorResolver.cs:117-118 | after escaping, a star-free pattern (`.` included) matches only itself |
| Wildcard.StarMatchesEverything | src/Microsoft.AspNet.Razor.Runtime/TagHelpers/TagHelperDescriptorResolver.cs:120-125 | the pattern `*` matches every string |
| Wildcard.EndsWithLiteral | src/Microsoft.AspNet.Razor.Runtime/TagHelpers/TagHelperDescriptorResolver.cs:120-122 | the match is anchored at the end: a pattern ending in a literal only matches strings ending in it |
| Wildcard.LiteralPatternIsExact | src/Microsoft.AspNet.Razor.Runtime/TagHelpers/TagHelperDescriptorResolver.cs:117-127 | through the compiled regex, a star-free pattern accepts the identical type name and that name plus one trailing newline, and nothing else |
| Wildcard.RegexIsMatchIffInstance | src/Microsoft.AspNet.Razor.Runtime/TagHelpers/TagHelperDescriptorResolver.cs:117-127 | the compiled regex accepts exactly the fillings-in of the stars, optionally followed by one newline |
| Wildcard.StarMatchesRun | src/Microsoft.AspNet.Razor.Runtime/TagHelpers/TagHelperDescriptorResolver.cs:117-127 | illustration: `My*Helper` matches `MyFooHelper` |
| Wildcard.StarMatchesEmptyRun | src/Microsoft.AspNet.Razor.Runtime/TagHelpers/TagHelperDescriptorResolver.cs:117-127 | illustration: `My*Helper` matches `MyHelper`, the star taking the empty run |
| Wildcard.LiteralTailMustEndName | src/Microsoft.AspNet.Razor.Runtime/TagHelpers/TagHelperDescriptorResolver.cs:120-122 | illustration: `My*Helper` does not match `MyHelperExtra`, the anchored end refusing the extra tail |
| Wildcard.DotIsLiteral | src/Microsoft.AspNet.Razor.Runtime/TagHelpers/TagHelperDescriptorResolver.cs:117-118 | illustration: the escaped `.` in `A.B` does not match `AxB` |
| Lookup.GetLookupInfo | src/Microsoft.AspNet.Razor.Runtime/TagHelpers/TagHelperDescriptorResolver.cs:130-155 | a failure is the single error carrying the directive's location and raw lookup text; a success comes from a non-null text and both parts are non-empty, comma-free and not padded with white space |
| Lookup.WellFormedLookupParses | src/Microsoft.AspNet.Razor.Runtime/TagHelpers/TagHelperDescriptorResolver.cs:133-154 | a text with exactly one comma and non-blank text on both sides parses into (trimmed left side, trimmed right side) as (type pattern, assembly) |
| Lookup.ParsedLookupIsWellFormed | src/Microsoft.AspNet.Razor.Runtime/TagHelpers/TagHelperDescriptorResolver.cs:133-154 | conversely, every successful parse has exactly one comma with non-blank text on both sides, and its result is those two sides trimmed |
| Lookup.NoCommaIsRejected | src/Microsoft.AspNet.Razor.Runtime/TagHelpers/TagHelperDescriptorResolver.cs:134-148 | a null lookup text, or one without a comma (a bare assembly name), is rejected with the invalid-lookup-text error |
| Lookup.TwoCommasAreRejected | src/Microsoft.AspNet.Razor.Runtime/TagHelpers/TagHelperDescriptorResolver.cs:139-148 | a lookup text with two or more commas is rejected |
| Lookup.MatchesLookupInfo | src/Microsoft.AspNet.Razor.Runtime/TagHelpers/TagHelperDescriptorResolver.cs:110-128 | ordinal assembly equality, then the type-name regex; its contract is stated by `Lookup.OtherAssemblyNeverMatches`, `Lookup.StarSelectsWholeAssembly` and, through `Wildcard.RegexIsMatchIffInstance`, the fill-in semantics |
| Lookup.OtherAssemblyNeverMatches | src/Microsoft.AspNet.Razor.Runtime/TagHelpers/TagHelperDescriptorResolver.cs:112-115 | a descriptor whose assembly name differs ordinally never matches, whatever the pattern |
| Lookup.StarSelectsWholeAssembly | src/Microsoft.AspNet.Razor.Runtime/TagHelpers/TagHelperDescriptorResolver.cs:110-128 | with pattern `*`, a descriptor matches exactly when it is in the lookup's assembly |
| Resolution.DirectiveName | src/Microsoft.AspNet.Razor.Runtime/TagHelpers/TagHelperDescriptorResolver.cs:70 | the lower-cased directive name used in the unexpected-error report; `Resolution.ScanFailureIsReportedAndSkipped` states that a failing scan reports `@addtaghelper` |
| Resolution.MatchingDescriptors | src/Microsoft.AspNet.Razor.Runtime/TagHelpers/TagHelperDescriptorResolver.cs:62-63 | the scanned descriptors the lookup selects; stated by `Resolution.AddUnionsMatches` |
| Resolution.Step | src/Microsoft.AspNet.Razor.Runtime/TagHelpers/TagHelperDescriptorResolver.cs:42-78 | one loop iteration; its contract is stated by `Resolution.RemoveDeletesExactlyMatches`, `Resolution.AddUnionsMatches`, `Resolution.ScanFailureIsReportedAndSkipped`, `Resolution.StepGoesOnOnlyAfterParsing`, `Resolution.StepKeepsOrContributes` and `Resolution.StepReportsAtMostOne` |
| Resolution.Resolved | src/Microsoft.AspNet.Razor.Runtime/TagHelpers/TagHelperDescriptorResolver.cs:38-81 | the loop as an in-order fold from the empty set; its contract is stated by `Resolution.EveryResultWasAdded`, `Resolution.AddedDescriptorIsResolved`, `Resolution.MalformedLookupDiscardsEverything`, `Resolution.AbandonedStaysAbandoned` and `Resolution.ErrorsOnlyGrow`, and `Resolution.TagHelperDescriptorResolver.Resolve` is proved equal to it |
| Resolution.RemoveDeletesExactlyMatches | src/Microsoft.AspNet.Razor.Runtime/TagHelpers/TagHelperDescriptorResolver.cs:52-55 | a remove directive keeps exactly the old elements that do not match, reports nothing, and its result does not depend on the assembly scan |
| Resolution.AddUnionsMatches | src/Microsoft.AspNet.Razor.Runtime/TagHelpers/TagHelperDescriptorResolver.cs:56-66 | an add directive keeps every old element and adds exactly the scanned descriptors that match; as a set, an element already present is not stored twice |
| Resolution.ScanFailureIsReportedAndSkipped | src/Microsoft.AspNet.Razor.Runtime/TagHelpers/TagHelperDescriptorResolver.cs:68-78 | a failing scan leaves the set unchanged and appends exactly one error: the directive's location, `@addtaghelper`, the lookup text and the failure message |
| Resolution.AbandonedStaysAbandoned | src/Microsoft.AspNet.Razor.Runtime/TagHelpers/TagHelperDescriptorResolver.cs:46-50 | after the early return, later directives change nothing and report nothing |
| Resolution.MalformedLookupDiscardsEverything | src/Microsoft.AspNet.Razor.Runtime/TagHelpers/TagHelperDescriptorResolver.cs:44-50 | the first malformed directive appends exactly one error with its location and lookup text, and the result is empty, whatever earlier directives selected |
| Resolution.AddThenRemoveLeavesNoMatch | src/Microsoft.AspNet.Razor.Runtime/TagHelpers/TagHelperDescriptorResolver.cs:40-66 | add followed by remove of the same lookup leaves no matching descriptor |
| Resolution.RemoveThenAddKeepsMatches | src/Microsoft.AspNet.Razor.Runtime/TagHelpers/TagHelperDescriptorResolver.cs:40-66 | remove followed by add of the same lookup leaves every matching descriptor of the scan |
| Resolution.RemoveAddDoesNotCommute | src/Microsoft.AspNet.Razor.Runtime/TagHelpers/TagHelperDescriptorResolver.cs:40-66 | adding all, then removing and re-adding `Foo`, yields {Foo, Bar}; swapping the last two yields {Bar} |
| Resolution.OrderMatters | src/Microsoft.AspNet.Razor.Runtime/TagHelpers/TagHelperDescriptorResolver.cs:40-66 | the same with the lookup texts `"*, A"` and `"Foo, A"` written out and parsed |
| Resolution.StepGoesOnOnlyAfterParsing | src/Microsoft.AspNet.Razor.Runtime/TagHelpers/TagHelperDescriptorResolver.cs:44-50 | after one directive the pass is still going only if it was going and the directive's lookup text parsed |
| Resolution.ResolvingParsedEveryLookup | src/Microsoft.AspNet.Razor.Runtime/TagHelpers/TagHelperDescriptorResolver.cs:40-50 | a pass that is still going has parsed the lookup text of every directive so far |
| Resolution.StepKeepsOrContributes | src/Microsoft.AspNet.Razor.Runtime/TagHelpers/TagHelperDescriptorResolver.cs:52-66 | a descriptor present after one directive was present before it or was brought in by it (an add with a successful scan that selects it); a remove that leaves it does not select it |
| Resolution.EveryResultWasAdded | src/Microsoft.AspNet.Razor.Runtime/TagHelpers/TagHelperDescriptorResolver.cs:38-81 | every resolved descriptor comes from a pass in which every lookup parsed, from the successful scan of some add directive whose lookup selects it, and no later remove directive selects it; with `AddedDescriptorIsResolved` this characterises membership in the result exactly (so no directives yield the empty set) |
| Resolution.ResultPersists | src/Microsoft.AspNet.Razor.Runtime/TagHelpers/TagHelperDescriptorResolver.cs:40-81 | a resolved descriptor stays unless a later lookup is malformed or a later remove matches it |
| Resolution.AddedDescriptorIsResolved | src/Microsoft.AspNet.Razor.Runtime/TagHelpers/TagHelperDescriptorResolver.cs:40-81 | what an add directive selects is in the result despite earlier failed scans, unless the pass was abandoned before it or a later directive is malformed or removes it |
| Resolution.StepReportsAtMostOne | src/Microsoft.AspNet.Razor.Runtime/TagHelpers/TagHelperDescriptorResolver.cs:42-78 | one directive keeps the errors already reported and adds at most one |
| Resolution.AtMostOneErrorPerDirective | src/Microsoft.AspNet.Razor.Runtime/TagHelpers/TagHelperDescriptorResolver.cs:40-79 | a pass reports at most one error per directive |
| Resolution.ErrorsOnlyGrow | src/Microsoft.AspNet.Razor.Runtime/TagHelpers/TagHelperDescriptorResolver.cs:40-79 | the errors after a prefix of the directives are a prefix of the final errors |
| Resolution.TagHelperDescriptorResolver.constructor | src/Microsoft.AspNet.Razor.Runtime/TagHelpers/TagHelperDescriptorResolver.cs:22-25 | the resolver keeps the assembly scan it is given |
| Resolution.TagHelperDescriptorResolver.Resolve | src/Microsoft.AspNet.Razor.Runtime/TagHelpers/TagHelperDescriptorResolver.cs:36-82 | the loop returns the set and errors of the in-order fold `Resolved` (empty set on abandonment), and an empty set with no errors for no directives |
| HtmlElementName.ValidateTagName | src/Microsoft.AspNet.Razor.Runtime/TagHelpers/HtmlElementNameAttribute.cs:50-62 | a name passes iff it is non-null, has a non-white-space character and has no `!`; null/blank gives the null-or-whitespace error; otherwise a `!` gives the invalid-name error naming the tag and `!` |
| HtmlElementName.ValidateAll | src/Microsoft.AspNet.Razor.Runtime/TagHelpers/HtmlElementNameAttribute.cs:37-40 | validating in order passes iff every name passes; otherwise the error is that of the first refused name |
| HtmlElementName.NewHtmlElementNameAttribute | src/Microsoft.AspNet.Razor.Runtime/TagHelpers/HtmlElementNameAttribute.cs:20-25 | succeeds iff the tag is valid, and then `Tags == [tag]`; otherwise fails with its validation error |
| HtmlElementName.NewHtmlElementNameAttributeWithAdditional | src/Microsoft.AspNet.Razor.Runtime/TagHelpers/HtmlElementNameAttribute.cs:32-43 | succeeds iff every name of `additionalTags + [tag]` is valid, and then `Tags` is the additional names in order followed by `tag`; otherwise fails with the first refusal; with no additional names it agrees with the single-name constructor |
| HtmlElementName.BangIsRefused | test/Microsoft.AspNet.Razor.Runtime.Test/TagHelpers/HtmlElementNameAttributeTest.cs:12-29 | the two tested cases: `"!"` alone, and `"p"` with the additional name `"!"` (validated as `["!", "p"]`), fail with the invalid-name error for tag `"!"` and character `!` |
| HtmlElementName.IllustrativeTagNames | src/Microsoft.AspNet.Razor.Runtime/TagHelpers/HtmlElementNameAttribute.cs:50-62 | illustrations: `"a!b"` is refused with the invalid-name error; `""`, `"   "` and null get the null-or-whitespace error; `input` and `my-component` pass |

## Left out

- Reflection-based assembly scanning (`TagHelperTypeResolver.Resolve`, `TagHelperDescriptorFactory.CreateDescriptors`) is not part of this model. `ResolveDescriptorsInAssembly` is a function parameter that returns the assembly's descriptors or the message of the exception it threw.
- Errors that the default scan writes to the error sink itself are not modelled. Only the resolver's own reports are.
- The scan's result is lazy in the source and enumerated inside `UnionWith`, so a throw partway through could leave a partial union in the set. The model treats a scan failure as all-or-nothing.
- The .NET `Regex` engine and `Regex.Escape` are replaced by the glob semantics they implement here (`GlobMatches`, `RegexIsMatch`). The non-greedy `.*?` does not change what an anchored `IsMatch` accepts.
- Resource strings are not formatted. Errors are structured values: `InvalidLookupText(location, lookupText)`, `EncounteredUnexpectedError(location, directiveName, lookupText, message)`, `ElementNameCannotBeNullOrWhitespace` and `InvalidElementName(tagName, invalidCharacter)`. No message text is modelled. The attribute's tests show the invalid-name text only for the tag `"!"` with the character `!`, so they cannot tell which of the two arguments the message names.
- DirectiveName: gives the two lower-cased enum names as constants instead of lower-casing the enum's `ToString()`.
- `HashSet` iteration order is not modelled: the result is a `set`. `TagHelperDescriptorComparer` is not part of this model: equality is datatype equality, so bound attributes in a different order make different descriptors.
- Exceptions other than a failing scan are not modelled, for example a null type name inside a descriptor. Strings in descriptors are never null here.
- `[NotNull]` argument checks are not modelled. The primary tag and the `additionalTags` array are non-null, but elements of `additionalTags` may be null (`None`).
- The attribute's `[AttributeUsage]` metadata and the code-generator baselines in `CSharpTagHelperRenderingTest.cs` are not modelled.
