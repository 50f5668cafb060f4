/**
 * `TagHelperDescriptorResolver.Resolve`: the directives of a document, in order, fold an
 * initially empty set of tag helper descriptors. `@removetaghelper` deletes the descriptors
 * its lookup selects, `@addtaghelper` adds those of the named assembly that it selects, a
 * lookup text that does not parse abandons the whole resolution with an empty result, and
 * a failure of the assembly scan is reported and skips just that directive.
 */
module Resolution {
  import opened Wrappers
  import opened Text
  import opened Wildcard
  import opened Lookup

  /** The assembly scan (`ResolveDescriptorsInAssembly`, the overridable seam): given an
      assembly name and the directive's location, the descriptors of every tag helper in
      that assembly, or the message of the exception the scan threw. */
  type DescriptorProvider = (string, SourceLocation) -> Result<seq<TagHelperDescriptor>, string>

  /** The state of a resolution pass: still going, or abandoned by a malformed lookup text.
      Both carry the errors reported so far. */
  datatype Resolution =
    | Resolving(descriptors: set<TagHelperDescriptor>, errors: seq<ResolutionError>)
    | Abandoned(errors: seq<ResolutionError>)
  {
    /** What `Resolve` returns in this state. */
    function Descriptors(): set<TagHelperDescriptor>
    {
      if Resolving? then descriptors else {}
    }
  }

  /** `"@" + directiveType.ToString().ToLowerInvariant()`, the name that error messages use. */
  function DirectiveName(directiveType: TagHelperDirectiveType): string
  {
    match directiveType
    case AddTagHelper => "@addtaghelper"
    case RemoveTagHelper => "@removetaghelper"
  }

  /** The provider's descriptors that the lookup selects. */
  function MatchingDescriptors(found: seq<TagHelperDescriptor>, lookupInfo: LookupInfo): set<TagHelperDescriptor>
  {
    set descriptor | descriptor in found && MatchesLookupInfo(descriptor, lookupInfo)
  }

  /** One iteration of the resolution loop. */
  function Step(r: Resolution, directive: TagHelperDirectiveDescriptor, provider: DescriptorProvider): Resolution
  {
    match r
    case Abandoned(_) => r
    case Resolving(descriptors, errors) =>
      match GetLookupInfo(directive)
      case Failure(error) => Abandoned(errors + [error])
      case Success(lookupInfo) =>
        if directive.directiveType == RemoveTagHelper then
          Resolving((set descriptor | descriptor in descriptors && !MatchesLookupInfo(descriptor, lookupInfo)), errors)
        else
          match provider(lookupInfo.assemblyName, directive.location)
          case Failure(message) =>
            var error := EncounteredUnexpectedError(
              directive.location, DirectiveName(directive.directiveType), directive.lookupText, message);
            Resolving(descriptors, errors + [error])
          case Success(found) =>
            Resolving(descriptors + MatchingDescriptors(found, lookupInfo), errors)
  }

  /** The state after the given directives, applied in document order to an empty set. */
  function Resolved(directives: seq<TagHelperDirectiveDescriptor>, provider: DescriptorProvider): Resolution
  {
    if directives == [] then Resolving({}, [])
    else Step(Resolved(directives[..|directives| - 1], provider), directives[|directives| - 1], provider)
  }

  lemma ResolvedOfPrefix(directives: seq<TagHelperDirectiveDescriptor>, provider: DescriptorProvider, i: int)
    requires 0 <= i < |directives|
    ensures Resolved(directives[..i + 1], provider) == Step(Resolved(directives[..i], provider), directives[i], provider)
  {
    assert directives[..i + 1][..i] == directives[..i];
  }

  /** Removal deletes exactly the selected descriptors, keeps the rest, reports nothing and
      does not consult the assembly scan. */
  lemma RemoveDeletesExactlyMatches(r: Resolution, directive: TagHelperDirectiveDescriptor,
                                    lookupInfo: LookupInfo, provider: DescriptorProvider, other: DescriptorProvider)
    requires r.Resolving? && directive.directiveType == RemoveTagHelper
    requires GetLookupInfo(directive) == Success(lookupInfo)
    ensures Step(r, directive, provider) == Step(r, directive, other)
    ensures Step(r, directive, provider).Resolving? && Step(r, directive, provider).errors == r.errors
    ensures forall d :: d in Step(r, directive, provider).descriptors <==>
                          d in r.descriptors && !MatchesLookupInfo(d, lookupInfo)
  {
  }

  /** Addition keeps every descriptor and brings in exactly the selected descriptors of
      the assembly; being a set, one already present is not stored twice. */
  lemma AddUnionsMatches(r: Resolution, directive: TagHelperDirectiveDescriptor,
                         lookupInfo: LookupInfo, provider: DescriptorProvider, found: seq<TagHelperDescriptor>)
    requires r.Resolving? && directive.directiveType == AddTagHelper
    requires GetLookupInfo(directive) == Success(lookupInfo)
    requires provider(lookupInfo.assemblyName, directive.location) == Success(found)
    ensures Step(r, directive, provider).Resolving? && Step(r, directive, provider).errors == r.errors
    ensures forall d :: d in Step(r, directive, provider).descriptors <==>
                          d in r.descriptors || (d in found && MatchesLookupInfo(d, lookupInfo))
  {
  }

  /** A failing assembly scan leaves the descriptors as they were and adds exactly one
      error, at the directive's location, naming `@addtaghelper`, the lookup text and the
      failure message; resolution goes on. */
  lemma ScanFailureIsReportedAndSkipped(r: Resolution, directive: TagHelperDirectiveDescriptor,
                                        lookupInfo: LookupInfo, provider: DescriptorProvider, message: string)
    requires r.Resolving? && directive.directiveType == AddTagHelper
    requires GetLookupInfo(directive) == Success(lookupInfo)
    requires provider(lookupInfo.assemblyName, directive.location) == Failure(message)
    ensures Step(r, directive, provider) ==
      Resolving(r.descriptors,
                r.errors + [EncounteredUnexpectedError(directive.location, "@addtaghelper", directive.lookupText, message)])
  {
  }

  /** Once abandoned, a resolution stays abandoned and reports nothing more. */
  lemma {:induction false} AbandonedStaysAbandoned(directives: seq<TagHelperDirectiveDescriptor>,
                                                   provider: DescriptorProvider, i: int)
    requires 0 <= i <= |directives|
    requires Resolved(directives[..i], provider).Abandoned?
    ensures Resolved(directives, provider) == Resolved(directives[..i], provider)
    decreases |directives| - i
  {
    if i < |directives| {
      ResolvedOfPrefix(directives, provider, i);
      AbandonedStaysAbandoned(directives, provider, i + 1);
    } else {
      assert directives[..i] == directives;
    }
  }

  /** The first malformed lookup text reports exactly one error, with its location and raw
      text, and makes the whole resolution return nothing: what earlier directives selected
      is discarded and later directives are not looked at. */
  lemma MalformedLookupDiscardsEverything(directives: seq<TagHelperDirectiveDescriptor>,
                                          provider: DescriptorProvider, i: int)
    requires 0 <= i < |directives|
    requires Resolved(directives[..i], provider).Resolving?
    requires GetLookupInfo(directives[i]).Failure?
    ensures Resolved(directives, provider) ==
      Abandoned(Resolved(directives[..i], provider).errors +
                [InvalidLookupText(directives[i].location, directives[i].lookupText)])
    ensures Resolved(directives, provider).Descriptors() == {}
  {
    ResolvedOfPrefix(directives, provider, i);
    AbandonedStaysAbandoned(directives, provider, i + 1);
  }

  /** Adding then removing the same lookup leaves none of its matches. */
  lemma AddThenRemoveLeavesNoMatch(r: Resolution, add: TagHelperDirectiveDescriptor,
                                   remove: TagHelperDirectiveDescriptor, provider: DescriptorProvider,
                                   lookupInfo: LookupInfo)
    requires r.Resolving?
    requires add.directiveType == AddTagHelper && remove.directiveType == RemoveTagHelper
    requires GetLookupInfo(add) == Success(lookupInfo) && GetLookupInfo(remove) == Success(lookupInfo)
    ensures Step(Step(r, add, provider), remove, provider).Resolving?
    ensures forall d :: d in Step(Step(r, add, provider), remove, provider).descriptors ==>
                          !MatchesLookupInfo(d, lookupInfo)
  {
  }

  /** Removing then adding the same lookup leaves every match the scan yields. */
  lemma RemoveThenAddKeepsMatches(r: Resolution, remove: TagHelperDirectiveDescriptor,
                                  add: TagHelperDirectiveDescriptor, provider: DescriptorProvider,
                                  lookupInfo: LookupInfo, found: seq<TagHelperDescriptor>)
    requires r.Resolving?
    requires add.directiveType == AddTagHelper && remove.directiveType == RemoveTagHelper
    requires GetLookupInfo(add) == Success(lookupInfo) && GetLookupInfo(remove) == Success(lookupInfo)
    requires provider(lookupInfo.assemblyName, add.location) == Success(found)
    ensures Step(Step(r, remove, provider), add, provider).Resolving?
    ensures forall d :: d in found && MatchesLookupInfo(d, lookupInfo) ==>
                          d in Step(Step(r, remove, provider), add, provider).descriptors
  {
  }

  /** `directive` is an `@addtaghelper` whose lookup parses, whose assembly scan succeeds
      and whose selection includes `descriptor`. */
  predicate Contributes(directive: TagHelperDirectiveDescriptor, provider: DescriptorProvider,
                        descriptor: TagHelperDescriptor)
  {
    directive.directiveType == AddTagHelper &&
    GetLookupInfo(directive).Success? &&
    var lookupInfo := GetLookupInfo(directive).value;
    var scanned := provider(lookupInfo.assemblyName, directive.location);
    scanned.Success? && descriptor in scanned.value && MatchesLookupInfo(descriptor, lookupInfo)
  }

  /** A step leaves the resolution going only if it was going and the lookup parsed. */
  lemma StepGoesOnOnlyAfterParsing(r: Resolution, directive: TagHelperDirectiveDescriptor,
                                   provider: DescriptorProvider)
    requires Step(r, directive, provider).Resolving?
    ensures r.Resolving? && GetLookupInfo(directive).Success?
  {
  }

  /** A resolution still going after some directives has parsed the lookup text of every
      one of them. */
  predicate AllLookupsParse(directives: seq<TagHelperDirectiveDescriptor>)
  {
    forall j :: 0 <= j < |directives| ==> GetLookupInfo(directives[j]).Success?
  }

  lemma AllLookupsParseExtends(before: seq<TagHelperDirectiveDescriptor>, directive: TagHelperDirectiveDescriptor)
    requires AllLookupsParse(before) && GetLookupInfo(directive).Success?
    ensures AllLookupsParse(before + [directive])
  {
    var directives := before + [directive];
    forall j | 0 <= j < |directives|
      ensures GetLookupInfo(directives[j]).Success?
    {
      if j < |before| {
        assert directives[j] == before[j];
      }
    }
  }

  lemma {:induction false} ResolvingParsedEveryLookup(directives: seq<TagHelperDirectiveDescriptor>,
                                                      provider: DescriptorProvider)
    requires Resolved(directives, provider).Resolving?
    ensures AllLookupsParse(directives)
  {
    if directives != [] {
      var before := directives[..|directives| - 1];
      var last := directives[|directives| - 1];
      StepGoesOnOnlyAfterParsing(Resolved(before, provider), last, provider);
      ResolvingParsedEveryLookup(before, provider);
      AllLookupsParseExtends(before, last);
      assert directives == before + [last];
    }
  }

  /** Every resolved descriptor comes from a pass in which every lookup parsed: it was found
      by some `@addtaghelper` directive's assembly scan, is selected by that directive's
      lookup, and no later `@removetaghelper` selects it. */
  /** No `@removetaghelper` after position `i` selects `descriptor`. */
  predicate NoLaterRemoveSelects(directives: seq<TagHelperDirectiveDescriptor>, i: nat,
                                 descriptor: TagHelperDescriptor)
  {
    forall j :: i < j < |directives| && directives[j].directiveType == RemoveTagHelper &&
                GetLookupInfo(directives[j]).Success? ==>
                  !MatchesLookupInfo(descriptor, GetLookupInfo(directives[j]).value)
  }

  /** A descriptor present after a step either was present before it and, if the step
      removes, is not selected by it, or was brought in by that step. */
  lemma StepKeepsOrContributes(r: Resolution, directive: TagHelperDirectiveDescriptor,
                               provider: DescriptorProvider, descriptor: TagHelperDescriptor)
    requires descriptor in Step(r, directive, provider).Descriptors()
    ensures descriptor in r.Descriptors() || Contributes(directive, provider, descriptor)
    ensures directive.directiveType == RemoveTagHelper ==>
              GetLookupInfo(directive).Success? &&
              !MatchesLookupInfo(descriptor, GetLookupInfo(directive).value)
  {
  }

  /** A directive appended after position `i` that does not remove `descriptor` keeps
      `NoLaterRemoveSelects` at `i`. */
  lemma NoLaterRemoveSelectsExtends(before: seq<TagHelperDirectiveDescriptor>,
                                    directive: TagHelperDirectiveDescriptor, i: nat,
                                    descriptor: TagHelperDescriptor)
    requires i <= |before| && NoLaterRemoveSelects(before, i, descriptor)
    requires directive.directiveType == RemoveTagHelper && GetLookupInfo(directive).Success? ==>
               !MatchesLookupInfo(descriptor, GetLookupInfo(directive).value)
    ensures NoLaterRemoveSelects(before + [directive], i, descriptor)
  {
    var directives := before + [directive];
    forall j | i < j < |directives| && directives[j].directiveType == RemoveTagHelper &&
               GetLookupInfo(directives[j]).Success?
      ensures !MatchesLookupInfo(descriptor, GetLookupInfo(directives[j]).value)
    {
      if j < |before| {
        assert directives[j] == before[j];
      }
    }
  }

  lemma {:induction false} EveryResultWasAdded(directives: seq<TagHelperDirectiveDescriptor>,
                                               provider: DescriptorProvider, descriptor: TagHelperDescriptor)
    requires descriptor in Resolved(directives, provider).Descriptors()
    ensures AllLookupsParse(directives)
    ensures exists i: nat :: i < |directives| && Contributes(directives[i], provider, descriptor) &&
                             NoLaterRemoveSelects(directives, i, descriptor)
  {
    ResolvingParsedEveryLookup(directives, provider);
    var n := |directives| - 1;
    var before := directives[..n];
    var last := directives[n];
    ResolvedOfPrefix(directives, provider, n);
    assert directives[..n + 1] == directives;
    assert directives == before + [last];
    StepKeepsOrContributes(Resolved(before, provider), last, provider, descriptor);
    if descriptor in Resolved(before, provider).Descriptors() {
      EveryResultWasAdded(before, provider, descriptor);
      var i: nat :| i < |before| && Contributes(before[i], provider, descriptor) &&
                    NoLaterRemoveSelects(before, i, descriptor);
      NoLaterRemoveSelectsExtends(before, last, i, descriptor);
      assert directives[i] == before[i];
    } else {
      assert NoLaterRemoveSelects(directives, n, descriptor);
    }
  }

  /** A resolved descriptor survives the rest of the document unless a later lookup is
      malformed or a later `@removetaghelper` selects it. */
  lemma {:induction false} ResultPersists(directives: seq<TagHelperDirectiveDescriptor>,
                                          provider: DescriptorProvider, i: int, descriptor: TagHelperDescriptor)
    requires 0 <= i <= |directives|
    requires Resolved(directives[..i], provider).Resolving?
    requires descriptor in Resolved(directives[..i], provider).descriptors
    requires forall j :: i <= j < |directives| ==> GetLookupInfo(directives[j]).Success?
    requires forall j :: i <= j < |directives| && directives[j].directiveType == RemoveTagHelper ==>
               !MatchesLookupInfo(descriptor, GetLookupInfo(directives[j]).value)
    ensures Resolved(directives, provider).Resolving?
    ensures descriptor in Resolved(directives, provider).descriptors
    decreases |directives| - i
  {
    if i < |directives| {
      ResolvedOfPrefix(directives, provider, i);
      ResultPersists(directives, provider, i + 1, descriptor);
    } else {
      assert directives[..i] == directives;
    }
  }

  /** Conversely, what an `@addtaghelper` selects from a successful scan is in the result,
      whatever earlier scans failed, unless the resolution was abandoned before it, a later
      lookup is malformed, or a later `@removetaghelper` selects it. */
  lemma AddedDescriptorIsResolved(directives: seq<TagHelperDirectiveDescriptor>, provider: DescriptorProvider,
                                  i: int, descriptor: TagHelperDescriptor)
    requires 0 <= i < |directives|
    requires Resolved(directives[..i], provider).Resolving?
    requires Contributes(directives[i], provider, descriptor)
    requires forall j :: i < j < |directives| ==> GetLookupInfo(directives[j]).Success?
    requires forall j :: i < j < |directives| && directives[j].directiveType == RemoveTagHelper ==>
               !MatchesLookupInfo(descriptor, GetLookupInfo(directives[j]).value)
    ensures descriptor in Resolved(directives, provider).Descriptors()
  {
    ResolvedOfPrefix(directives, provider, i);
    ResultPersists(directives, provider, i + 1, descriptor);
  }

  /** A step reports at most one error and keeps those already reported. */
  lemma StepReportsAtMostOne(r: Resolution, directive: TagHelperDirectiveDescriptor, provider: DescriptorProvider)
    ensures r.errors <= Step(r, directive, provider).errors
    ensures |Step(r, directive, provider).errors| <= |r.errors| + 1
  {
  }

  /** Each directive reports at most one error. */
  lemma {:induction false} AtMostOneErrorPerDirective(directives: seq<TagHelperDirectiveDescriptor>,
                                                      provider: DescriptorProvider)
    ensures |Resolved(directives, provider).errors| <= |directives|
  {
    if directives != [] {
      var n := |directives| - 1;
      AtMostOneErrorPerDirective(directives[..n], provider);
      StepReportsAtMostOne(Resolved(directives[..n], provider), directives[n], provider);
    }
  }

  /** What is reported stays reported: the errors after a prefix of the directives begin
      the errors after all of them. */
  lemma {:induction false} ErrorsOnlyGrow(directives: seq<TagHelperDirectiveDescriptor>,
                                          provider: DescriptorProvider, i: int)
    requires 0 <= i <= |directives|
    ensures Resolved(directives[..i], provider).errors <= Resolved(directives, provider).errors
    decreases |directives|
  {
    if i == |directives| {
      assert directives[..i] == directives;
    } else {
      var n := |directives| - 1;
      var before := directives[..n];
      assert before[..i] == directives[..i];
      ErrorsOnlyGrow(before, provider, i);
      StepReportsAtMostOne(Resolved(before, provider), directives[n], provider);
    }
  }

  /** A directive at the start of the document. */
  function Directive(directiveType: TagHelperDirectiveType, lookupText: string): TagHelperDirectiveDescriptor
  {
    TagHelperDirectiveDescriptor(directiveType, Some(lookupText), SourceLocation(0, 0, 0))
  }

  /** `"<typeMatcher>, A"` parses into `typeMatcher` and `A`. */
  lemma ParsesAsTypeInA(directive: TagHelperDirectiveDescriptor, typeMatcher: string)
    requires directive.lookupText == Some(typeMatcher + ", A")
    requires typeMatcher != [] && ',' !in typeMatcher
    requires !IsWhiteSpace(typeMatcher[0]) && !IsWhiteSpace(typeMatcher[|typeMatcher| - 1])
    ensures GetLookupInfo(directive) == Success(LookupInfo(typeMatcher, "A"))
  {
    var text := directive.lookupText.value;
    var k := |typeMatcher|;
    assert text[..k] == typeMatcher && text[k] == ',' && text[k + 1..] == " A";
    assert !IsWhiteSpace(text[..k][0]) && !IsWhiteSpace(text[k + 1..][1]);
    WellFormedLookupParses(directive, k);
    TrimOfUnpadded(typeMatcher);
    assert TrimStart(" A") == TrimStart(" A"[1..]);
    assert " A"[1..] == "A";
    TrimOfUnpadded("A");
  }

  /** An assembly `A` holding the tag helpers `foo` and `bar`. */
  function AssemblyA(foo: TagHelperDescriptor, bar: TagHelperDescriptor): DescriptorProvider
  {
    (assemblyName, location) => if assemblyName == "A" then Success([foo, bar]) else Failure("not found")
  }

  lemma SelectedFromAssemblyA(foo: TagHelperDescriptor, bar: TagHelperDescriptor)
    requires foo.typeName == "Foo" && bar.typeName == "Bar" && foo.assemblyName == bar.assemblyName == "A"
    ensures MatchingDescriptors([foo, bar], LookupInfo("*", "A")) == {foo, bar}
    ensures MatchingDescriptors([foo, bar], LookupInfo("Foo", "A")) == {foo}
    ensures MatchesLookupInfo(foo, LookupInfo("Foo", "A")) && !MatchesLookupInfo(bar, LookupInfo("Foo", "A"))
    ensures foo != bar
  {
    StarMatchesEverything("Foo");
    StarMatchesEverything("Bar");
    LiteralPatternIsExact("Foo", "Foo");
    LiteralPatternIsExact("Foo", "Bar");
  }

  lemma AddStepIs(r: Resolution, directive: TagHelperDirectiveDescriptor, provider: DescriptorProvider,
                  lookupInfo: LookupInfo, found: seq<TagHelperDescriptor>)
    requires r.Resolving? && directive.directiveType == AddTagHelper
    requires GetLookupInfo(directive) == Success(lookupInfo)
    requires provider(lookupInfo.assemblyName, directive.location) == Success(found)
    ensures Step(r, directive, provider) == Resolving(r.descriptors + MatchingDescriptors(found, lookupInfo), r.errors)
  {
  }

  lemma RemoveStepIs(r: Resolution, directive: TagHelperDirectiveDescriptor, provider: DescriptorProvider,
                     lookupInfo: LookupInfo)
    requires r.Resolving? && directive.directiveType == RemoveTagHelper
    requires GetLookupInfo(directive) == Success(lookupInfo)
    ensures Step(r, directive, provider) ==
      Resolving((set d | d in r.descriptors && !MatchesLookupInfo(d, lookupInfo)), r.errors)
  {
  }

  lemma ResolvedOfThree(first: TagHelperDirectiveDescriptor, second: TagHelperDirectiveDescriptor,
                        third: TagHelperDirectiveDescriptor, provider: DescriptorProvider)
    ensures Resolved([first, second, third], provider) ==
      Step(Step(Step(Resolving({}, []), first, provider), second, provider), third, provider)
  {
    assert [first][..0] == [];
    assert Resolved([first], provider) == Step(Resolving({}, []), first, provider);
    assert [first, second][..1] == [first];
    assert Resolved([first, second], provider) == Step(Resolved([first], provider), second, provider);
    assert [first, second, third][..2] == [first, second];
  }

  /** With `foo` and `bar` in one assembly, both selected by `addAll`'s lookup and only
      `foo` by the lookup of `addFoo` and `removeFoo`: adding all, then removing and
      re-adding `foo` keeps it, while re-adding before removing loses it. */
  lemma RemoveAddDoesNotCommute(addAll: TagHelperDirectiveDescriptor, addFoo: TagHelperDirectiveDescriptor,
                                removeFoo: TagHelperDirectiveDescriptor, provider: DescriptorProvider,
                                foo: TagHelperDescriptor, bar: TagHelperDescriptor,
                                all: LookupInfo, fooOnly: LookupInfo)
    requires addAll.directiveType == AddTagHelper && GetLookupInfo(addAll) == Success(all)
    requires addFoo.directiveType == AddTagHelper && GetLookupInfo(addFoo) == Success(fooOnly)
    requires removeFoo.directiveType == RemoveTagHelper && GetLookupInfo(removeFoo) == Success(fooOnly)
    requires provider(all.assemblyName, addAll.location) == Success([foo, bar])
    requires provider(fooOnly.assemblyName, addFoo.location) == Success([foo, bar])
    requires MatchesLookupInfo(foo, all) && MatchesLookupInfo(bar, all)
    requires MatchesLookupInfo(foo, fooOnly) && !MatchesLookupInfo(bar, fooOnly)
    ensures Resolved([addAll, removeFoo, addFoo], provider) == Resolving({foo, bar}, [])
    ensures Resolved([addAll, addFoo, removeFoo], provider) == Resolving({bar}, [])
  {
    ResolvedOfThree(addAll, removeFoo, addFoo, provider);
    ResolvedOfThree(addAll, addFoo, removeFoo, provider);
    var start := Resolving({}, []);
    AddStepIs(start, addAll, provider, all, [foo, bar]);
    assert MatchingDescriptors([foo, bar], all) == {foo, bar};
    var everything := Step(start, addAll, provider);
    assert everything == Resolving({foo, bar}, []);
    RemoveStepIs(everything, removeFoo, provider, fooOnly);
    var kept := set d | d in {foo, bar} && !MatchesLookupInfo(d, fooOnly);
    assert foo !in kept && bar in kept;
    assert kept == {bar};
    var removed := Step(everything, removeFoo, provider);
    assert removed == Resolving({bar}, []);
    assert MatchingDescriptors([foo, bar], fooOnly) == {foo};
    AddStepIs(removed, addFoo, provider, fooOnly, [foo, bar]);
    AddStepIs(everything, addFoo, provider, fooOnly, [foo, bar]);
    var added := Step(everything, addFoo, provider);
    assert added == everything;
    RemoveStepIs(added, removeFoo, provider, fooOnly);
  }

  /** The same with the lookup texts written out: `"*, A"`, `"Foo, A"`. */
  lemma OrderMatters(foo: TagHelperDescriptor, bar: TagHelperDescriptor)
    requires foo.typeName == "Foo" && bar.typeName == "Bar" && foo.assemblyName == bar.assemblyName == "A"
    ensures Resolved([Directive(AddTagHelper, "*, A"), Directive(RemoveTagHelper, "Foo, A"),
                      Directive(AddTagHelper, "Foo, A")], AssemblyA(foo, bar)).Descriptors() == {foo, bar}
    ensures Resolved([Directive(AddTagHelper, "*, A"), Directive(AddTagHelper, "Foo, A"),
                      Directive(RemoveTagHelper, "Foo, A")], AssemblyA(foo, bar)).Descriptors() == {bar}
  {
    var addAll, addFoo, removeFoo :=
      Directive(AddTagHelper, "*, A"), Directive(AddTagHelper, "Foo, A"), Directive(RemoveTagHelper, "Foo, A");
    assert "*" + ", A" == "*, A" && "Foo" + ", A" == "Foo, A";
    ParsesAsTypeInA(addAll, "*");
    ParsesAsTypeInA(addFoo, "Foo");
    ParsesAsTypeInA(removeFoo, "Foo");
    SelectedFromAssemblyA(foo, bar);
    RemoveAddDoesNotCommute(addAll, addFoo, removeFoo, AssemblyA(foo, bar), foo, bar,
                            LookupInfo("*", "A"), LookupInfo("Foo", "A"));
  }

  /** The resolver; its assembly scan is the overridable `ResolveDescriptorsInAssembly`. */
  class TagHelperDescriptorResolver {
    const resolveDescriptorsInAssembly: DescriptorProvider

    constructor (provider: DescriptorProvider)
      ensures resolveDescriptorsInAssembly == provider
    {
      resolveDescriptorsInAssembly := provider;
    }

    /** Applies the directives in order to a descriptor set that starts empty, returning the
        final set and the errors reported along the way. */
    method Resolve(directiveDescriptors: seq<TagHelperDirectiveDescriptor>)
      returns (descriptors: set<TagHelperDescriptor>, errors: seq<ResolutionError>)
      ensures descriptors == Resolved(directiveDescriptors, resolveDescriptorsInAssembly).Descriptors()
      ensures errors == Resolved(directiveDescriptors, resolveDescriptorsInAssembly).errors
      ensures directiveDescriptors == [] ==> descriptors == {} && errors == []
    {
      var resolvedDescriptors: set<TagHelperDescriptor> := {};
      errors := [];
      var i := 0;
      while i < |directiveDescriptors|
        invariant 0 <= i <= |directiveDescriptors|
        invariant Resolved(directiveDescriptors[..i], resolveDescriptorsInAssembly) ==
                  Resolving(resolvedDescriptors, errors)
      {
        var directiveDescriptor := directiveDescriptors[i];
        ResolvedOfPrefix(directiveDescriptors, resolveDescriptorsInAssembly, i);
        var lookupInfo := GetLookupInfo(directiveDescriptor);
        if lookupInfo.Failure? {
          errors := errors + [lookupInfo.error];
          AbandonedStaysAbandoned(directiveDescriptors, resolveDescriptorsInAssembly, i + 1);
          return {}, errors;
        }
        var info := lookupInfo.value;
        if directiveDescriptor.directiveType == RemoveTagHelper {
          resolvedDescriptors :=
            set descriptor | descriptor in resolvedDescriptors && !MatchesLookupInfo(descriptor, info);
        } else {
          var scanned := resolveDescriptorsInAssembly(info.assemblyName, directiveDescriptor.location);
          if scanned.Failure? {
            var directiveName := DirectiveName(directiveDescriptor.directiveType);
            errors := errors + [EncounteredUnexpectedError(
              directiveDescriptor.location, directiveName, directiveDescriptor.lookupText, scanned.error)];
          } else {
            resolvedDescriptors := resolvedDescriptors + MatchingDescriptors(scanned.value, info);
          }
        }
        i := i + 1;
      }
      assert directiveDescriptors[..i] == directiveDescriptors;
      descriptors := resolvedDescriptors;
    }
  }
}
