/**
 * `HtmlElementNameAttribute`: the attribute a tag helper class uses to name the HTML
 * elements it targets. Each name is validated (not null, not blank, no `!`) and the
 * names are kept in `Tags`: the additional names in the order given, then the primary one.
 */
module HtmlElementName {
  import opened Wrappers
  import opened Text

  /** Why a tag name is refused (the two `ArgumentException`s of `ValidateTagName`). */
  datatype TagNameError =
    | ElementNameCannotBeNullOrWhitespace
    | InvalidElementName(tagName: string, invalidCharacter: char)

  /** A successfully constructed attribute. */
  datatype HtmlElementNameAttribute = HtmlElementNameAttribute(tags: seq<string>)

  /** Passing validation, or the first reason for refusing. */
  datatype Validation = Valid | Invalid(error: TagNameError)

  /** `ValidateTagName`: a null or blank name is refused first; a name containing `!` is
      refused naming itself and the character. */
  function ValidateTagName(tagName: Option<string>): (r: Validation)
    ensures r.Valid? <==> tagName.Some? && (exists i :: 0 <= i < |tagName.value| && !IsWhiteSpace(tagName.value[i]))
                                        && '!' !in tagName.value
    ensures r == Invalid(ElementNameCannotBeNullOrWhitespace) <==> IsNullOrWhiteSpace(tagName)
    ensures r.Invalid? && r.error.InvalidElementName? ==>
              tagName == Some(r.error.tagName) && r.error.invalidCharacter == '!' && '!' in r.error.tagName
  {
    if IsNullOrWhiteSpace(tagName) then
      Invalid(ElementNameCannotBeNullOrWhitespace)
    else if '!' in tagName.value then
      Invalid(InvalidElementName(tagName.value, '!'))
    else
      Valid
  }

  /** The `foreach` of the multi-name constructor: the names are validated in order and the
      first refusal is the one thrown. */
  function ValidateAll(tagNames: seq<Option<string>>): (r: Validation)
    ensures r.Valid? <==> forall k :: 0 <= k < |tagNames| ==> ValidateTagName(tagNames[k]).Valid?
    ensures r.Invalid? ==> exists k :: 0 <= k < |tagNames| && ValidateTagName(tagNames[k]) == r &&
                                       forall j :: 0 <= j < k ==> ValidateTagName(tagNames[j]).Valid?
  {
    if tagNames == [] then Valid
    else if ValidateTagName(tagNames[0]).Invalid? then ValidateTagName(tagNames[0])
    else
      var rest := ValidateAll(tagNames[1..]);
      assert forall k :: 1 <= k < |tagNames| ==> tagNames[k] == tagNames[1..][k - 1];
      assert rest.Invalid? ==> exists k :: 0 <= k < |tagNames| && ValidateTagName(tagNames[k]) == rest &&
                                           forall j :: 0 <= j < k ==> ValidateTagName(tagNames[j]).Valid? by {
        if rest.Invalid? {
          var k :| 0 <= k < |tagNames[1..]| && ValidateTagName(tagNames[1..][k]) == rest &&
                   forall j :: 0 <= j < k ==> ValidateTagName(tagNames[1..][j]).Valid?;
          assert ValidateTagName(tagNames[k + 1]) == rest;
        }
      }
      rest
  }

  /** The single-name constructor: the attribute targets exactly `tag`, or construction fails
      with the validation error. */
  function NewHtmlElementNameAttribute(tag: string): (r: Result<HtmlElementNameAttribute, TagNameError>)
    ensures r.Success? <==> ValidateTagName(Some(tag)).Valid?
    ensures r.Success? ==> r.value.tags == [tag]
    ensures r.Failure? ==> ValidateTagName(Some(tag)) == Invalid(r.error)
  {
    match ValidateTagName(Some(tag))
    case Invalid(error) => Failure(error)
    case Valid => Success(HtmlElementNameAttribute([tag]))
  }

  /** The multi-name constructor: copies `additionalTags`, appends `tag`, validates every
      name in that order, and keeps the list. On success `Tags` is the additional names
      followed by `tag`; otherwise construction fails with the first refusal. */
  method NewHtmlElementNameAttributeWithAdditional(tag: string, additionalTags: seq<Option<string>>)
    returns (r: Result<HtmlElementNameAttribute, TagNameError>)
    ensures r.Success? <==> ValidateAll(additionalTags + [Some(tag)]).Valid?
    ensures r.Failure? ==> ValidateAll(additionalTags + [Some(tag)]) == Invalid(r.error)
    ensures r.Success? ==> |r.value.tags| == |additionalTags| + 1 && r.value.tags[|additionalTags|] == tag
    ensures r.Success? ==> forall k :: 0 <= k < |additionalTags| ==> additionalTags[k] == Some(r.value.tags[k])
    ensures additionalTags == [] ==> r == NewHtmlElementNameAttribute(tag)
  {
    var allTags := additionalTags + [Some(tag)];
    var i := 0;
    while i < |allTags|
      invariant 0 <= i <= |allTags|
      invariant forall k :: 0 <= k < i ==> ValidateTagName(allTags[k]).Valid?
    {
      var validation := ValidateTagName(allTags[i]);
      if validation.Invalid? {
        assert ValidateAll(allTags) == validation by {
          var k :| 0 <= k < |allTags| && ValidateTagName(allTags[k]) == ValidateAll(allTags) &&
                   forall j :: 0 <= j < k ==> ValidateTagName(allTags[j]).Valid?;
          if k < i {
            assert ValidateTagName(allTags[k]).Valid?;
          }
        }
        return Failure(validation.error);
      }
      i := i + 1;
    }
    var tags := seq(|allTags|, k requires 0 <= k < |allTags| => allTags[k].value);
    assert tags[|additionalTags|] == tag;
    r := Success(HtmlElementNameAttribute(tags));
    if additionalTags == [] {
      assert tags == [tag];
    }
  }

  /** `!` is refused on its own and among other names, with the error naming `!` as both the
      tag and the character. */
  lemma BangIsRefused()
    ensures NewHtmlElementNameAttribute("!") == Failure(InvalidElementName("!", '!'))
    ensures ValidateAll([Some("!")] + [Some("p")]) == Invalid(InvalidElementName("!", '!'))
  {
    assert "!"[0] == '!' && !IsWhiteSpace("!"[0]);
  }

  /** Illustrations: a `!` anywhere is refused, empty, blank and null names are refused,
      and ordinary element names pass. */
  lemma IllustrativeTagNames()
    ensures ValidateTagName(Some("a!b")) == Invalid(InvalidElementName("a!b", '!'))
    ensures ValidateTagName(Some("")) == Invalid(ElementNameCannotBeNullOrWhitespace)
    ensures ValidateTagName(Some("   ")) == Invalid(ElementNameCannotBeNullOrWhitespace)
    ensures ValidateTagName(None) == Invalid(ElementNameCannotBeNullOrWhitespace)
    ensures ValidateTagName(Some("input")) == Valid && ValidateTagName(Some("my-component")) == Valid
  {
    assert "a!b"[1] == '!' && !IsWhiteSpace("a!b"[0]);
    assert !IsWhiteSpace("input"[0]) && !IsWhiteSpace("my-component"[0]);
  }
}
