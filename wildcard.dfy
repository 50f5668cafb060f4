/**
 * The type-name pattern language of `@addtaghelper` / `@removetaghelper`: every `*` stands
 * for any run of characters (possibly empty, newlines included), every other character
 * for itself. The resolver gets this by escaping the pattern with `Regex.Escape`, turning
 * each escaped `\*` into `.*?`, anchoring with `^` and `$` and matching in Singleline mode;
 * here the same language is given directly, by a recursive matcher and, independently, by
 * the set of strings obtained by filling in the stars.
 */
module Wildcard {

  /** Whole-string glob match of `pattern` against `s`. */
  predicate GlobMatches(pattern: string, s: string)
    decreases |pattern| + |s|
  {
    if pattern == [] then s == []
    else if pattern[0] == '*' then
      GlobMatches(pattern[1..], s) || (s != [] && GlobMatches(pattern, s[1..]))
    else
      s != [] && s[0] == pattern[0] && GlobMatches(pattern[1..], s[1..])
  }

  /** Number of wildcards in a pattern. */
  function StarCount(pattern: string): nat
  {
    if pattern == [] then 0
    else (if pattern[0] == '*' then 1 else 0) + StarCount(pattern[1..])
  }

  /** The string obtained from `pattern` by replacing its i-th `*` with `fills[i]`. */
  function Expand(pattern: string, fills: seq<string>): string
    requires |fills| == StarCount(pattern)
  {
    if pattern == [] then []
    else if pattern[0] == '*' then fills[0] + Expand(pattern[1..], fills[1..])
    else [pattern[0]] + Expand(pattern[1..], fills)
  }

  /** Reference semantics: `s` is some filling-in of the pattern's stars. */
  ghost predicate IsInstance(pattern: string, s: string)
  {
    exists fills :: |fills| == StarCount(pattern) && Expand(pattern, fills) == s
  }

  /** A leading `*` can swallow any prefix. */
  lemma {:induction false} StarSwallows(pattern: string, w: string, rest: string)
    requires pattern != [] && pattern[0] == '*'
    requires GlobMatches(pattern[1..], rest)
    ensures GlobMatches(pattern, w + rest)
    decreases |w|
  {
    if w != [] {
      assert (w + rest)[1..] == w[1..] + rest;
      StarSwallows(pattern, w[1..], rest);
    } else {
      assert w + rest == rest;
    }
  }

  /** Completeness of the matcher: every filling-in of the stars is matched. */
  lemma {:induction false} ExpandMatches(pattern: string, fills: seq<string>)
    requires |fills| == StarCount(pattern)
    ensures GlobMatches(pattern, Expand(pattern, fills))
  {
    if pattern == [] {
    } else if pattern[0] == '*' {
      ExpandMatches(pattern[1..], fills[1..]);
      StarSwallows(pattern, fills[0], Expand(pattern[1..], fills[1..]));
    } else {
      var s := Expand(pattern, fills);
      ExpandMatches(pattern[1..], fills);
      assert s[1..] == Expand(pattern[1..], fills);
    }
  }

  /** Soundness of the matcher: whatever it matches is a filling-in of the stars, and the
      fills returned witness it. */
  lemma {:induction false} MatchedIsExpansion(pattern: string, s: string) returns (fills: seq<string>)
    requires GlobMatches(pattern, s)
    ensures |fills| == StarCount(pattern) && Expand(pattern, fills) == s
    decreases |pattern| + |s|
  {
    if pattern == [] {
      fills := [];
    } else if pattern[0] == '*' {
      if GlobMatches(pattern[1..], s) {
        var more := MatchedIsExpansion(pattern[1..], s);
        fills := [""] + more;
        assert fills[1..] == more;
      } else {
        var shorter := MatchedIsExpansion(pattern, s[1..]);
        fills := [[s[0]] + shorter[0]] + shorter[1..];
        assert fills[1..] == shorter[1..];
        assert s == [s[0]] + s[1..];
      }
    } else {
      fills := MatchedIsExpansion(pattern[1..], s[1..]);
      assert s == [s[0]] + s[1..];
    }
  }

  /** The matcher decides exactly the reference semantics. */
  lemma GlobMatchesIffInstance(pattern: string, s: string)
    ensures GlobMatches(pattern, s) <==> IsInstance(pattern, s)
  {
    if GlobMatches(pattern, s) {
      var fills := MatchedIsExpansion(pattern, s);
    }
    if IsInstance(pattern, s) {
      var fills :| |fills| == StarCount(pattern) && Expand(pattern, fills) == s;
      ExpandMatches(pattern, fills);
    }
  }

  /** Without a star, a pattern matches only itself: every other character, `.` included,
      is literal. */
  lemma {:induction false} LiteralPatternMatchesItself(pattern: string, s: string)
    requires '*' !in pattern
    ensures GlobMatches(pattern, s) <==> s == pattern
    decreases |pattern|
  {
    if pattern != [] {
      assert pattern[0] in pattern;
      assert forall c :: c in pattern[1..] ==> c in pattern;
      if s != [] {
        LiteralPatternMatchesItself(pattern[1..], s[1..]);
        assert s == [s[0]] + s[1..];
        assert pattern == [pattern[0]] + pattern[1..];
      }
    }
  }

  /** The lone pattern `*` matches every string. */
  lemma StarMatchesEverything(s: string)
    ensures GlobMatches("*", s)
  {
    assert Expand("*", [s]) == s;
    ExpandMatches("*", [s]);
  }

  /**
   * `Regex.IsMatch` of the compiled `^...$` pattern. In .NET, `$` without the Multiline
   * option also matches just before a final '\n', so the type name may carry one
   * trailing newline that the pattern does not account for.
   */
  predicate RegexIsMatch(pattern: string, typeName: string)
  {
    GlobMatches(pattern, typeName) ||
    (|typeName| > 0 && typeName[|typeName| - 1] == '\n' && GlobMatches(pattern, typeName[..|typeName| - 1]))
  }

  /** A pattern without `*` accepts the identical type name, and that name followed by a
      single newline, and nothing else. */
  lemma LiteralPatternIsExact(pattern: string, typeName: string)
    requires '*' !in pattern
    ensures RegexIsMatch(pattern, typeName) <==> typeName == pattern || typeName == pattern + "\n"
  {
    LiteralPatternMatchesItself(pattern, typeName);
    if |typeName| > 0 {
      LiteralPatternMatchesItself(pattern, typeName[..|typeName| - 1]);
      if typeName == pattern + "\n" {
        assert typeName[..|typeName| - 1] == pattern;
      }
      if typeName[|typeName| - 1] == '\n' && typeName[..|typeName| - 1] == pattern {
        assert typeName == pattern + "\n";
      }
    }
  }

  /** The compiled pattern accepts exactly the fillings-in of the stars, possibly with one
      trailing newline. */
  lemma RegexIsMatchIffInstance(pattern: string, typeName: string)
    ensures RegexIsMatch(pattern, typeName) <==>
      IsInstance(pattern, typeName) ||
      (|typeName| > 0 && typeName[|typeName| - 1] == '\n' && IsInstance(pattern, typeName[..|typeName| - 1]))
  {
    GlobMatchesIffInstance(pattern, typeName);
    if |typeName| > 0 {
      GlobMatchesIffInstance(pattern, typeName[..|typeName| - 1]);
    }
  }

  /** A pattern ending in a literal character only matches strings ending in it. */
  lemma {:induction false} EndsWithLiteral(pattern: string, s: string)
    requires pattern != [] && pattern[|pattern| - 1] != '*'
    requires GlobMatches(pattern, s)
    ensures s != [] && s[|s| - 1] == pattern[|pattern| - 1]
    decreases |pattern| + |s|
  {
    if pattern[0] == '*' {
      if GlobMatches(pattern[1..], s) {
        EndsWithLiteral(pattern[1..], s);
      } else {
        EndsWithLiteral(pattern, s[1..]);
      }
    } else if |pattern| > 1 {
      EndsWithLiteral(pattern[1..], s[1..]);
    }
  }

  /** Illustration: a star in the middle matches a non-empty run. */
  lemma StarMatchesRun()
    ensures RegexIsMatch("My*Helper", "MyFooHelper")
  {
    assert Expand("My*Helper", ["Foo"]) == "MyFooHelper";
    ExpandMatches("My*Helper", ["Foo"]);
  }

  /** Illustration: a star in the middle matches the empty run. */
  lemma StarMatchesEmptyRun()
    ensures RegexIsMatch("My*Helper", "MyHelper")
  {
    assert Expand("*Helper", [""]) == "" + Expand("Helper", []) == "Helper";
    assert Expand("My*Helper", [""]) == "MyHelper";
    ExpandMatches("My*Helper", [""]);
  }

  /** Illustration: the literal tail of the pattern must end the name. */
  lemma LiteralTailMustEndName()
    ensures !RegexIsMatch("My*Helper", "MyHelperExtra")
  {
    if GlobMatches("My*Helper", "MyHelperExtra") {
      EndsWithLiteral("My*Helper", "MyHelperExtra");
    }
  }

  /** Illustration: `.` is escaped, so it matches only itself. */
  lemma DotIsLiteral()
    ensures !RegexIsMatch("A.B", "AxB")
  {
    LiteralPatternIsExact("A.B", "AxB");
  }
}
