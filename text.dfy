/**
 * The .NET string primitives the resolver relies on: `char.IsWhiteSpace`,
 * `string.IsNullOrWhiteSpace`, `string.Trim()` and `string.Split(',')`.
 */
module Text {
  import opened Wrappers

  /** The characters .NET classifies as white space: U+0009..U+000D, U+0020, U+0085, U+00A0 and
      the Unicode space, line and paragraph separators. */
  predicate IsWhiteSpace(c: char) {
    var n := c as int;
    (0x09 <= n <= 0x0D) || n == 0x20 || n == 0x85 || n == 0xA0 || n == 0x1680 ||
    (0x2000 <= n <= 0x200A) || n == 0x2028 || n == 0x2029 || n == 0x202F || n == 0x205F || n == 0x3000
  }

  /** Empty, or made of white space only. */
  predicate IsBlank(s: string) {
    forall i :: 0 <= i < |s| ==> IsWhiteSpace(s[i])
  }

  /** `string.IsNullOrWhiteSpace`. */
  predicate IsNullOrWhiteSpace(s: Option<string>) {
    s.None? || IsBlank(s.value)
  }

  /** Removes the longest white-space prefix. */
  function TrimStart(s: string): string
  {
    if s != [] && IsWhiteSpace(s[0]) then TrimStart(s[1..]) else s
  }

  /** Removes the longest white-space suffix. */
  function TrimEnd(s: string): string
  {
    if s != [] && IsWhiteSpace(s[|s| - 1]) then TrimEnd(s[..|s| - 1]) else s
  }

  /** `TrimStart` keeps a suffix of `s`, drops only white space, and stops at the first
      character that is not white space. */
  lemma {:induction false} TrimStartDropsBlankPrefix(s: string)
    ensures |TrimStart(s)| <= |s| && TrimStart(s) == s[|s| - |TrimStart(s)|..]
    ensures IsBlank(s[..|s| - |TrimStart(s)|])
    ensures TrimStart(s) != [] ==> !IsWhiteSpace(TrimStart(s)[0])
  {
    if s != [] && IsWhiteSpace(s[0]) {
      TrimStartDropsBlankPrefix(s[1..]);
    }
  }

  /** `TrimEnd` keeps a prefix of `s`, drops only white space, and stops at the last
      character that is not white space. */
  lemma {:induction false} TrimEndDropsBlankSuffix(s: string)
    ensures |TrimEnd(s)| <= |s| && TrimEnd(s) == s[..|TrimEnd(s)|]
    ensures IsBlank(s[|TrimEnd(s)|..])
    ensures TrimEnd(s) != [] ==> !IsWhiteSpace(TrimEnd(s)[|TrimEnd(s)| - 1])
  {
    if s != [] && IsWhiteSpace(s[|s| - 1]) {
      var t := s[..|s| - 1];
      TrimEndDropsBlankSuffix(t);
      assert s[|TrimEnd(s)|..] == t[|TrimEnd(t)|..] + [s[|s| - 1]];
    }
  }

  /** `string.Trim()`: white space removed from both ends. */
  function Trim(s: string): string {
    TrimEnd(TrimStart(s))
  }

  /** What `Trim` keeps is the slice of `s` between a blank prefix and a blank suffix, and
      it neither begins nor ends with white space; it is empty exactly when `s` is blank. */
  lemma TrimKeepsCore(s: string) returns (i: nat, j: nat)
    ensures i <= j <= |s| && Trim(s) == s[i..j]
    ensures IsBlank(s[..i]) && IsBlank(s[j..])
    ensures Trim(s) != [] ==> !IsWhiteSpace(Trim(s)[0]) && !IsWhiteSpace(Trim(s)[|Trim(s)| - 1])
    ensures Trim(s) == [] <==> IsBlank(s)
  {
    var t := TrimStart(s);
    var r := TrimEnd(t);
    TrimStartDropsBlankPrefix(s);
    TrimEndDropsBlankSuffix(t);
    i := |s| - |t|;
    j := i + |r|;
    assert r == s[i..j];
    assert s[j..] == t[|r|..];
    if r == [] {
      if t != [] {
        assert false;
      }
      assert s[..i] == s;
    } else {
      assert r[0] == t[0] == s[i];
    }
  }

  /** A string that neither begins nor ends with white space is its own trim. */
  lemma TrimOfUnpadded(s: string)
    requires s != [] && !IsWhiteSpace(s[0]) && !IsWhiteSpace(s[|s| - 1])
    ensures Trim(s) == s
  {
    assert TrimStart(s) == s;
  }

  /** `string.Join(sep, pieces)`. */
  function Join(pieces: seq<string>, sep: char): string
    requires |pieces| >= 1
  {
    if |pieces| == 1 then pieces[0] else pieces[0] + [sep] + Join(pieces[1..], sep)
  }

  /** Putting one more character in front of the first piece puts it in front of the whole. */
  lemma JoinExtendsFirst(c: char, pieces: seq<string>, sep: char)
    requires |pieces| >= 1
    ensures Join([[c] + pieces[0]] + pieces[1..], sep) == [c] + Join(pieces, sep)
  {
    var longer := [[c] + pieces[0]] + pieces[1..];
    assert longer[1..] == pieces[1..];
  }

  /** Two pieces are joined around a single separator. */
  lemma JoinOfTwo(pieces: seq<string>, sep: char)
    requires |pieces| == 2
    ensures Join(pieces, sep) == pieces[0] + [sep] + pieces[1]
  {
    assert pieces[1..] == [pieces[1]];
  }

  /** `string.Split(sep)`: the maximal separator-free pieces, one more than there are
      separators, which `Join` puts back together into `s`. */
  function Split(s: string, sep: char): (pieces: seq<string>)
    ensures |pieces| >= 1
    ensures forall k :: 0 <= k < |pieces| ==> sep !in pieces[k]
    ensures Join(pieces, sep) == s
    decreases |s|
  {
    if s == [] then [""]
    else
      var rest := Split(s[1..], sep);
      if s[0] == sep then
        [""] + rest
      else
        JoinExtendsFirst(s[0], rest, sep);
        [[s[0]] + rest[0]] + rest[1..]
  }

  /** There is one more piece than there are separators. */
  lemma {:induction false} SplitCount(s: string, sep: char)
    ensures |Split(s, sep)| == multiset(s)[sep] + 1
    decreases |s|
  {
    if s != [] {
      SplitCount(s[1..], sep);
      assert s == [s[0]] + s[1..];
      assert multiset(s) == multiset([s[0]]) + multiset(s[1..]);
    }
  }

  /** A separator-free string splits into itself. */
  lemma {:induction false} SplitWithoutSeparator(a: string, sep: char)
    requires sep !in a
    ensures Split(a, sep) == [a]
  {
    if a != [] {
      SplitWithoutSeparator(a[1..], sep);
      assert [a[0]] + a[1..] == a;
    }
  }

  /** The first piece ends at the first separator. */
  lemma {:induction false} SplitAtFirstSeparator(a: string, sep: char, t: string)
    requires sep !in a
    ensures Split(a + [sep] + t, sep) == [a] + Split(t, sep)
  {
    var s := a + [sep] + t;
    if a == [] {
      assert s[0] == sep && s[1..] == t;
    } else {
      var rest := Split(s[1..], sep);
      assert s[0] == a[0] && s[0] != sep;
      assert s[1..] == a[1..] + [sep] + t;
      SplitAtFirstSeparator(a[1..], sep, t);
      assert rest == [a[1..]] + Split(t, sep);
      assert Split(s, sep) == [[a[0]] + rest[0]] + rest[1..];
      assert [a[0]] + a[1..] == a;
    }
  }

  /** Splitting undoes joining separator-free pieces, so the pieces of `Split` are the only
      separator-free pieces that join to `s`. */
  lemma {:induction false} SplitOfJoin(pieces: seq<string>, sep: char)
    requires |pieces| >= 1
    requires forall k :: 0 <= k < |pieces| ==> sep !in pieces[k]
    ensures Split(Join(pieces, sep), sep) == pieces
  {
    if |pieces| == 1 {
      SplitWithoutSeparator(pieces[0], sep);
    } else {
      SplitOfJoin(pieces[1..], sep);
      SplitAtFirstSeparator(pieces[0], sep, Join(pieces[1..], sep));
      assert [pieces[0]] + pieces[1..] == pieces;
    }
  }
}
