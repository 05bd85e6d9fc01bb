/** String operations the source takes from Python's `str`: lower-casing,
    substring search, prefix test, splitting and joining on one separator
    character, and whitespace stripping. */
module Text {
  import opened Wrappers

  /** ASCII upper-case letters map to lower case; every other character is
      left as it is. */
  function LowerChar(c: char): char {
    if 'A' <= c <= 'Z' then (c as int + 32) as char else c
  }

  /** Python's `str.lower`, restricted to the ASCII letters. */
  function Lower(s: string): string {
    seq(|s|, i requires 0 <= i < |s| => LowerChar(s[i]))
  }

  // ---------------------------------------------------------------------
  // Substring search: Python's `needle in hay`

  /** `needle` occurs in `hay` starting at index `k`. */
  predicate MatchesAt(hay: string, needle: string, k: int) {
    0 <= k && k + |needle| <= |hay| && hay[k..k + |needle|] == needle
  }

  /** The specification of `needle in hay`: some window of `hay` is `needle`. */
  ghost predicate Occurs(needle: string, hay: string) {
    exists k :: MatchesAt(hay, needle, k)
  }

  /** Scans the windows of `hay` that start at `k` or later. */
  function ContainsFrom(hay: string, needle: string, k: nat): (r: bool)
    ensures r <==> exists j :: k <= j && MatchesAt(hay, needle, j)
    decreases |hay| - k
  {
    if k + |needle| > |hay| then false
    else if hay[k..k + |needle|] == needle then assert MatchesAt(hay, needle, k); true
    else ContainsFrom(hay, needle, k + 1)
  }

  /** Python's `needle in hay` on two strings. */
  function Contains(hay: string, needle: string): (r: bool)
    ensures r <==> Occurs(needle, hay)
  {
    ContainsFrom(hay, needle, 0)
  }

  /** Python's `s.startswith(prefix)`. */
  predicate StartsWith(s: string, prefix: string) {
    |prefix| <= |s| && s[..|prefix|] == prefix
  }

  /** Python's `s.split(c, 1)[1]`: everything after the first `c`, or None
      where Python raises IndexError because `c` does not occur. */
  function AfterFirst(s: string, c: char): (r: Option<string>)
    ensures r.None? <==> c !in s
    ensures r.Some? ==> exists k :: 0 <= k < |s| && s[k] == c && c !in s[..k] && r.value == s[k + 1..]
  {
    if |s| == 0 then None
    else if s[0] == c then Some(s[1..])
    else
      var rest := AfterFirst(s[1..], c);
      if rest.Some? then
        ghost var k :| 0 <= k < |s[1..]| && s[1..][k] == c && c !in s[1..][..k] && rest.value == s[1..][k + 1..];
        assert s[..k + 1] == [s[0]] + s[1..][..k];
        assert s[k + 2..] == s[1..][k + 1..];
        rest
      else rest
  }

  // ---------------------------------------------------------------------
  // Splitting and joining on one separator character

  /** Python's `s.split(sep)` for a one-character separator: the pieces
      between separators, always at least one (`"".split(",") == [""]`). */
  function Split(s: string, sep: char): (r: seq<string>)
    ensures |r| >= 1
    decreases |s|
  {
    if |s| == 0 then [""]
    else
      var rest := Split(s[1..], sep);
      if s[0] == sep then [""] + rest
      else [[s[0]] + rest[0]] + rest[1..]
  }

  /** Python's `sep.join(xs)`. */
  function Join(xs: seq<string>, sep: char): string
    decreases |xs|
  {
    if |xs| == 0 then ""
    else if |xs| == 1 then xs[0]
    else xs[0] + [sep] + Join(xs[1..], sep)
  }

  /** A string without the separator splits into itself alone. */
  lemma {:induction false} SplitWithoutSeparator(a: string, sep: char)
    requires sep !in a
    ensures Split(a, sep) == [a]
    decreases |a|
  {
    if |a| > 0 {
      SplitWithoutSeparator(a[1..], sep);
      assert [a[0]] + a[1..] == a;
    }
  }

  /** Splitting stops at the first separator: the piece before it comes
      first, then the pieces of what follows. */
  lemma {:induction false} SplitAtFirstSeparator(a: string, sep: char, b: string)
    requires sep !in a
    ensures Split(a + [sep] + b, sep) == [a] + Split(b, sep)
    decreases |a|
  {
    var s := a + [sep] + b;
    if |a| == 0 {
      assert s[1..] == b;
    } else {
      assert s[1..] == a[1..] + [sep] + b;
      SplitAtFirstSeparator(a[1..], sep, b);
      assert [a[0]] + a[1..] == a;
    }
  }

  /** Join then split is the identity when no piece holds the separator and
      there is at least one piece. */
  lemma {:induction false} SplitJoin(xs: seq<string>, sep: char)
    requires |xs| >= 1
    requires forall i :: 0 <= i < |xs| ==> sep !in xs[i]
    ensures Split(Join(xs, sep), sep) == xs
    decreases |xs|
  {
    if |xs| == 1 {
      SplitWithoutSeparator(xs[0], sep);
    } else {
      SplitAtFirstSeparator(xs[0], sep, Join(xs[1..], sep));
      SplitJoin(xs[1..], sep);
      assert [xs[0]] + xs[1..] == xs;
    }
  }

  /** Split then join is the identity on every string. */
  lemma {:induction false} JoinSplit(s: string, sep: char)
    ensures Join(Split(s, sep), sep) == s
    decreases |s|
  {
    if |s| > 0 {
      var rest := Split(s[1..], sep);
      JoinSplit(s[1..], sep);
      if s[0] == sep {
        assert Join([""] + rest, sep) == "" + [sep] + Join(rest, sep);
        assert [s[0]] + s[1..] == s;
      } else {
        var xs := [[s[0]] + rest[0]] + rest[1..];
        if |rest| == 1 {
          assert Join(xs, sep) == [s[0]] + rest[0];
        } else {
          assert xs[1..] == rest[1..];
          assert Join(rest, sep) == rest[0] + [sep] + Join(rest[1..], sep);
          assert Join(xs, sep) == [s[0]] + rest[0] + [sep] + Join(rest[1..], sep);
        }
        assert [s[0]] + s[1..] == s;
      }
    }
  }

  // ---------------------------------------------------------------------
  // Whitespace stripping: Python's `str.strip()`

  /** The characters Python's `str.isspace` accepts. */
  const Whitespace: set<char> :=
    {'\t', '\n', '\U{0B}', '\U{0C}', '\r', '\U{1C}', '\U{1D}', '\U{1E}', '\U{1F}', ' ',
     '\U{85}', '\U{A0}', '\U{1680}',
     '\U{2000}', '\U{2001}', '\U{2002}', '\U{2003}', '\U{2004}', '\U{2005}',
     '\U{2006}', '\U{2007}', '\U{2008}', '\U{2009}', '\U{200A}',
     '\U{2028}', '\U{2029}', '\U{202F}', '\U{205F}', '\U{3000}'}

  predicate IsSpace(c: char) {
    c in Whitespace
  }

  /** No whitespace at either end. */
  predicate Trimmed(s: string) {
    s == "" || (!IsSpace(s[0]) && !IsSpace(s[|s| - 1]))
  }

  function TrimStart(s: string): (r: string)
    ensures r == "" || !IsSpace(r[0])
    ensures |r| <= |s| && r == s[|s| - |r|..]
    ensures forall i :: 0 <= i < |s| - |r| ==> IsSpace(s[i])
    decreases |s|
  {
    if |s| > 0 && IsSpace(s[0]) then TrimStart(s[1..]) else s
  }

  function TrimEnd(s: string): (r: string)
    ensures r == "" || !IsSpace(r[|r| - 1])
    ensures |r| <= |s| && r == s[..|r|]
    ensures forall i :: |r| <= i < |s| ==> IsSpace(s[i])
    decreases |s|
  {
    if |s| > 0 && IsSpace(s[|s| - 1]) then TrimEnd(s[..|s| - 1]) else s
  }

  /** Python's `s.strip()`: the longest middle slice of `s` with no
      whitespace at either end. */
  function Strip(s: string): (r: string)
    ensures Trimmed(r)
    ensures forall c :: c in r ==> c in s
    ensures r == "" <==> forall i :: 0 <= i < |s| ==> IsSpace(s[i])
    ensures Trimmed(s) ==> r == s
  {
    StripEmptyOnlyForSpace(s);
    TrimEnd(TrimStart(s))
  }

  lemma StripEmptyOnlyForSpace(s: string)
    ensures TrimEnd(TrimStart(s)) == "" ==> forall i :: 0 <= i < |s| ==> IsSpace(s[i])
  {
  }

  /** Stripping keeps a middle slice `s[i..j]` and drops exactly the
      blanks before and after it. */
  lemma StripIsMiddleSlice(s: string)
    ensures exists i, j ::
      && 0 <= i <= j <= |s| && Strip(s) == s[i..j]
      && (forall k :: 0 <= k < i ==> IsSpace(s[k]))
      && (forall k :: j <= k < |s| ==> IsSpace(s[k]))
  {
    var t := TrimStart(s);
    var i := |s| - |t|;
    var r := TrimEnd(t);
    var j := i + |r|;
    assert Strip(s) == s[i..j] by {
      PrefixOfSuffix(s, i, r);
    }
    assert forall k :: j <= k < |s| ==> IsSpace(s[k]) by {
      BlanksCarryOver(s, i, |r|);
    }
  }

  /** One blank on each side of a trimmed word is stripped away. */
  lemma StripSpacePadded(a: string)
    requires a != "" && Trimmed(a)
    ensures Strip(" " + a + " ") == a
  {
    var s := " " + a + " ";
    assert s[1..] == a + " ";
    assert TrimStart(a + " ") == a + " ";
    assert (a + " ")[..|a|] == a;
    assert TrimEnd(a + " ") == TrimEnd(a) == a;
  }

  /** A prefix of the suffix `s[i..]` is the slice of `s` at offset `i`. */
  lemma PrefixOfSuffix(s: string, i: nat, r: string)
    requires i <= |s| && |r| <= |s| - i && r == s[i..][..|r|]
    ensures r == s[i..i + |r|]
  {
  }

  /** Blanks at the tail of `s[i..]` are blanks at the tail of `s`. */
  lemma BlanksCarryOver(s: string, i: nat, n: nat)
    requires i + n <= |s|
    requires forall k :: n <= k < |s| - i ==> IsSpace(s[i..][k])
    ensures forall k :: i + n <= k < |s| ==> IsSpace(s[k])
  {
    forall k | i + n <= k < |s| ensures IsSpace(s[k]) {
      assert s[i..][k - i] == s[k];
    }
  }
}
