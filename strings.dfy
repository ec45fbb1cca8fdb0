/** The Kotlin standard-library string operations the core relies on:
    `joinToString`, `trim()` and `Char.isWhitespace()`. `Split` is not used
    by the core; it is the inverse of joining, through which the joined
    output buffers are shown to keep their lines. Strings are sequences of
    characters. */
module Strings {

  /** `Character.isSpaceChar` on the JVM: the Unicode space, line and
      paragraph separators (categories Zs, Zl and Zp). */
  predicate IsSpaceChar(c: char) {
    || c == ' '
    || c == '\U{A0}'
    || c == '\U{1680}'
    || ('\U{2000}' <= c <= '\U{200A}')
    || c == '\U{2028}'
    || c == '\U{2029}'
    || c == '\U{202F}'
    || c == '\U{205F}'
    || c == '\U{3000}'
  }

  /** `Character.isWhitespace` on the JVM: the separators except the three
      non-breaking spaces U+00A0, U+2007 and U+202F, the controls tab to
      carriage return, and the information separators U+001C to U+001F. */
  predicate IsJavaWhitespace(c: char) {
    || (IsSpaceChar(c) && c != '\U{A0}' && c != '\U{2007}' && c != '\U{202F}')
    || ('\t' <= c <= '\r')
    || ('\U{1C}' <= c <= '\U{1F}')
  }

  /** Kotlin's `Char.isWhitespace()`, as a flat set of characters; it is
      `Character.isWhitespace || Character.isSpaceChar`, so the non-breaking
      spaces count as whitespace too. */
  predicate IsWhitespace(c: char): (r: bool)
    ensures r <==> IsJavaWhitespace(c) || IsSpaceChar(c)
    ensures r ==> c == ' ' || c > '\U{7F}' || '\t' <= c <= '\r' || '\U{1C}' <= c <= '\U{1F}'
  {
    || c == ' '
    || ('\t' <= c <= '\r')
    || ('\U{1C}' <= c <= '\U{1F}')
    || c == '\U{A0}'
    || c == '\U{1680}'
    || ('\U{2000}' <= c <= '\U{200A}')
    || c == '\U{2028}'
    || c == '\U{2029}'
    || c == '\U{202F}'
    || c == '\U{205F}'
    || c == '\U{3000}'
  }

  /** Kotlin's `isBlank()`: every character is whitespace. */
  predicate IsBlank(s: string) {
    forall i :: 0 <= i < |s| ==> IsWhitespace(s[i])
  }

  /** Neither the first nor the last character is whitespace. */
  predicate NoSurroundingWhitespace(s: string) {
    s == [] || (!IsWhitespace(s[0]) && !IsWhitespace(s[|s| - 1]))
  }

  /** Drops the leading whitespace. */
  function TrimStart(s: string): (r: string)
    ensures |r| <= |s| && r == s[|s| - |r|..]
    ensures forall i :: 0 <= i < |s| - |r| ==> IsWhitespace(s[i])
    ensures r == [] || !IsWhitespace(r[0])
  {
    if s != [] && IsWhitespace(s[0]) then TrimStart(s[1..]) else s
  }

  /** Drops the trailing whitespace. */
  function TrimEnd(s: string): (r: string)
    ensures |r| <= |s| && r == s[..|r|]
    ensures forall i :: |r| <= i < |s| ==> IsWhitespace(s[i])
    ensures r == [] || !IsWhitespace(r[|r| - 1])
  {
    if s != [] && IsWhitespace(s[|s| - 1]) then TrimEnd(s[..|s| - 1]) else s
  }

  /** Kotlin's `String.trim()`: the longest middle part of `s` that neither
      starts nor ends with whitespace; everything cut off is whitespace. */
  function Trim(s: string): (r: string)
    ensures NoSurroundingWhitespace(r)
    ensures var i := |s| - |TrimStart(s)|;
      && i + |r| <= |s|
      && r == s[i..i + |r|]
      && (forall m :: 0 <= m < i ==> IsWhitespace(s[m]))
      && (forall m :: i + |r| <= m < |s| ==> IsWhitespace(s[m]))
  {
    TrimEnd(TrimStart(s))
  }

  lemma {:induction false} TrimStartAfterBlank(a: string, t: string)
    requires IsBlank(a)
    requires t == [] || !IsWhitespace(t[0])
    ensures TrimStart(a + t) == t
  {
    if a != [] {
      assert (a + t)[1..] == a[1..] + t;
      TrimStartAfterBlank(a[1..], t);
    } else {
      assert a + t == t;
    }
  }

  lemma {:induction false} TrimEndBeforeBlank(t: string, b: string)
    requires IsBlank(b)
    requires t == [] || !IsWhitespace(t[|t| - 1])
    ensures TrimEnd(t + b) == t
  {
    if b != [] {
      var b' := b[..|b| - 1];
      assert (t + b)[..|t + b| - 1] == t + b';
      TrimEndBeforeBlank(t, b');
    } else {
      assert t + b == t;
    }
  }

  /** `trim()` is characterised without reference to how it scans: whenever
      `s` is blank text, then `r` without surrounding whitespace, then blank
      text, trimming `s` gives exactly `r`. */
  lemma TrimUnique(a: string, r: string, b: string)
    requires IsBlank(a) && IsBlank(b) && NoSurroundingWhitespace(r)
    ensures Trim(a + r + b) == r
  {
    if r == [] {
      assert a + r + b == (a + b) + [];
      TrimStartAfterBlank(a + b, []);
    } else {
      assert a + r + b == a + (r + b);
      TrimStartAfterBlank(a, r + b);
      TrimEndBeforeBlank(r, b);
    }
  }

  /** Trimming twice is trimming once. */
  lemma TrimIdempotent(s: string)
    ensures Trim(Trim(s)) == Trim(s)
  {
    var r := Trim(s);
    assert r == [] + r + [];
    TrimUnique([], r, []);
  }

  /** The trimmed text is empty exactly when the text is blank. */
  lemma TrimEmptyIffBlank(s: string)
    ensures Trim(s) == [] <==> IsBlank(s)
  {
    if IsBlank(s) {
      assert s == s + [] + [];
      TrimUnique(s, [], []);
    }
  }

  /** Kotlin's `joinToString(sep)`: the elements with `sep` between each two
      neighbours; the empty list gives the empty string. */
  function Join(xs: seq<string>, sep: string): (r: string)
    ensures xs == [] ==> r == []
    ensures xs != [] ==> xs[0] <= r
  {
    if |xs| == 0 then []
    else if |xs| == 1 then xs[0]
    else xs[0] + sep + Join(xs[1..], sep)
  }

  /** Appending an element appends a separator (unless the list was empty)
      and the element. */
  lemma {:induction false} JoinSnoc(xs: seq<string>, x: string, sep: string)
    ensures Join(xs + [x], sep) == if xs == [] then x else Join(xs, sep) + sep + x
  {
    if |xs| > 1 {
      assert (xs + [x])[1..] == xs[1..] + [x];
      JoinSnoc(xs[1..], x, sep);
    } else if |xs| == 1 {
      assert (xs + [x])[1..] == [x];
    }
  }

  lemma BlankConcat(a: string, b: string)
    ensures IsBlank(a + b) <==> IsBlank(a) && IsBlank(b)
  {
    if IsBlank(a + b) {
      assert forall i :: 0 <= i < |a| ==> a[i] == (a + b)[i];
      assert forall i :: 0 <= i < |b| ==> b[i] == (a + b)[|a| + i];
    }
  }

  /** Joining with a blank separator gives blank text exactly when every
      element is blank. */
  lemma {:induction false} JoinBlankIffAllBlank(xs: seq<string>, sep: string)
    requires IsBlank(sep)
    ensures IsBlank(Join(xs, sep)) <==> forall k :: 0 <= k < |xs| ==> IsBlank(xs[k])
  {
    if |xs| > 1 {
      var rest := Join(xs[1..], sep);
      JoinBlankIffAllBlank(xs[1..], sep);
      assert forall k :: 1 <= k < |xs| ==> xs[k] == xs[1..][k - 1];
      BlankConcat(xs[0], sep);
      BlankConcat(xs[0] + sep, rest);
    }
  }

  /** Kotlin's `split(d)` on a single delimiter character: the maximal pieces
      between delimiters, so the empty string gives one empty piece. */
  function Split(s: string, d: char): (r: seq<string>)
    ensures |r| >= 1
    ensures forall k :: 0 <= k < |r| ==> d !in r[k]
    decreases |s|
  {
    if s == [] then [[]]
    else
      var rest := Split(s[1..], d);
      if s[0] == d then [[]] + rest
      else [[s[0]] + rest[0]] + rest[1..]
  }

  lemma {:induction false} SplitWithoutDelimiter(x: string, d: char)
    requires d !in x
    ensures Split(x, d) == [x]
    decreases |x|
  {
    if x != [] {
      SplitWithoutDelimiter(x[1..], d);
      assert [x[0]] + x[1..] == x;
    }
  }

  lemma {:induction false} SplitAfterPiece(x: string, rest: string, d: char)
    requires d !in x
    ensures Split(x + [d] + rest, d) == [x] + Split(rest, d)
    decreases |x|
  {
    var s := x + [d] + rest;
    if x == [] {
      assert s[1..] == rest;
    } else {
      assert s[1..] == x[1..] + [d] + rest;
      SplitAfterPiece(x[1..], rest, d);
      assert [x[0]] + x[1..] == x;
    }
  }

  /** Splitting a non-empty list of delimiter-free strings, joined on the
      delimiter, gives the list back. */
  lemma {:induction false} SplitJoin(xs: seq<string>, d: char)
    requires xs != []
    requires forall k :: 0 <= k < |xs| ==> d !in xs[k]
    ensures Split(Join(xs, [d]), d) == xs
  {
    if |xs| == 1 {
      SplitWithoutDelimiter(xs[0], d);
    } else {
      SplitJoin(xs[1..], d);
      SplitAfterPiece(xs[0], Join(xs[1..], [d]), d);
      assert [xs[0]] + xs[1..] == xs;
    }
  }

  /** Joining the pieces of a split on the delimiter gives the text back. */
  lemma {:induction false} JoinSplit(s: string, d: char)
    ensures Join(Split(s, d), [d]) == s
    decreases |s|
  {
    if s != [] {
      JoinSplit(s[1..], d);
      var rest := Split(s[1..], d);
      if s[0] == d {
        assert ([[]] + rest)[1..] == rest;
      } else {
        var r := [[s[0]] + rest[0]] + rest[1..];
        if |rest| == 1 {
          assert Join(rest, [d]) == rest[0];
        } else {
          assert r[1..] == rest[1..];
          assert Join(rest, [d]) == rest[0] + [d] + Join(rest[1..], [d]);
        }
      }
    }
  }
}
