/**
 * The Python string operations the generator relies on: `sep.join(xs)`,
 * `s.split(d)` for a one-character delimiter, and `s.strip()`.
 */
module Text {

  /** Python's `str.isspace` for one character: the characters `strip()` removes. */
  predicate IsWhitespace(c: char)
  {
    var n := c as int;
    (9 <= n <= 13) || (28 <= n <= 32) || n == 0x85 || n == 0xA0 || n == 0x1680
    || (0x2000 <= n <= 0x200A) || n == 0x2028 || n == 0x2029 || n == 0x202F
    || n == 0x205F || n == 0x3000
  }

  /** `sep.join(xs)`. */
  function JoinWith(xs: seq<string>, sep: string): string
  {
    if |xs| == 0 then ""
    else if |xs| == 1 then xs[0]
    else xs[0] + sep + JoinWith(xs[1..], sep)
  }

  /** Joining a list of at least two items puts the separator after the first. */
  lemma JoinWithCons(x: string, ys: seq<string>, sep: string)
    requires ys != []
    ensures JoinWith([x] + ys, sep) == x + sep + JoinWith(ys, sep)
  {
    assert ([x] + ys)[1..] == ys;
  }

  /** `s.split(d)`: the pieces between occurrences of `d`, always at least one. */
  function Split(s: string, d: char): (pieces: seq<string>)
    ensures |pieces| >= 1
  {
    if s == [] then [[]]
    else
      var rest := Split(s[1..], d);
      if s[0] == d then [[]] + rest
      else [[s[0]] + rest[0]] + rest[1..]
  }

  /** There is one more piece than there are delimiters, and no piece holds one. */
  lemma {:induction false} SplitPieces(s: string, d: char)
    ensures |Split(s, d)| == multiset(s)[d] + 1
    ensures forall i :: 0 <= i < |Split(s, d)| ==> d !in Split(s, d)[i]
  {
    if s != [] {
      SplitPieces(s[1..], d);
      assert s == [s[0]] + s[1..];
      assert multiset(s)[d] == multiset([s[0]])[d] + multiset(s[1..])[d];
    }
  }

  /** Joining the pieces of a split with the delimiter gives back the string. */
  lemma {:induction false} SplitThenJoin(s: string, d: char)
    ensures JoinWith(Split(s, d), [d]) == s
  {
    if s != [] {
      var rest := Split(s[1..], d);
      SplitThenJoin(s[1..], d);
      if s[0] == d {
        assert ([[]] + rest)[1..] == rest;
      } else if |rest| > 1 {
        var pieces := [[s[0]] + rest[0]] + rest[1..];
        assert pieces[1..] == rest[1..];
        assert JoinWith(pieces, [d]) == [s[0]] + (rest[0] + [d] + JoinWith(rest[1..], [d]));
      }
    }
  }

  /** A prefix free of the delimiter is glued onto the first piece. */
  lemma {:induction false} SplitAfterPlainPrefix(a: string, b: string, d: char)
    requires d !in a
    ensures Split(a + b, d) == [a + Split(b, d)[0]] + Split(b, d)[1..]
  {
    if a != [] {
      SplitAfterPlainPrefix(a[1..], b, d);
      assert (a + b)[1..] == a[1..] + b;
      assert (a + b)[0] == a[0];
      assert [a[0]] + (a[1..] + Split(b, d)[0]) == a + Split(b, d)[0];
    } else {
      assert a + b == b;
      assert a + Split(b, d)[0] == Split(b, d)[0];
      assert Split(b, d) == [Split(b, d)[0]] + Split(b, d)[1..];
    }
  }

  /** A delimiter cuts the list of pieces in two. */
  lemma {:induction false} SplitAtDelimiter(a: string, b: string, d: char)
    ensures Split(a + [d] + b, d) == Split(a, d) + Split(b, d)
  {
    var s := a + [d] + b;
    if a == [] {
      assert s[0] == d && s[1..] == b;
    } else {
      assert s[0] == a[0] && s[1..] == a[1..] + [d] + b;
      SplitAtDelimiter(a[1..], b, d);
      SplitConsCase(a, Split(a[1..], d), Split(b, d), d);
    }
  }

  /** The inductive step of SplitAtDelimiter, for a non-empty `a`. */
  lemma SplitConsCase(a: string, p: seq<string>, q: seq<string>, d: char)
    requires a != [] && |p| >= 1
    requires p == Split(a[1..], d)
    ensures (if a[0] == d then [[]] + (p + q) else [[a[0]] + (p + q)[0]] + (p + q)[1..])
            == Split(a, d) + q
  {
    if a[0] == d {
      assert Split(a, d) == [[]] + p;
      assert [[]] + (p + q) == ([[]] + p) + q;
    } else {
      var h := [a[0]] + p[0];
      assert Split(a, d) == [h] + p[1..];
      assert (p + q)[0] == p[0] && (p + q)[1..] == p[1..] + q;
      assert [h] + (p[1..] + q) == ([h] + p[1..]) + q;
    }
  }

  /** Splitting a joined list gives the list back, when no item holds the delimiter. */
  lemma {:induction false} JoinThenSplit(xs: seq<string>, d: char)
    requires |xs| >= 1
    requires forall i :: 0 <= i < |xs| ==> d !in xs[i]
    ensures Split(JoinWith(xs, [d]), d) == xs
  {
    if |xs| == 1 {
      SplitAfterPlainPrefix(xs[0], [], d);
      assert xs[0] + [] == xs[0];
    } else {
      var tail := JoinWith(xs[1..], [d]);
      JoinThenSplit(xs[1..], d);
      assert JoinWith(xs, [d]) == xs[0] + ([d] + tail);
      SplitAfterPlainPrefix(xs[0], [d] + tail, d);
      assert ([d] + tail)[1..] == tail;
      assert Split([d] + tail, d) == [[]] + xs[1..];
      assert xs[0] + [] == xs[0];
    }
  }

  /** The longest prefix of `s` without `c`: what a scanner reads up to the next `c`. */
  function TakeUntil(s: string, c: char): (r: string)
    ensures r <= s && c !in r
    ensures |r| < |s| ==> s[|r|] == c
  {
    if s == [] || s[0] == c then []
    else [s[0]] + TakeUntil(s[1..], c)
  }

  /** Scanning stops exactly at the end of a `c`-free prefix followed by `c`. */
  lemma {:induction false} TakeUntilStops(a: string, b: string, c: char)
    requires c !in a
    requires b == [] || b[0] == c
    ensures TakeUntil(a + b, c) == a
  {
    if a == [] {
      assert a + b == b;
    } else {
      assert (a + b)[0] == a[0] && (a + b)[1..] == a[1..] + b;
      TakeUntilStops(a[1..], b, c);
    }
  }

  /** `s.lstrip()`. */
  function TrimStart(s: string): (r: string)
    ensures |r| <= |s| && r == s[|s| - |r|..]
    ensures r == [] || !IsWhitespace(r[0])
  {
    if s != [] && IsWhitespace(s[0]) then TrimStart(s[1..]) else s
  }

  /** `s.rstrip()`. */
  function TrimEnd(s: string): (r: string)
    ensures r <= s
    ensures r == [] || !IsWhitespace(r[|r| - 1])
  {
    if s != [] && IsWhitespace(s[|s| - 1]) then TrimEnd(s[..|s| - 1]) else s
  }

  /** No whitespace at either end. */
  predicate IsTrimmed(s: string)
  {
    s == [] || (!IsWhitespace(s[0]) && !IsWhitespace(s[|s| - 1]))
  }

  /** `s.strip()`: whitespace removed at both ends. */
  function Strip(s: string): (r: string)
    ensures IsTrimmed(r)
  {
    TrimEnd(TrimStart(s))
  }

  /** Every character is whitespace (true of the empty string). */
  predicate IsBlank(s: string)
  {
    forall i :: 0 <= i < |s| ==> IsWhitespace(s[i])
  }

  lemma {:induction false} TrimStartEmptyIffBlank(s: string)
    ensures TrimStart(s) == [] <==> IsBlank(s)
  {
    if s != [] && IsWhitespace(s[0]) {
      TrimStartEmptyIffBlank(s[1..]);
      assert forall i :: 1 <= i < |s| ==> s[i] == s[1..][i - 1];
    }
  }

  lemma {:induction false} TrimEndEmptyIffBlank(s: string)
    ensures TrimEnd(s) == [] <==> IsBlank(s)
  {
    if s != [] && IsWhitespace(s[|s| - 1]) {
      TrimEndEmptyIffBlank(s[..|s| - 1]);
      assert forall i :: 0 <= i < |s| - 1 ==> s[i] == s[..|s| - 1][i];
    }
  }

  /** `strip()` gives nothing exactly for blank text. */
  lemma StripEmptyIffBlank(s: string)
    ensures Strip(s) == [] <==> IsBlank(s)
  {
    var t := TrimStart(s);
    TrimStartEmptyIffBlank(s);
    TrimEndEmptyIffBlank(t);
  }

  /** `strip()` only removes characters: what `s` lacks, its stripped form lacks. */
  lemma StripKeepsAbsence(s: string, c: char)
    requires c !in s
    ensures c !in Strip(s)
  {
    var t := TrimStart(s);
    assert forall i :: 0 <= i < |t| ==> t[i] == s[|s| - |t| + i];
    var r := TrimEnd(t);
    assert forall i :: 0 <= i < |r| ==> r[i] == t[i];
  }

  /** A leading space never survives `strip()`. */
  lemma StripIgnoresLeadingSpace(s: string)
    ensures Strip([' '] + s) == Strip(s)
  {
    assert ([' '] + s)[1..] == s;
  }

  /** A string with no whitespace at either end is its own `strip()`. */
  lemma StripKeepsTrimmed(s: string)
    requires IsTrimmed(s)
    ensures Strip(s) == s
  {
  }
}
