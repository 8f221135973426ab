/**
 * The multi-value columns (tools/generate_site.py:104-106):
 * `[x.strip() for x in field.split(d) if x.strip()]`.
 */
module Fields {
  import opened Text

  /** What every item of a split column is: non-blank, trimmed, free of the delimiter. */
  predicate IsCleanItem(x: string, d: char)
  {
    x != [] && IsTrimmed(x) && d !in x
  }

  /** What one piece contributes: its stripped text, unless that is empty. */
  function Kept(piece: string): seq<string>
  {
    var s := Strip(piece);
    if s == [] then [] else [s]
  }

  /** `[x.strip() for x in pieces if x.strip()]`. */
  function KeepNonBlank(pieces: seq<string>): (items: seq<string>)
    ensures |items| <= |pieces|
    ensures forall i :: 0 <= i < |items| ==> items[i] != [] && IsTrimmed(items[i])
  {
    if pieces == [] then [] else Kept(pieces[0]) + KeepNonBlank(pieces[1..])
  }

  /** Items taken from delimiter-free pieces are clean. */
  lemma {:induction false} ItemsAreClean(pieces: seq<string>, d: char)
    requires forall k :: 0 <= k < |pieces| ==> d !in pieces[k]
    ensures forall i :: 0 <= i < |KeepNonBlank(pieces)| ==> IsCleanItem(KeepNonBlank(pieces)[i], d)
  {
    if pieces != [] {
      ItemsAreClean(pieces[1..], d);
      StripKeepsAbsence(pieces[0], d);
    }
  }

  /** One multi-value column turned into its list of items. */
  function SplitField(s: string, d: char): (items: seq<string>)
    ensures forall i :: 0 <= i < |items| ==> IsCleanItem(items[i], d)
    ensures |items| <= multiset(s)[d] + 1
    ensures s == [] ==> items == []
  {
    SplitPieces(s, d);
    ItemsAreClean(Split(s, d), d);
    KeepNonBlank(Split(s, d))
  }

  /** Filtering works piece by piece, so it keeps the pieces' order. */
  lemma {:induction false} KeepNonBlankAppend(p: seq<string>, q: seq<string>)
    ensures KeepNonBlank(p + q) == KeepNonBlank(p) + KeepNonBlank(q)
  {
    if p == [] {
      assert p + q == q;
    } else {
      var h := Kept(p[0]);
      calc {
        KeepNonBlank(p + q);
        Kept((p + q)[0]) + KeepNonBlank((p + q)[1..]);
        { assert (p + q)[0] == p[0] && (p + q)[1..] == p[1..] + q; }
        h + KeepNonBlank(p[1..] + q);
        { KeepNonBlankAppend(p[1..], q); }
        h + (KeepNonBlank(p[1..]) + KeepNonBlank(q));
        h + KeepNonBlank(p[1..]) + KeepNonBlank(q);
      }
    }
  }

  /**
   * Splitting keeps order and drops only blanks: a delimiter in the column cuts the
   * list of items exactly where it cuts the text.
   */
  lemma SplitFieldAtDelimiter(a: string, b: string, d: char)
    ensures SplitField(a + [d] + b, d) == SplitField(a, d) + SplitField(b, d)
  {
    SplitAtDelimiter(a, b, d);
    KeepNonBlankAppend(Split(a, d), Split(b, d));
  }

  /** A column without the delimiter gives its stripped text, or nothing when blank. */
  lemma SplitFieldWithoutDelimiter(s: string, d: char)
    requires d !in s
    ensures SplitField(s, d) == Kept(s)
  {
    SplitThenJoin(s, d);
    SplitPieces(s, d);
    assert multiset(s)[d] == 0;
    assert Split(s, d) == [s];
    KeepNonBlankCons(s, []);
  }

  /** A clean item is kept as it is. */
  lemma KeptClean(x: string, d: char)
    requires IsCleanItem(x, d)
    ensures Kept(x) == [x]
  {
    StripKeepsTrimmed(x);
  }

  /** A piece is dropped exactly when it is blank. */
  lemma KeptEmptyIffBlank(x: string)
    ensures Kept(x) == [] <==> IsBlank(x)
  {
    StripEmptyIffBlank(x);
  }

  lemma KeptIgnoresLeadingSpace(x: string)
    ensures Kept([' '] + x) == Kept(x)
  {
    StripIgnoresLeadingSpace(x);
  }

  lemma KeepNonBlankCons(x: string, rest: seq<string>)
    ensures KeepNonBlank([x] + rest) == Kept(x) + KeepNonBlank(rest)
  {
    assert ([x] + rest)[0] == x && ([x] + rest)[1..] == rest;
  }

  /** Blank pieces are exactly the ones dropped: no item comes out iff every piece is blank. */
  lemma {:induction false} KeepNonBlankEmptyIff(pieces: seq<string>)
    ensures KeepNonBlank(pieces) == [] <==> forall k :: 0 <= k < |pieces| ==> IsBlank(pieces[k])
  {
    if pieces != [] {
      KeepNonBlankEmptyIff(pieces[1..]);
      KeptEmptyIffBlank(pieces[0]);
      assert KeepNonBlank(pieces) == Kept(pieces[0]) + KeepNonBlank(pieces[1..]);
      assert (forall k :: 0 <= k < |pieces| ==> IsBlank(pieces[k]))
         <==> IsBlank(pieces[0]) && (forall k :: 0 <= k < |pieces[1..]| ==> IsBlank(pieces[1..][k]));
    }
  }

  /** A leading space before the first piece makes no difference to the items. */
  lemma SplitFieldIgnoresLeadingSpace(s: string, d: char)
    requires d != ' '
    ensures SplitField([' '] + s, d) == SplitField(s, d)
  {
    var p := Split(s, d);
    SplitAfterPlainPrefix([' '], s, d);
    KeptIgnoresLeadingSpace(p[0]);
    KeepNonBlankCons([' '] + p[0], p[1..]);
    KeepNonBlankCons(p[0], p[1..]);
    assert p == [p[0]] + p[1..];
    calc {
      KeepNonBlank(Split([' '] + s, d));
      KeepNonBlank([[' '] + p[0]] + p[1..]);
      Kept([' '] + p[0]) + KeepNonBlank(p[1..]);
      Kept(p[0]) + KeepNonBlank(p[1..]);
      KeepNonBlank(p);
    }
  }

  /** One step of reading a `", "`-joined list: the first clean item, then the rest. */
  lemma SpacedJoinStep(x: string, tail: string, d: char)
    requires d != ' ' && IsCleanItem(x, d)
    ensures SplitField(x + [d] + ([' '] + tail), d) == [x] + SplitField(tail, d)
  {
    SplitFieldWithoutDelimiter(x, d);
    KeptClean(x, d);
    SplitFieldAtDelimiter(x, [' '] + tail, d);
    SplitFieldIgnoresLeadingSpace(tail, d);
  }

  lemma SpacedJoinCons(items: seq<string>, d: char)
    requires |items| > 1 && d != ' ' && IsCleanItem(items[0], d)
    ensures SplitField(JoinWith(items, [d, ' ']), d)
            == [items[0]] + SplitField(JoinWith(items[1..], [d, ' ']), d)
  {
    var tail := JoinWith(items[1..], [d, ' ']);
    assert JoinWith(items, [d, ' ']) == items[0] + [d] + ([' '] + tail);
    SpacedJoinStep(items[0], tail, d);
  }

  lemma SpacedJoinSingle(x: string, d: char)
    requires IsCleanItem(x, d)
    ensures SplitField(JoinWith([x], [d, ' ']), d) == [x]
  {
    SplitFieldWithoutDelimiter(x, d);
    KeptClean(x, d);
  }

  /**
   * Splitting items joined with the delimiter and a space (as `", ".join(tags)`)
   * gives the items back, when every item is clean.
   */
  lemma {:induction false} SplitFieldOfSpacedJoin(items: seq<string>, d: char)
    requires d != ' '
    requires forall i :: 0 <= i < |items| ==> IsCleanItem(items[i], d)
    ensures SplitField(JoinWith(items, [d, ' ']), d) == items
  {
    if |items| == 1 {
      SpacedJoinSingle(items[0], d);
      assert items == [items[0]];
    } else if |items| > 1 {
      SplitFieldOfSpacedJoin(items[1..], d);
      SpacedJoinCons(items, d);
      assert items == [items[0]] + items[1..];
    }
  }
}
