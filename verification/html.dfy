/**
 * `html_escape` (tools/generate_site.py:4-5): three `str.replace` calls,
 * `&` first, then `<`, then `>`; `None` or `""` gives `""`.
 */
module Html {
  import opened Wrappers

  /** `s.replace(c, rep)` for a one-character pattern: every `c`, left to right. */
  function ReplaceChar(s: string, c: char, rep: string): string
  {
    if s == [] then [] else (if s[0] == c then rep else [s[0]]) + ReplaceChar(s[1..], c, rep)
  }

  /** Replacing characters works piece by piece. */
  lemma {:induction false} ReplaceCharAppend(a: string, b: string, c: char, rep: string)
    ensures ReplaceChar(a + b, c, rep) == ReplaceChar(a, c, rep) + ReplaceChar(b, c, rep)
  {
    if a == [] {
      assert a + b == b;
    } else {
      assert (a + b)[0] == a[0] && (a + b)[1..] == a[1..] + b;
      ReplaceCharAppend(a[1..], b, c, rep);
    }
  }

  /** The entity that stands for one character in escaped text. */
  function EscapeChar(c: char): string
  {
    if c == '&' then "&amp;" else if c == '<' then "&lt;" else if c == '>' then "&gt;" else [c]
  }

  /** Reference escaping: every character replaced by its entity in a single pass. */
  function EscapeEach(s: string): string
  {
    if s == [] then [] else EscapeChar(s[0]) + EscapeEach(s[1..])
  }

  /** Decoding of the three entities, scanning left to right. */
  function Unescape(s: string): string
  {
    if s == [] then []
    else if "&amp;" <= s then "&" + Unescape(s[5..])
    else if "&lt;" <= s then "<" + Unescape(s[4..])
    else if "&gt;" <= s then ">" + Unescape(s[4..])
    else [s[0]] + Unescape(s[1..])
  }

  /** The three chained replacements of one character give that character's entity. */
  lemma ChainOnOneChar(c: char)
    ensures ReplaceChar(ReplaceChar(ReplaceChar([c], '&', "&amp;"), '<', "&lt;"), '>', "&gt;")
            == EscapeChar(c)
  {
    var r1 := ReplaceChar([c], '&', "&amp;");
    assert [c][0] == c && [c][1..] == [];
    assert r1 == (if c == '&' then "&amp;" else [c]) + ReplaceChar([], '&', "&amp;");
    var r2 := ReplaceChar(r1, '<', "&lt;");
    if c == '&' {
      ReplaceAbsent(r1, '<', "&lt;");
      ReplaceAbsent(r2, '>', "&gt;");
    } else {
      assert r1 == [c];
      assert r2 == (if c == '<' then "&lt;" else [c]) + ReplaceChar([], '<', "&lt;");
      if c == '<' {
        ReplaceAbsent(r2, '>', "&gt;");
      } else {
        assert r2 == [c];
        assert ReplaceChar(r2, '>', "&gt;") == (if c == '>' then "&gt;" else [c]) + ReplaceChar([], '>', "&gt;");
      }
    }
  }

  /** Replacing a character that does not occur changes nothing. */
  lemma {:induction false} ReplaceAbsent(s: string, c: char, rep: string)
    requires c !in s
    ensures ReplaceChar(s, c, rep) == s
  {
    if s != [] {
      ReplaceAbsent(s[1..], c, rep);
      assert s == [s[0]] + s[1..];
    }
  }

  /**
   * Because `&` is replaced first, the chain of replacements equals escaping each
   * character once: the `&` inside `&lt;` and `&gt;` is never escaped again.
   */
  lemma {:induction false} ChainEscapesEachCharOnce(s: string)
    ensures ReplaceChar(ReplaceChar(ReplaceChar(s, '&', "&amp;"), '<', "&lt;"), '>', "&gt;")
            == EscapeEach(s)
  {
    if s != [] {
      var head, tail := [s[0]], s[1..];
      assert s == head + tail;
      ReplaceCharAppend(head, tail, '&', "&amp;");
      var r1h, r1t := ReplaceChar(head, '&', "&amp;"), ReplaceChar(tail, '&', "&amp;");
      ReplaceCharAppend(r1h, r1t, '<', "&lt;");
      var r2h, r2t := ReplaceChar(r1h, '<', "&lt;"), ReplaceChar(r1t, '<', "&lt;");
      ReplaceCharAppend(r2h, r2t, '>', "&gt;");
      ChainOnOneChar(s[0]);
      ChainEscapesEachCharOnce(tail);
    }
  }

  lemma {:induction false} EscapeEachHasNoAngleBrackets(s: string)
    ensures '<' !in EscapeEach(s) && '>' !in EscapeEach(s)
  {
    if s != [] {
      EscapeEachHasNoAngleBrackets(s[1..]);
    }
  }

  lemma {:induction false} UnescapeEscapeEach(s: string)
    ensures Unescape(EscapeEach(s)) == s
  {
    if s != [] {
      var rest := EscapeEach(s[1..]);
      UnescapeEscapeEach(s[1..]);
      var e := EscapeChar(s[0]) + rest;
      if s[0] == '&' {
        assert "&amp;" <= e && e[5..] == rest;
      } else if s[0] == '<' {
        assert e[1] == 'l';
        assert "&lt;" <= e && e[4..] == rest;
      } else if s[0] == '>' {
        assert e[1] == 'g';
        assert "&gt;" <= e && e[4..] == rest;
      } else {
        assert e[0] == s[0] && e[1..] == rest;
      }
      assert s == [s[0]] + s[1..];
    }
  }

  /**
   * `html_escape(s)` for a present `s`. The result holds no `<` and no `>`, and
   * decoding the entities gives `s` back, so no two inputs escape alike.
   */
  function HtmlEscape(s: string): (r: string)
    ensures '<' !in r && '>' !in r
    ensures Unescape(r) == s
  {
    ChainEscapesEachCharOnce(s);
    EscapeEachHasNoAngleBrackets(s);
    UnescapeEscapeEach(s);
    ReplaceChar(ReplaceChar(ReplaceChar(s, '&', "&amp;"), '<', "&lt;"), '>', "&gt;")
  }

  /** `html_escape(s)` including the `(s or "")` guard: empty exactly for `None` and `""`. */
  function HtmlEscapeOrEmpty(s: Option<string>): (r: string)
    ensures r == [] <==> (s == None || s == Some(""))
    ensures s.Some? ==> Unescape(r) == s.value
  {
    HtmlEscape(if s.Some? then s.value else "")
  }

  /** Each `&` grows by four characters, each `<` and `>` by three. */
  lemma {:induction false} EscapedLength(s: string)
    ensures |HtmlEscape(s)| == |s| + 4 * multiset(s)['&'] + 3 * multiset(s)['<'] + 3 * multiset(s)['>']
  {
    ChainEscapesEachCharOnce(s);
    EscapeEachLength(s);
  }

  lemma {:induction false} EscapeEachLength(s: string)
    ensures |EscapeEach(s)| == |s| + 4 * multiset(s)['&'] + 3 * multiset(s)['<'] + 3 * multiset(s)['>']
  {
    if s != [] {
      EscapeEachLength(s[1..]);
      assert s == [s[0]] + s[1..];
      assert multiset(s) == multiset([s[0]]) + multiset(s[1..]);
    }
  }

  /** Text with none of `&`, `<`, `>` is left unchanged, and only such text is. */
  lemma EscapeIsIdentityIff(s: string)
    ensures HtmlEscape(s) == s <==> ('&' !in s && '<' !in s && '>' !in s)
  {
    EscapedLength(s);
    if '&' !in s && '<' !in s && '>' !in s {
      ChainEscapesEachCharOnce(s);
      EscapeEachKeepsPlainText(s);
    }
  }

  lemma {:induction false} EscapeEachKeepsPlainText(s: string)
    requires '&' !in s && '<' !in s && '>' !in s
    ensures EscapeEach(s) == s
  {
    if s != [] {
      EscapeEachKeepsPlainText(s[1..]);
      assert s == [s[0]] + s[1..];
    }
  }

  /** The characters the three entities are spelled with. */
  predicate IsEntityChar(c: char)
  {
    c == '&' || c == ';' || c == 'a' || c == 'm' || c == 'p' || c == 'l' || c == 't' || c == 'g'
    || c == '<' || c == '>'
  }

  /** Characters outside the entities' alphabet occur in the output exactly as often as in the input. */
  lemma {:induction false} EscapeKeepsOtherChars(s: string, c: char)
    requires !IsEntityChar(c)
    ensures multiset(HtmlEscape(s))[c] == multiset(s)[c]
  {
    ChainEscapesEachCharOnce(s);
    EscapeEachKeepsOtherChars(s, c);
  }

  lemma {:induction false} EscapeEachKeepsOtherChars(s: string, c: char)
    requires !IsEntityChar(c)
    ensures multiset(EscapeEach(s))[c] == multiset(s)[c]
  {
    if s != [] {
      EscapeEachKeepsOtherChars(s[1..], c);
      assert s == [s[0]] + s[1..];
      assert multiset(s)[c] == multiset([s[0]])[c] + multiset(s[1..])[c];
      assert multiset(EscapeEach(s))[c] == multiset(EscapeChar(s[0]))[c] + multiset(EscapeEach(s[1..]))[c];
      EscapeCharKeepsOtherChars(s[0], c);
    }
  }

  lemma EscapeCharKeepsOtherChars(x: char, c: char)
    requires !IsEntityChar(c)
    ensures multiset(EscapeChar(x))[c] == multiset([x])[c]
  {
    if x == '&' || x == '<' || x == '>' {
      assert c !in EscapeChar(x);
    }
  }
}
