/**
 * HTML escaping of show text (`escapeHtml` in scripts/build-shows.mjs):
 * five global single-character replacements, ampersand first.
 */
module Escape {
  import opened JsStrings

  /** `s.replace(/c/g, rep)`: every occurrence of one character replaced by a text without `$`. */
  function ReplaceAll(s: string, c: char, rep: string): (r: string)
    ensures c !in s ==> r == s
  {
    if |s| == 0 then ""
    else (if s[0] == c then rep else [s[0]]) + ReplaceAll(s[1..], c, rep)
  }

  lemma {:induction false} ReplaceAllAppend(a: string, b: string, c: char, rep: string)
    ensures ReplaceAll(a + b, c, rep) == ReplaceAll(a, c, rep) + ReplaceAll(b, c, rep)
    decreases |a|
  {
    if |a| == 0 {
      assert a + b == b;
    } else {
      assert (a + b)[1..] == a[1..] + b;
      ReplaceAllAppend(a[1..], b, c, rep);
    }
  }

  /** `escapeHtml` as the source writes it: a chain of five replacements, `&` first. */
  function EscapeHtml(s: string): string
  {
    var amp := ReplaceAll(s, '&', "&amp;");
    var lt := ReplaceAll(amp, '<', "&lt;");
    var gt := ReplaceAll(lt, '>', "&gt;");
    var quot := ReplaceAll(gt, '"', "&quot;");
    ReplaceAll(quot, '\'', "&#39;")
  }

  /** The entity for one character; every other character stands for itself. */
  function EscapeChar(c: char): string
  {
    match c
    case '&' => "&amp;"
    case '<' => "&lt;"
    case '>' => "&gt;"
    case '"' => "&quot;"
    case '\'' => "&#39;"
    case _ => [c]
  }

  /** The reference definition: each character escaped on its own. */
  function Escaped(s: string): string
  {
    if |s| == 0 then "" else EscapeChar(s[0]) + Escaped(s[1..])
  }

  /** Each step of the chain works character by character, so the chain does too. */
  lemma EscapeHtmlAppend(a: string, b: string)
    ensures EscapeHtml(a + b) == EscapeHtml(a) + EscapeHtml(b)
  {
    ReplaceAllAppend(a, b, '&', "&amp;");
    var a1, b1 := ReplaceAll(a, '&', "&amp;"), ReplaceAll(b, '&', "&amp;");
    ReplaceAllAppend(a1, b1, '<', "&lt;");
    var a2, b2 := ReplaceAll(a1, '<', "&lt;"), ReplaceAll(b1, '<', "&lt;");
    ReplaceAllAppend(a2, b2, '>', "&gt;");
    var a3, b3 := ReplaceAll(a2, '>', "&gt;"), ReplaceAll(b2, '>', "&gt;");
    ReplaceAllAppend(a3, b3, '"', "&quot;");
    var a4, b4 := ReplaceAll(a3, '"', "&quot;"), ReplaceAll(b3, '"', "&quot;");
    ReplaceAllAppend(a4, b4, '\'', "&#39;");
  }

  lemma ReplaceAllSingle(c: char, x: char, rep: string)
    ensures ReplaceAll([c], x, rep) == if c == x then rep else [c]
  {
    assert [c][1..] == [];
  }

  /** No entity introduced by a step contains a character a later step replaces. */
  lemma EscapeHtmlChar(c: char)
    ensures EscapeHtml([c]) == EscapeChar(c)
  {
    ReplaceAllSingle(c, '&', "&amp;");
    var a1 := ReplaceAll([c], '&', "&amp;");
    if c == '&' {
      assert a1 == "&amp;";
      assert '<' !in a1 && '>' !in a1 && '"' !in a1 && '\'' !in a1;
    } else {
      assert a1 == [c];
      ReplaceAllSingle(c, '<', "&lt;");
      var a2 := ReplaceAll(a1, '<', "&lt;");
      if c == '<' {
        assert a2 == "&lt;";
        assert '>' !in a2 && '"' !in a2 && '\'' !in a2;
      } else {
        assert a2 == [c];
        ReplaceAllSingle(c, '>', "&gt;");
        var a3 := ReplaceAll(a2, '>', "&gt;");
        if c == '>' {
          assert a3 == "&gt;";
          assert '"' !in a3 && '\'' !in a3;
        } else {
          assert a3 == [c];
          ReplaceAllSingle(c, '"', "&quot;");
          ReplaceAllSingle(c, '\'', "&#39;");
          var a4 := ReplaceAll(a3, '"', "&quot;");
          if c == '"' {
            assert a4 == "&quot;";
            assert '\'' !in a4;
          }
        }
      }
    }
  }

  /**
   * Because `&` is replaced first and no later entity contains a character a later
   * step replaces, the chain of replacements escapes each character exactly once.
   */
  lemma {:induction false} EscapeHtmlCharwise(s: string)
    ensures EscapeHtml(s) == Escaped(s)
    decreases |s|
  {
    if |s| > 0 {
      assert s == [s[0]] + s[1..];
      EscapeHtmlAppend([s[0]], s[1..]);
      EscapeHtmlChar(s[0]);
      EscapeHtmlCharwise(s[1..]);
    }
  }

  predicate IsMarkupChar(c: char) {
    c == '<' || c == '>' || c == '"' || c == '\''
  }

  /** One of the five entities `escapeHtml` produces begins at position `i` of `t`. */
  predicate EntityAt(t: string, i: nat)
    requires i <= |t|
  {
    var u := t[i..];
    StartsWith(u, "&amp;") || StartsWith(u, "&lt;") || StartsWith(u, "&gt;")
    || StartsWith(u, "&quot;") || StartsWith(u, "&#39;")
  }

  lemma {:induction false} EscapedShape(s: string)
    ensures forall i :: 0 <= i < |Escaped(s)| ==> !IsMarkupChar(Escaped(s)[i])
    ensures forall i :: 0 <= i < |Escaped(s)| && Escaped(s)[i] == '&' ==> EntityAt(Escaped(s), i)
    decreases |s|
  {
    if |s| > 0 {
      EscapedShape(s[1..]);
      var e, t := EscapeChar(s[0]), Escaped(s[1..]);
      var r := Escaped(s);
      assert r == e + t;
      forall i | 0 <= i < |r|
        ensures !IsMarkupChar(r[i])
        ensures r[i] == '&' ==> EntityAt(r, i)
      {
        if i < |e| {
          assert r[i] == e[i];
          if r[i] == '&' {
            assert i == 0;
            assert r[0..] == r;
            assert r[..|e|] == e;
          }
        } else {
          assert r[i] == t[i - |e|];
          assert r[i..] == t[i - |e|..];
        }
      }
    }
  }

  /** Escaping adds no line break. */
  lemma {:induction false} EscapedNoNewline(s: string)
    requires '\n' !in s
    ensures '\n' !in Escaped(s)
    decreases |s|
  {
    if |s| > 0 {
      assert s[0] in s && s == [s[0]] + s[1..];
      assert '\n' !in s[1..];
      EscapedNoNewline(s[1..]);
      assert '\n' !in EscapeChar(s[0]);
    }
  }

  lemma EscapeHtmlNoNewline(s: string)
    requires '\n' !in s
    ensures '\n' !in EscapeHtml(s)
  {
    EscapeHtmlCharwise(s);
    EscapedNoNewline(s);
  }

  /** Escaped text holds no raw `<`, `>`, `"` or `'`. */
  lemma EscapeHtmlNoMarkup(s: string)
    ensures forall i :: 0 <= i < |EscapeHtml(s)| ==> !IsMarkupChar(EscapeHtml(s)[i])
  {
    EscapeHtmlCharwise(s);
    EscapedShape(s);
  }

  /** Every `&` of escaped text begins one of the five entities. */
  lemma EscapeHtmlAmpersands(s: string)
    ensures forall i :: 0 <= i < |EscapeHtml(s)| && EscapeHtml(s)[i] == '&' ==> EntityAt(EscapeHtml(s), i)
  {
    EscapeHtmlCharwise(s);
    EscapedShape(s);
  }

  /** Decoding the five entities; the inverse of escaping. */
  function Unescape(t: string): string
    decreases |t|
  {
    if |t| == 0 then ""
    else if t[0] != '&' then [t[0]] + Unescape(t[1..])
    else if StartsWith(t, "&amp;") then "&" + Unescape(t[5..])
    else if StartsWith(t, "&lt;") then "<" + Unescape(t[4..])
    else if StartsWith(t, "&gt;") then ">" + Unescape(t[4..])
    else if StartsWith(t, "&quot;") then "\"" + Unescape(t[6..])
    else if StartsWith(t, "&#39;") then "'" + Unescape(t[5..])
    else "&" + Unescape(t[1..])
  }

  lemma UnescapeStep(c: char, t: string)
    ensures Unescape(EscapeChar(c) + t) == [c] + Unescape(t)
  {
    var e := EscapeChar(c);
    var u := e + t;
    assert u[|e|..] == t;
    assert u[..|e|] == e;
    if IsMarkupChar(c) || c == '&' {
      assert u[0] == '&' && u[1] == e[1];
      assert StartsWith(u, "&amp;") ==> u[1] == 'a';
      assert StartsWith(u, "&lt;") ==> u[1] == 'l';
      assert StartsWith(u, "&gt;") ==> u[1] == 'g';
      assert StartsWith(u, "&quot;") ==> u[1] == 'q';
    } else {
      assert u[0] == c && u[1..] == t;
    }
  }

  /** Escaping loses nothing: the text is recovered from its escaped form, so nothing is double-escaped. */
  lemma {:induction false} EscapeHtmlRoundTrip(s: string)
    ensures Unescape(EscapeHtml(s)) == s
  {
    EscapeHtmlCharwise(s);
    UnescapeEscaped(s);
  }

  lemma {:induction false} UnescapeEscaped(s: string)
    ensures Unescape(Escaped(s)) == s
    decreases |s|
  {
    if |s| > 0 {
      UnescapeStep(s[0], Escaped(s[1..]));
      UnescapeEscaped(s[1..]);
      assert s == [s[0]] + s[1..];
    }
  }

  lemma {:induction false} EscapedAppend(a: string, b: string)
    ensures Escaped(a + b) == Escaped(a) + Escaped(b)
    decreases |a|
  {
    if |a| == 0 {
      assert a + b == b;
    } else {
      assert (a + b)[1..] == a[1..] + b;
      EscapedAppend(a[1..], b);
    }
  }

  lemma {:induction false} EscapedPlain(s: string)
    requires forall i :: 0 <= i < |s| ==> !IsMarkupChar(s[i]) && s[i] != '&'
    ensures Escaped(s) == s
    decreases |s|
  {
    if |s| > 0 {
      EscapedPlain(s[1..]);
      assert s == [s[0]] + s[1..];
    }
  }

  lemma EscapedCons(c: char, rest: string)
    ensures Escaped([c] + rest) == EscapeChar(c) + Escaped(rest)
  {
    assert ([c] + rest)[1..] == rest;
  }

  lemma ExampleFirst()
    ensures Escaped("O'Bri") == "O&#39;Bri"
  {
    EscapedPlain("Bri");
    EscapedCons('\'', "Bri");
    assert Escaped("'Bri") == "&#39;Bri";
    EscapedCons('O', "'Bri");
  }

  lemma ExampleSecond()
    ensures Escaped("en's ") == "en&#39;s "
  {
    EscapedPlain("s ");
    EscapedCons('\'', "s ");
    EscapedPlain("en");
    EscapedAppend("en", "'s ");
  }

  lemma ExampleThird()
    ensures Escaped("<Venue") == "&lt;Venue"
  {
    EscapedPlain("Venue");
    EscapedCons('<', "Venue");
  }

  lemma ExampleFourth()
    ensures Escaped("> & Co") == "&gt; &amp; Co"
  {
    EscapedPlain(" Co");
    EscapedCons('&', " Co");
    assert Escaped("& Co") == "&amp; Co";
    EscapedCons(' ', "& Co");
    assert Escaped(" & Co") == " &amp; Co";
    EscapedCons('>', " & Co");
  }

  /** The worked example `O'Brien's <Venue> & Co`, written in four pieces. */
  lemma EscapeHtmlExample()
    ensures EscapeHtml("O'Bri" + "en's " + "<Venue" + "> & Co")
         == "O&#39;Bri" + "en&#39;s " + "&lt;Venue" + "&gt; &amp; Co"
  {
    var a, b, c, d := "O'Bri", "en's ", "<Venue", "> & Co";
    ExampleFirst();
    ExampleSecond();
    ExampleThird();
    ExampleFourth();
    EscapedAppend(a, b);
    EscapedAppend(a + b, c);
    EscapedAppend(a + b + c, d);
    EscapeHtmlCharwise(a + b + c + d);
  }

  // ---------------------------------------------------------------------
  // Where markup may open
  // ---------------------------------------------------------------------

  /**
   * Every `<` in `s` opens an element or an end tag: a lower-case ASCII letter
   * or `/` follows it. Such text never opens a comment, so it cannot contain
   * the `<!--` of a marker.
   */
  predicate LtOpensTag(s: string) {
    forall k :: 0 <= k < |s| && s[k] == '<' ==> k + 1 < |s| && ('a' <= s[k + 1] <= 'z' || s[k + 1] == '/')
  }

  /** The property survives concatenation. */
  lemma LtOpensTagConcat(a: string, b: string)
    requires LtOpensTag(a) && LtOpensTag(b)
    ensures LtOpensTag(a + b)
  {
    var t := a + b;
    forall k | 0 <= k < |t| && t[k] == '<'
      ensures k + 1 < |t| && ('a' <= t[k + 1] <= 'z' || t[k + 1] == '/')
    {
      if k < |a| {
        assert a[k] == '<';
        assert t[k + 1] == a[k + 1];
      } else {
        assert b[k - |a|] == '<';
        assert t[k + 1] == b[k - |a| + 1];
      }
    }
  }

  /** Escaped text has no `<` at all, so none of its `<` can open a comment. */
  lemma EscapeHtmlOpensNoTag(s: string)
    ensures '<' !in EscapeHtml(s)
    ensures LtOpensTag(EscapeHtml(s))
  {
    EscapeHtmlNoMarkup(s);
  }
}
