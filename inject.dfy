/**
 * `injectShows` of scripts/build-shows.mjs: the rendered listing replaces the
 * region of a page between two marker comments.
 */
module Inject {
  import opened Wrappers
  import opened JsStrings
  import opened Escape

  /** The comments that open and close the listing region. */
  datatype Markers = Markers(open: string, close: string)

  const ShowsMarkers := Markers("<!-- SHOWS_START -->", "<!-- SHOWS_END -->")

  /** Both markers are comments: non-empty, the closing one opening with `<!`, neither holding `$`. */
  predicate CommentMarkers(mk: Markers) {
    |mk.open| > 0 && |mk.close| >= 2 && mk.close[0] == '<' && mk.close[1] == '!'
    && '$' !in mk.open && '$' !in mk.close
  }

  datatype InjectError = MissingMarkers

  /** `file[i..j]` is a match of the pattern `START[\s\S]*?END`. */
  predicate Spans(file: string, mk: Markers, i: nat, j: nat) {
    OccursAt(file, mk.open, i) && i + |mk.open| + |mk.close| <= j && OccursAt(file, mk.close, j - |mk.close|)
  }

  /** The span the pattern matches: from the first start marker to the first end marker after it. */
  function Region(file: string, mk: Markers): (r: Option<(nat, nat)>)
    ensures r.Some? ==> Spans(file, mk, r.value.0, r.value.1)
  {
    match IndexOf(file, mk.open, 0)
    case None => None
    case Some(i) =>
      match IndexOf(file, mk.close, i + |mk.open|)
      case None => None
      case Some(k) => Some((i, k + |mk.close|))
  }

  /** What the listing region holds: the text between the markers of the matched span. */
  function Content(file: string, mk: Markers): Option<string>
  {
    match Region(file, mk)
    case None => None
    case Some((i, j)) => Some(file[i + |mk.open|..j - |mk.close|])
  }

  /** The listing between the newlines that separate it from the markers. */
  function Framed(html: string): string {
    "\n" + html + "\n"
  }

  /** `${start}\n${showsHtml}\n${end}`. */
  function Replacement(mk: Markers, html: string): string {
    mk.open + Framed(html) + mk.close
  }

  /**
   * `injectShows`, splicing the listing in literally. Both markers must be present;
   * when no end marker follows the first start marker the pattern does not match
   * and the page is written back unchanged.
   */
  function Splice(file: string, mk: Markers, html: string): Result<string, InjectError>
  {
    if !Contains(file, mk.open) || !Contains(file, mk.close) then Err(MissingMarkers)
    else
      match Region(file, mk)
      case None => Ok(file)
      case Some((i, j)) => Ok(file[..i] + Replacement(mk, html) + file[j..])
  }

  /**
   * `injectShows` as written: `file.replace(pattern, replacement)` expands `$`
   * patterns of the replacement string, and the listing is part of it.
   */
  function SpliceAsWritten(file: string, mk: Markers, html: string): Result<string, InjectError>
  {
    if !Contains(file, mk.open) || !Contains(file, mk.close) then Err(MissingMarkers)
    else
      match Region(file, mk)
      case None => Ok(file)
      case Some((i, j)) => Ok(file[..i] + Substitute(Replacement(mk, html), file[i..j], file[..i], file[j..]) + file[j..])
  }

  /** `injectShows(filePath, showsHtml)` on the page's text. */
  function InjectShows(file: string, html: string): Result<string, InjectError> {
    Splice(file, ShowsMarkers, html)
  }

  /** `injectShows` as written. */
  function InjectShowsAsWritten(file: string, html: string): Result<string, InjectError> {
    SpliceAsWritten(file, ShowsMarkers, html)
  }

  lemma ShowsMarkersAreComments()
    ensures CommentMarkers(ShowsMarkers)
  {
  }

  // ---------------------------------------------------------------------
  // The matched span
  // ---------------------------------------------------------------------

  /** The first occurrence from `from` on is the one at `i` when there is none before it. */
  lemma IndexOfIs(s: string, pat: string, from: nat, i: nat)
    requires from <= i && OccursAt(s, pat, i)
    requires forall p :: from <= p < i ==> !OccursAt(s, pat, p)
    ensures IndexOf(s, pat, from) == Some(i)
  {
  }

  /**
   * `Region` is the match a regular-expression engine reports: among all spans
   * it starts leftmost, and among the spans from there it is the shortest
   * (the lazy `*?`); there is none when it reports none.
   */
  lemma RegionIsLeftmostShortest(file: string, mk: Markers)
    ensures Region(file, mk).Some? ==>
      forall i, j :: Spans(file, mk, i, j) ==>
        Region(file, mk).value.0 < i || (Region(file, mk).value.0 == i && Region(file, mk).value.1 <= j)
    ensures Region(file, mk).None? ==> forall i, j :: !Spans(file, mk, i, j)
  {
    match IndexOf(file, mk.open, 0) {
      case None =>
      case Some(i0) =>
        match IndexOf(file, mk.close, i0 + |mk.open|) {
          case None =>
            forall i: nat, j: nat ensures !Spans(file, mk, i, j) {
              if OccursAt(file, mk.open, i) {
                assert i0 <= i;
              }
            }
          case Some(k) =>
        }
    }
  }

  /** The markers are there exactly when the page has an occurrence of each. */
  lemma SpliceMissing(file: string, mk: Markers, html: string)
    ensures Splice(file, mk, html).Err? <==>
      (forall i: nat :: !OccursAt(file, mk.open, i)) || (forall i: nat :: !OccursAt(file, mk.close, i))
  {
    ContainsIff(file, mk.open);
    ContainsIff(file, mk.close);
  }

  /** With both markers but no end marker after the first start marker, the page is written back unchanged. */
  lemma SpliceNoMatch(file: string, mk: Markers, html: string)
    requires Contains(file, mk.open) && Contains(file, mk.close)
    requires forall i, j :: !Spans(file, mk, i, j)
    ensures Splice(file, mk, html) == Ok(file)
  {
  }

  // ---------------------------------------------------------------------
  // Splicing a listing in
  // ---------------------------------------------------------------------

  /** Where a piece of text sits inside a longer one, occurrences in it are occurrences there. */
  lemma EmbeddedOccurrence(t: string, r: string, off: nat, pat: string, q: nat)
    requires off + |r| <= |t| && t[off..off + |r|] == r && q + |pat| <= |r|
    ensures OccursAt(t, pat, off + q) <==> OccursAt(r, pat, q)
  {
    var x, y := t[off + q..off + q + |pat|], r[q..q + |pat|];
    forall k | 0 <= k < |pat| ensures x[k] == y[k] {
      assert t[off..off + |r|][q + k] == t[off + q + k];
    }
    assert x == y;
  }

  /** A first occurrence stays first when the text up to its end is kept. */
  lemma PrefixKeepsFirst(s: string, t: string, pat: string, i: nat)
    requires IndexOf(s, pat, 0) == Some(i)
    requires i + |pat| <= |t| && t[..i + |pat|] == s[..i + |pat|]
    ensures IndexOf(t, pat, 0) == Some(i)
  {
    var u := s[..i + |pat|];
    forall p | 0 <= p <= i ensures OccursAt(t, pat, p) <==> OccursAt(s, pat, p) {
      EmbeddedOccurrence(t, u, 0, pat, p);
      EmbeddedOccurrence(s, u, 0, pat, p);
    }
    IndexOfIs(t, pat, 0, i);
  }

  /**
   * Text whose every `<` opens a tag, between two newlines, holds no marker
   * (which opens with `<!`) except where the closing text begins.
   */
  lemma NoMarkerInside(html: string, post: string, e: string)
    requires LtOpensTag(html) && |e| >= 2 && e[0] == '<' && e[1] == '!'
    ensures forall q: nat :: q <= |html| + 1 ==> !OccursAt(Framed(html) + post, e, q)
  {
    var m := Framed(html) + post;
    forall q: nat | q <= |html| + 1 ensures !OccursAt(m, e, q) {
      if q == 0 || q == |html| + 1 {
        assert m[q] == '\n';
      } else if html[q - 1] == '<' {
        assert m[q + 1] == html[q];
      } else {
        assert m[q] == html[q - 1];
      }
    }
  }

  /** In a replacement the only end marker after the start marker is the closing one. */
  lemma NoEndInside(mk: Markers, html: string)
    requires CommentMarkers(mk) && LtOpensTag(html)
    ensures forall q :: |mk.open| <= q < |Replacement(mk, html)| - |mk.close| ==> !OccursAt(Replacement(mk, html), mk.close, q)
  {
    var r := Replacement(mk, html);
    var m := Framed(html) + mk.close;
    assert r == mk.open + m;
    assert r[|mk.open|..|mk.open| + |m|] == m;
    NoMarkerInside(html, mk.close, mk.close);
    forall q | |mk.open| <= q < |r| - |mk.close| ensures !OccursAt(r, mk.close, q) {
      EmbeddedOccurrence(r, m, |mk.open|, mk.close, q - |mk.open|);
    }
  }

  /** The start marker the pattern finds in a page that keeps the text before a replacement. */
  lemma SplicedOpen(file: string, t: string, mk: Markers, r: string, i: nat)
    requires IndexOf(file, mk.open, 0) == Some(i)
    requires |mk.open| <= |r| && r[..|mk.open|] == mk.open
    requires i + |r| <= |t| && t[..i] == file[..i] && t[i..i + |r|] == r
    ensures IndexOf(t, mk.open, 0) == Some(i)
  {
    var o := mk.open;
    assert t[..i + |o|] == file[..i + |o|] by {
      assert file[i..i + |o|] == o;
      assert t[i..i + |o|] == r[..|o|];
      assert t[..i + |o|] == t[..i] + t[i..i + |o|];
      assert file[..i + |o|] == file[..i] + file[i..i + |o|];
    }
    PrefixKeepsFirst(file, t, o, i);
  }

  /** Occurrences inside a piece of a text are the piece's own. */
  lemma NoneInPiece(t: string, r: string, i: nat, lo: nat, c: string)
    requires i + |r| <= |t| && t[i..i + |r|] == r && lo + |c| <= |r|
    requires forall q :: lo <= q < |r| - |c| ==> !OccursAt(r, c, q)
    ensures forall p :: i + lo <= p < i + |r| - |c| ==> !OccursAt(t, c, p)
  {
    forall p | i + lo <= p < i + |r| - |c| ensures !OccursAt(t, c, p) {
      EmbeddedOccurrence(t, r, i, c, p - i);
    }
  }

  /**
   * Inside a text, a piece that ends with the end marker and hides none after its
   * start marker gives the first end marker after that start marker.
   */
  lemma FirstInPiece(t: string, r: string, i: nat, mk: Markers)
    requires i + |r| <= |t| && t[i..i + |r|] == r
    requires |mk.open| + |mk.close| <= |r| && r[|r| - |mk.close|..] == mk.close
    requires forall q :: |mk.open| <= q < |r| - |mk.close| ==> !OccursAt(r, mk.close, q)
    ensures IndexOf(t, mk.close, i + |mk.open|) == Some(i + |r| - |mk.close|)
  {
    NoneInPiece(t, r, i, |mk.open|, mk.close);
    EmbeddedOccurrence(t, r, i, mk.close, |r| - |mk.close|);
    IndexOfIs(t, mk.close, i + |mk.open|, i + |r| - |mk.close|);
  }

  /** The first end marker after a replacement's start marker is the one that closes it. */
  lemma SplicedClose(t: string, mk: Markers, html: string, r: string, i: nat)
    requires CommentMarkers(mk) && LtOpensTag(html) && r == Replacement(mk, html)
    requires i + |r| <= |t| && t[i..i + |r|] == r
    ensures IndexOf(t, mk.close, i + |mk.open|) == Some(i + |r| - |mk.close|)
  {
    ReplacementEnds(mk, html);
    NoEndInside(mk, html);
    FirstInPiece(t, r, i, mk);
  }

  /** A replacement opens with the start marker and ends with the end marker. */
  lemma ReplacementEnds(mk: Markers, html: string)
    ensures |mk.open| + |mk.close| <= |Replacement(mk, html)|
    ensures Replacement(mk, html)[..|mk.open|] == mk.open
    ensures Replacement(mk, html)[|Replacement(mk, html)| - |mk.close|..] == mk.close
  {
    Middle(mk.open, Framed(html), mk.close);
  }

  /** A page that keeps the text before the first start marker and puts a replacement there matches exactly it. */
  lemma RegionOfSpliced(file: string, t: string, mk: Markers, html: string, r: string, i: nat)
    requires CommentMarkers(mk) && LtOpensTag(html) && r == Replacement(mk, html)
    requires IndexOf(file, mk.open, 0) == Some(i)
    requires i + |r| <= |t| && t[..i] == file[..i] && t[i..i + |r|] == r
    ensures Region(t, mk) == Some((i, i + |r|))
  {
    ReplacementEnds(mk, html);
    SplicedOpen(file, t, mk, r, i);
    SplicedClose(t, mk, html, r, i);
    RegionFrom(t, mk, i, r);
  }

  /** The span from the first start marker to the end of the first end marker after it. */
  lemma RegionFrom(t: string, mk: Markers, i: nat, r: string)
    requires |mk.close| <= |r|
    requires IndexOf(t, mk.open, 0) == Some(i) && IndexOf(t, mk.close, i + |mk.open|) == Some(i + |r| - |mk.close|)
    ensures Region(t, mk) == Some((i, i + |r|))
  {
  }

  /** With a matched span, the splice replaces exactly that span. */
  lemma SpliceAt(file: string, mk: Markers, html: string, i: nat, j: nat)
    requires Region(file, mk) == Some((i, j))
    ensures Splice(file, mk, html) == Ok(file[..i] + Replacement(mk, html) + file[j..])
  {
    assert IndexOf(file, mk.open, 0).Some?;
    assert IndexOf(file, mk.close, 0).Some? by {
      assert OccursAt(file, mk.close, j - |mk.close|);
    }
  }

  /** Only the region changes: the text before the start marker and after the end marker is kept. */
  lemma SpliceKeepsOutside(file: string, mk: Markers, html: string, i: nat, j: nat)
    requires Region(file, mk) == Some((i, j))
    ensures Splice(file, mk, html).Ok?
    ensures Splice(file, mk, html).value[..i] == file[..i]
    ensures Splice(file, mk, html).value[i + |Replacement(mk, html)|..] == file[j..]
  {
    SpliceAt(file, mk, html, i, j);
    var t := file[..i] + Replacement(mk, html) + file[j..];
    assert t[..i] == file[..i];
    assert t[i + |Replacement(mk, html)|..] == file[j..];
  }

  /** The three parts of a three-part text. */
  lemma Middle(a: string, m: string, c: string)
    ensures (a + m + c)[..|a|] == a
    ensures (a + m + c)[|a|..|a| + |m|] == m
    ensures (a + m + c)[|a| + |m|..] == c
  {
  }

  /** A slice of a slice. */
  lemma SliceOfSlice(t: string, i: nat, k: nat, lo: nat, hi: nat)
    requires i <= k <= |t| && lo <= hi <= k - i
    ensures t[i..k][lo..hi] == t[i + lo..i + hi]
  {
    var x, y := t[i..k][lo..hi], t[i + lo..i + hi];
    forall n | 0 <= n < |x| ensures x[n] == y[n] {
      assert x[n] == t[i..k][lo + n];
    }
  }

  /** What the markers of a page enclose, when the span is known. */
  lemma ContentAt(t: string, mk: Markers, i: nat, r: string, m: string)
    requires Region(t, mk) == Some((i, i + |r|))
    requires r == mk.open + m + mk.close
    requires t[i..i + |r|] == r
    ensures Content(t, mk) == Some(m)
  {
    Middle(mk.open, m, mk.close);
    SliceOfSlice(t, i, i + |r|, |mk.open|, |mk.open| + |m|);
  }

  /** A page whose span holds a replacement reads back the framed listing. */
  lemma ContentOfSpliced(t: string, mk: Markers, html: string, r: string, i: nat)
    requires r == Replacement(mk, html)
    requires Region(t, mk) == Some((i, i + |r|)) && t[i..i + |r|] == r
    ensures Content(t, mk) == Some(Framed(html))
  {
    ContentAt(t, mk, i, r, Framed(html));
  }

  /** A spliced page holds the listing, framed by one newline on each side. */
  lemma SpliceThenRead(file: string, mk: Markers, html: string)
    requires CommentMarkers(mk) && Region(file, mk).Some? && LtOpensTag(html)
    ensures Splice(file, mk, html).Ok?
    ensures Content(Splice(file, mk, html).value, mk) == Some(Framed(html))
  {
    var (i, j) := Region(file, mk).value;
    var t, r := Spliced(file, mk, html, i, j);
    ContentOfSpliced(t, mk, html, r, i);
  }

  /** Two pages that agree outside their matched spans splice alike. */
  lemma SpliceSameOutside(t: string, file: string, mk: Markers, html: string, i: nat, j: nat, r: string)
    requires Region(file, mk) == Some((i, j)) && Region(t, mk) == Some((i, i + |r|))
    requires t[..i] == file[..i] && t[i + |r|..] == file[j..]
    ensures Splice(t, mk, html) == Splice(file, mk, html)
  {
    SpliceAt(file, mk, html, i, j);
    SpliceAt(t, mk, html, i, i + |r|);
  }

  /** The spliced page and the end of its span, named, and what is known of them. */
  lemma Spliced(file: string, mk: Markers, html: string, i: nat, j: nat) returns (t: string, r: string)
    requires CommentMarkers(mk) && Region(file, mk) == Some((i, j)) && LtOpensTag(html)
    ensures r == Replacement(mk, html) && Splice(file, mk, html) == Ok(t)
    ensures Region(t, mk) == Some((i, i + |r|))
    ensures t[..i] == file[..i] && t[i + |r|..] == file[j..] && t[i..i + |r|] == r
  {
    r := Replacement(mk, html);
    t := file[..i] + r + file[j..];
    SpliceAt(file, mk, html, i, j);
    Middle(file[..i], r, file[j..]);
    RegionOfSpliced(file, t, mk, html, r, i);
  }

  /**
   * A second build overwrites the first: splicing `h2` into a page that already
   * holds `h1` gives what splicing `h2` into the original page gives.
   */
  lemma SpliceOverwrites(file: string, mk: Markers, h1: string, h2: string)
    requires CommentMarkers(mk) && Region(file, mk).Some? && LtOpensTag(h1)
    ensures Splice(file, mk, h1).Ok?
    ensures Splice(Splice(file, mk, h1).value, mk, h2) == Splice(file, mk, h2)
  {
    var (i, j) := Region(file, mk).value;
    var t, r := Spliced(file, mk, h1, i, j);
    SpliceSameOutside(t, file, mk, h2, i, j, r);
  }

  /** So splicing the same listing twice changes nothing the second time. */
  lemma SpliceIdempotent(file: string, mk: Markers, html: string)
    requires CommentMarkers(mk) && LtOpensTag(html)
    requires Splice(file, mk, html).Ok?
    ensures Splice(Splice(file, mk, html).value, mk, html) == Splice(file, mk, html)
  {
    if Region(file, mk).Some? {
      SpliceOverwrites(file, mk, html, html);
    }
  }

  // ---------------------------------------------------------------------
  // The page as written by the source
  // ---------------------------------------------------------------------

  /** A `$` template followed by text without `$` that opens with none of `$&`'`` ` ``: the text is kept. */
  lemma {:induction false} SubstituteSuffix(a: string, b: string, matched: string, before: string, after: string)
    requires '$' !in b && |b| > 0 && b[0] != '&' && b[0] != '`' && b[0] != '\''
    ensures Substitute(a + b, matched, before, after) == Substitute(a, matched, before, after) + b
    decreases |a|
  {
    var ab := a + b;
    if |a| == 0 {
      assert ab == b;
      SubstituteLiteral(b, matched, before, after);
    } else if StartsPattern(a) {
      assert ab[0] == a[0] && ab[1] == a[1] && ab[2..] == a[2..] + b;
      var piece := Expansion(a[1], matched, before, after);
      SubstituteSuffix(a[2..], b, matched, before, after);
      assert piece + (Substitute(a[2..], matched, before, after) + b) == (piece + Substitute(a[2..], matched, before, after)) + b;
    } else if |a| == 1 {
      assert ab[0] == a[0] && ab[1..] == b && ab[1] == b[0];
      assert !StartsPattern(ab);
      SubstituteLiteral(b, matched, before, after);
    } else {
      assert ab[0] == a[0] && ab[1] == a[1] && ab[1..] == a[1..] + b;
      SubstituteSuffix(a[1..], b, matched, before, after);
      assert [a[0]] + (Substitute(a[1..], matched, before, after) + b) == ([a[0]] + Substitute(a[1..], matched, before, after)) + b;
    }
  }

  /** Text without `$` ahead of a template is kept. */
  lemma {:induction false} SubstituteSplit(a: string, b: string, matched: string, before: string, after: string)
    requires '$' !in a
    ensures Substitute(a + b, matched, before, after) == a + Substitute(b, matched, before, after)
  {
    if |a| > 0 {
      var ab := a + b;
      assert ab[0] == a[0] && a[0] != '$';
      assert ab[1..] == a[1..] + b;
      SubstituteSplit(a[1..], b, matched, before, after);
      calc {
        Substitute(ab, matched, before, after);
        [a[0]] + Substitute(ab[1..], matched, before, after);
        [a[0]] + (a[1..] + Substitute(b, matched, before, after));
        { assert a == [a[0]] + a[1..]; }
        a + Substitute(b, matched, before, after);
      }
    } else {
      assert a + b == b;
    }
  }

  /** The replacement is the listing between a `$`-free head and tail; the tail opens with a newline. */
  lemma ReplacementParts(mk: Markers, html: string) returns (pre: string, post: string)
    requires CommentMarkers(mk)
    ensures Replacement(mk, html) == pre + (html + post)
    ensures pre == mk.open + "\n" && post == "\n" + mk.close
    ensures '$' !in pre && '$' !in post && |post| > 0 && post[0] == '\n'
  {
    pre, post := mk.open + "\n", "\n" + mk.close;
    assert '$' !in "\n";
  }

  /**
   * The source's splice writes the listing after `$` expansion: what the markers
   * enclose is the listing with `$$`, `$&`, `` $` `` and `$'` expanded.
   */
  lemma AsWrittenExpands(file: string, mk: Markers, html: string, i: nat, j: nat)
    requires CommentMarkers(mk) && Region(file, mk) == Some((i, j))
    ensures SpliceAsWritten(file, mk, html) == Splice(file, mk, Substitute(html, file[i..j], file[..i], file[j..]))
  {
    var m, b, a := file[i..j], file[..i], file[j..];
    var x := Substitute(html, m, b, a);
    var pre, post := ReplacementParts(mk, html);
    var pre', post' := ReplacementParts(mk, x);
    SubstituteSplit(pre, html + post, m, b, a);
    SubstituteSuffix(html, post, m, b, a);
    SpliceAt(file, mk, html, i, j);
  }

  /** Without `$` in the listing the source's replace is a literal splice. */
  lemma AsWrittenAgrees(file: string, mk: Markers, html: string)
    requires CommentMarkers(mk) && '$' !in html
    ensures SpliceAsWritten(file, mk, html) == Splice(file, mk, html)
  {
    if Region(file, mk).Some? {
      var (i, j) := Region(file, mk).value;
      AsWrittenExpands(file, mk, html, i, j);
      SubstituteLiteral(html, file[i..j], file[..i], file[j..]);
    }
  }

  /**
   * A venue such as "Cash $$ Bar" loses a dollar sign: on every page with a
   * listing region, `injectShows` as written stores the listing "$$" as "$".
   */
  lemma AsWrittenDropsDollar(file: string)
    requires Region(file, ShowsMarkers).Some?
    ensures InjectShowsAsWritten(file, "$$") == InjectShows(file, "$")
    ensures Content(InjectShowsAsWritten(file, "$$").value, ShowsMarkers) == Some(Framed("$"))
    ensures Content(InjectShows(file, "$$").value, ShowsMarkers) == Some(Framed("$$"))
  {
    var (i, j) := Region(file, ShowsMarkers).value;
    ShowsMarkersAreComments();
    AsWrittenExpands(file, ShowsMarkers, "$$", i, j);
    assert Substitute("$$", file[i..j], file[..i], file[j..]) == "$";
    SpliceThenRead(file, ShowsMarkers, "$");
    SpliceThenRead(file, ShowsMarkers, "$$");
  }
}
