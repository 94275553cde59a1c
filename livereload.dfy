/**
 * `injectLiveReload` in scripts/dev-server.mjs: the script that opens the
 * event stream is put just before the first `</body>`, or appended when the
 * page has none.
 */
module LiveReload {
  import opened Wrappers
  import opened JsStrings

  const BodyClose: string := "</body>"

  /** The path the snippet's `EventSource` connects to. */
  const StreamPath: string := "/__live_reload"

  /** Script text that `replace` inserts verbatim: it holds no `$`. */
  type ScriptText = s: string | '$' !in s witness ""

  /**
   * The JavaScript inside the injected element (it opens an `EventSource` on
   * the stream path and reloads the page on a `reload` message), kept opaque.
   */
  const ReloadScript: ScriptText

  /** The injected snippet: a newline, then the script element. */
  const Snippet: string := "\n<script>\n" + ReloadScript + "\n</script>"

  /** What goes before `</body>`: the snippet and a newline. */
  const Inserted: string := Snippet + "\n"

  /** Neither the snippet nor the closing tag after it holds a `$`. */
  lemma SnippetHasNoDollar()
    ensures '$' !in Inserted + BodyClose
  {
  }

  /** `injectLiveReload(html)`. */
  function InjectLiveReload(html: string): (r: string)
    ensures |r| == |html| + |Snippet| + (if Contains(html, BodyClose) then 1 else 0)
  {
    if Contains(html, BodyClose) then
      InsertedBeforeClose(html, IndexOf(html, BodyClose, 0).value);
      ReplaceFirst(html, BodyClose, Inserted + BodyClose)
    else
      html + Snippet
  }

  /** What `replace` produces when the first `</body>` is at `i`. */
  lemma InsertedBeforeClose(html: string, i: nat)
    requires IndexOf(html, BodyClose, 0) == Some(i)
    ensures ReplaceFirst(html, BodyClose, Inserted + BodyClose) == html[..i] + Inserted + html[i..]
  {
    SnippetHasNoDollar();
    ReplaceLiteral(html, BodyClose, Inserted + BodyClose, i);
    InsertBefore(html, BodyClose, Inserted, i);
  }

  /** `replace` with a template free of `$` puts the template in place of the first match. */
  lemma ReplaceLiteral(s: string, pat: string, repl: string, i: nat)
    requires IndexOf(s, pat, 0) == Some(i) && '$' !in repl
    ensures ReplaceFirst(s, pat, repl) == s[..i] + repl + s[i + |pat|..]
  {
    SubstituteLiteral(repl, pat, s[..i], s[i + |pat|..]);
  }

  /** Replacing a match of `pat` by `ins + pat` inserts `ins` just before it. */
  lemma InsertBefore(s: string, pat: string, ins: string, i: nat)
    requires OccursAt(s, pat, i)
    ensures s[..i] + (ins + pat) + s[i + |pat|..] == s[..i] + ins + s[i..]
  {
    assert s[i..] == s[i..i + |pat|] + s[i + |pat|..];
    assert s[i..i + |pat|] == pat;
  }

  // ---------------------------------------------------------------------
  // Properties
  // ---------------------------------------------------------------------

  /**
   * With a `</body>`, the snippet and a newline go immediately before the first
   * one and nothing else changes; without one, the snippet is appended.
   */
  lemma InjectPlacesSnippet(html: string)
    ensures match IndexOf(html, BodyClose, 0)
      case Some(i) => InjectLiveReload(html) == html[..i] + Inserted + html[i..]
      case None => InjectLiveReload(html) == html + Snippet
  {
    if Contains(html, BodyClose) {
      InsertedBeforeClose(html, IndexOf(html, BodyClose, 0).value);
    }
  }

  /**
   * Cutting the snippet and its newline back out of a page that had a
   * `</body>` gives the page as it was served from disk.
   */
  lemma InjectIsUndone(html: string, i: nat)
    requires IndexOf(html, BodyClose, 0) == Some(i)
    ensures var r := InjectLiveReload(html);
      r[i..i + |Inserted|] == Inserted && r[..i] + r[i + |Inserted|..] == html
  {
    InsertedBeforeClose(html, i);
    InsertUndone(html, i, Inserted);
  }

  /** Inserting `ins` at `i` and cutting it out again restores the text. */
  lemma InsertUndone(h: string, i: nat, ins: string)
    requires i <= |h|
    ensures var r := h[..i] + ins + h[i..];
      r[i..i + |ins|] == ins && r[..i] + r[i + |ins|..] == h
  {
    var r := h[..i] + ins + h[i..];
    assert r[..i] == h[..i];
    assert r[i + |ins|..] == h[i..];
    assert h[..i] + h[i..] == h;
  }

  /**
   * Only the first `</body>` is touched: the injected page still closes its
   * body right after the snippet.
   */
  lemma InjectKeepsClose(html: string)
    requires Contains(html, BodyClose)
    ensures var i := IndexOf(html, BodyClose, 0).value;
      OccursAt(InjectLiveReload(html), BodyClose, i + |Inserted|)
  {
    InjectPlacesSnippet(html);
    var i := IndexOf(html, BodyClose, 0).value;
    var r := InjectLiveReload(html);
    assert r[i + |Inserted|..] == html[i..];
    forall k | 0 <= k < |BodyClose|
      ensures r[i + |Inserted| + k] == BodyClose[k]
    {
      assert r[i + |Inserted| + k] == r[i + |Inserted|..][k];
    }
  }
}
