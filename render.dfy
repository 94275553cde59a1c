/**
 * `renderShow` and the render step of scripts/build-shows.mjs: one HTML
 * fragment per record, text fields escaped, a Details action only for a link.
 */
module Render {
  import opened Wrappers
  import opened JsStrings
  import opened Escape
  import opened Shows

  const Months: seq<string> := ["JAN", "FEB", "MAR", "APR", "MAY", "JUN", "JUL", "AUG", "SEP", "OCT", "NOV", "DEC"]

  /** `show.link ? ... : ''`: an absent or empty link is falsy. */
  predicate HasLink(s: Show) {
    s.link.Some? && s.link.value != ""
  }

  // The fixed text around each field; a fragment's line is indent, prefix, field, suffix.
  function DatePrefix(indent: string): string { indent + "<div class=\"show-item\" data-date=\"" }
  function MonthPrefix(indent: string): string { indent + "        <span class=\"month\">" }
  function DayPrefix(indent: string): string { indent + "        <span class=\"day\">" }
  function VenuePrefix(indent: string): string { indent + "        <h3 class=\"venue\">" }
  function LocationPrefix(indent: string): string { indent + "        <p class=\"location\">" }
  function LinkPrefix(indent: string): string { indent + "        <a href=\"" }
  const DateSuffix := "\">"
  const SpanSuffix := "</span>"
  const VenueSuffix := "</h3>"
  const LocationSuffix := "</p>"
  const LinkSuffix := "\" class=\"btn\">Details</a>"

  /** The three lines of the Details action. */
  function ActionLines(show: Show, indent: string): seq<string>
    requires HasLink(show)
  {
    [ indent + "    <div class=\"show-action\">", LinkLine(show, indent), indent + "    </div>" ]
  }

  function LinkLine(show: Show, indent: string): string
    requires HasLink(show)
  {
    LinkPrefix(indent) + EscapeHtml(show.link.value) + LinkSuffix
  }

  /** The Details action entry; it begins with a newline of its own. */
  function Action(show: Show, indent: string): string
    requires HasLink(show)
  {
    var a := ActionLines(show, indent);
    "\n" + a[0] + "\n" + a[1] + "\n" + a[2]
  }

  // The lines that carry a field.
  function DateLine(show: Show, indent: string): string { DatePrefix(indent) + show.date + DateSuffix }
  function MonthLine(show: Show, indent: string): string
    requires 1 <= show.month <= 12
  {
    MonthPrefix(indent) + Months[show.month - 1] + SpanSuffix
  }
  function DayLine(show: Show, indent: string): string { DayPrefix(indent) + NatToString(show.day) + SpanSuffix }
  function VenueLine(show: Show, indent: string): string { VenuePrefix(indent) + EscapeHtml(show.venue) + VenueSuffix }
  function LocationLine(show: Show, indent: string): string
  {
    LocationPrefix(indent) + EscapeHtml(show.location) + LocationSuffix
  }

  /** The entries before the action. */
  function Head(show: Show, indent: string): seq<string>
    requires 1 <= show.month <= 12
  {
    [ DateLine(show, indent),
      indent + "    <div class=\"show-date\">",
      MonthLine(show, indent),
      DayLine(show, indent),
      indent + "    </div>",
      indent + "    <div class=\"show-details\">",
      VenueLine(show, indent),
      LocationLine(show, indent),
      indent + "    </div>" ]
  }

  /** The array `renderShow` joins, after `.filter(Boolean)` has dropped the missing action. */
  function Entries(show: Show, indent: string): seq<string>
    requires 1 <= show.month <= 12
  {
    Head(show, indent) + (if HasLink(show) then [Action(show, indent)] else []) + [indent + "</div>"]
  }

  /** `renderShow(show, indent)`; the caller passes parsed records, whose month is in 1..12. */
  function RenderShow(show: Show, indent: string): string
    requires 1 <= show.month <= 12
  {
    Join(Entries(show, indent), "\n")
  }

  /** `shows.map(show => renderShow(show, indent)).join('\n\n')`. */
  function RenderAll(shows: seq<Show>, indent: string): string
    requires forall i :: 0 <= i < |shows| ==> 1 <= shows[i].month <= 12
  {
    Join(RenderEach(shows, indent), "\n\n")
  }

  function RenderEach(shows: seq<Show>, indent: string): (r: seq<string>)
    requires forall i :: 0 <= i < |shows| ==> 1 <= shows[i].month <= 12
    ensures |r| == |shows|
    ensures forall i :: 0 <= i < |shows| ==> r[i] == RenderShow(shows[i], indent)
  {
    if |shows| == 0 then [] else [RenderShow(shows[0], indent)] + RenderEach(shows[1..], indent)
  }

  // ---------------------------------------------------------------------
  // Reading a fragment back
  // ---------------------------------------------------------------------

  /** What a visitor sees of a show: its date, month, day, venue, location and Details link. */
  datatype Listing = Listing(date: string, month: nat, day: nat, venue: string, location: string, link: Option<string>)

  /** The position, counted from 1, of a month name in the month table from index `i` on. */
  function MonthNumber(name: string, i: nat): (r: Option<nat>)
    requires i <= |Months|
    ensures r.Some? ==> i < r.value <= |Months| && Months[r.value - 1] == name
    ensures r.None? ==> forall j :: i <= j < |Months| ==> Months[j] != name
    decreases |Months| - i
  {
    if i == |Months| then None
    else if Months[i] == name then Some(i + 1)
    else MonthNumber(name, i + 1)
  }

  /** The month names are distinct, so the label of month `m` reads back as `m`. */
  lemma MonthNumberOf(m: nat)
    requires 1 <= m <= 12
    ensures MonthNumber(Months[m - 1], 0) == Some(m)
  {
    var r := MonthNumber(Months[m - 1], 0);
    assert forall a, b :: 0 <= a < b < |Months| ==> Months[a] != Months[b];
    assert r.Some?;
  }

  /** The physical lines of a fragment: the action entry spans an empty line and three lines. */
  function Lines(show: Show, indent: string): seq<string>
    requires 1 <= show.month <= 12
  {
    Head(show, indent) + (if HasLink(show) then [""] + ActionLines(show, indent) else []) + [indent + "</div>"]
  }

  /** An empty line followed by three lines joins to the action entry. */
  lemma JoinFour(a: seq<string>)
    requires |a| == 3
    ensures Join([""] + a, "\n") == "\n" + a[0] + "\n" + a[1] + "\n" + a[2]
  {
    var b := [""] + a;
    assert b[1..] == a && a[1..][1..] == [a[2]];
    assert Join(a[1..], "\n") == a[1] + "\n" + a[2];
    assert Join(a, "\n") == a[0] + "\n" + (a[1] + "\n" + a[2]);
  }

  /** An entry made of an empty line and three lines joins like those four lines. */
  lemma JoinEmbedded(pre: seq<string>, a: seq<string>, last: string)
    requires |pre| >= 1 && |a| == 3
    ensures Join(pre + ["\n" + a[0] + "\n" + a[1] + "\n" + a[2]] + [last], "\n")
         == Join(pre + ([""] + a) + [last], "\n")
  {
    var e := "\n" + a[0] + "\n" + a[1] + "\n" + a[2];
    var b := [""] + a;
    JoinFour(a);
    calc {
      Join(pre + [e] + [last], "\n");
      { JoinAppend(pre + [e], [last], "\n"); }
      Join(pre + [e], "\n") + "\n" + last;
      { JoinAppend(pre, [e], "\n"); }
      Join(pre, "\n") + "\n" + e + "\n" + last;
      { JoinAppend(pre, b, "\n"); }
      Join(pre + b, "\n") + "\n" + last;
      { JoinAppend(pre + b, [last], "\n"); }
      Join(pre + b + [last], "\n");
    }
  }

  lemma JoinLines(show: Show, indent: string)
    requires 1 <= show.month <= 12
    ensures RenderShow(show, indent) == Join(Lines(show, indent), "\n")
  {
    if HasLink(show) {
      JoinEmbedded(Head(show, indent), ActionLines(show, indent), indent + "</div>");
    }
  }

  /** Reads the visible fields from the lines of a fragment. */
  function ReadLines(ls: seq<string>, indent: string): Option<Listing>
  {
    if |ls| != 10 && |ls| != 14 then None
    else
      var date := Between(ls[0], DatePrefix(indent), DateSuffix);
      var month := Between(ls[2], MonthPrefix(indent), SpanSuffix);
      var day := Between(ls[3], DayPrefix(indent), SpanSuffix);
      var venue := Between(ls[6], VenuePrefix(indent), VenueSuffix);
      var location := Between(ls[7], LocationPrefix(indent), LocationSuffix);
      var link := if |ls| == 14 then Between(ls[11], LinkPrefix(indent), LinkSuffix) else None;
      if date.None? || month.None? || day.None? || venue.None? || location.None? || (|ls| == 14 && link.None?) then None
      else if MonthNumber(month.value, 0).None? || !AllDigits(day.value) then None
      else
        Some(Listing(date.value, MonthNumber(month.value, 0).value, DigitsValue(day.value),
          Unescape(venue.value), Unescape(location.value),
          if |ls| == 14 then Some(Unescape(link.value)) else None))
  }

  /** Reads a fragment back: its lines, then the fields those lines carry. */
  function ReadShow(html: string, indent: string): Option<Listing>
  {
    ReadLines(Split(html, '\n'), indent)
  }

  /** A record's fields are single lines. */
  predicate SingleLine(s: Show) {
    '\n' !in s.date && '\n' !in s.venue && '\n' !in s.location && (s.link.Some? ==> '\n' !in s.link.value)
  }

  /** A line built from single-line pieces is a single line. */
  lemma NoNewline3(a: string, b: string, c: string)
    requires '\n' !in a && '\n' !in b && '\n' !in c
    ensures '\n' !in a + b + c
  {
  }

  lemma MonthsAreSingle(m: nat)
    requires m < |Months|
    ensures '\n' !in Months[m]
  {
  }

  lemma DayIsSingle(show: Show, indent: string)
    requires 1 <= show.month <= 12 && '\n' !in indent
    ensures '\n' !in DayLine(show, indent)
  {
    var day := NatToString(show.day);
    assert forall i :: 0 <= i < |day| ==> IsDigit(day[i]);
    NoNewline3(DayPrefix(indent), day, SpanSuffix);
  }

  lemma TextIsSingle(show: Show, indent: string)
    requires 1 <= show.month <= 12 && SingleLine(show) && '\n' !in indent
    ensures '\n' !in VenueLine(show, indent) && '\n' !in LocationLine(show, indent)
  {
    EscapeHtmlNoNewline(show.venue);
    NoNewline3(VenuePrefix(indent), EscapeHtml(show.venue), VenueSuffix);
    EscapeHtmlNoNewline(show.location);
    NoNewline3(LocationPrefix(indent), EscapeHtml(show.location), LocationSuffix);
  }

  lemma DateIsSingle(show: Show, indent: string)
    requires 1 <= show.month <= 12 && SingleLine(show) && '\n' !in indent
    ensures '\n' !in DateLine(show, indent) && '\n' !in MonthLine(show, indent)
  {
    NoNewline3(DatePrefix(indent), show.date, DateSuffix);
    MonthsAreSingle(show.month - 1);
    NoNewline3(MonthPrefix(indent), Months[show.month - 1], SpanSuffix);
  }

  lemma FixedAreSingle(indent: string)
    requires '\n' !in indent
    ensures '\n' !in indent + "    <div class=\"show-date\">" && '\n' !in indent + "    </div>"
    ensures '\n' !in indent + "    <div class=\"show-details\">"
  {
    NoNewline3(indent, "    <div class=\"show-date\">", "");
    NoNewline3(indent, "    </div>", "");
    NoNewline3(indent, "    <div class=\"show-details\">", "");
  }

  lemma HeadIsSingle(show: Show, indent: string)
    requires 1 <= show.month <= 12 && SingleLine(show) && '\n' !in indent
    ensures forall i :: 0 <= i < |Head(show, indent)| ==> '\n' !in Head(show, indent)[i]
  {
    DateIsSingle(show, indent);
    FixedAreSingle(indent);
    DayIsSingle(show, indent);
    TextIsSingle(show, indent);
  }

  lemma ActionIsSingle(show: Show, indent: string)
    requires HasLink(show) && SingleLine(show) && '\n' !in indent
    ensures forall i :: 0 <= i < 3 ==> '\n' !in ActionLines(show, indent)[i]
  {
    EscapeHtmlNoNewline(show.link.value);
    NoNewline3(LinkPrefix(indent), EscapeHtml(show.link.value), LinkSuffix);
  }

  lemma LinesAreSingle(show: Show, indent: string)
    requires 1 <= show.month <= 12 && SingleLine(show) && '\n' !in indent
    ensures forall i :: 0 <= i < |Lines(show, indent)| ==> '\n' !in Lines(show, indent)[i]
  {
    HeadIsSingle(show, indent);
    if HasLink(show) { ActionIsSingle(show, indent); }
  }

  /** Each field of the head reads back from its own line. */
  lemma DateFields(show: Show, indent: string)
    requires 1 <= show.month <= 12
    ensures Between(DateLine(show, indent), DatePrefix(indent), DateSuffix) == Some(show.date)
    ensures Between(MonthLine(show, indent), MonthPrefix(indent), SpanSuffix) == Some(Months[show.month - 1])
    ensures Between(DayLine(show, indent), DayPrefix(indent), SpanSuffix) == Some(NatToString(show.day))
  {
    BetweenConcat(DatePrefix(indent), show.date, DateSuffix);
    BetweenConcat(MonthPrefix(indent), Months[show.month - 1], SpanSuffix);
    BetweenConcat(DayPrefix(indent), NatToString(show.day), SpanSuffix);
  }

  lemma TextFields(show: Show, indent: string)
    requires 1 <= show.month <= 12
    ensures Between(VenueLine(show, indent), VenuePrefix(indent), VenueSuffix) == Some(EscapeHtml(show.venue))
    ensures Between(LocationLine(show, indent), LocationPrefix(indent), LocationSuffix) == Some(EscapeHtml(show.location))
  {
    BetweenConcat(VenuePrefix(indent), EscapeHtml(show.venue), VenueSuffix);
    BetweenConcat(LocationPrefix(indent), EscapeHtml(show.location), LocationSuffix);
  }

  /** Where the field lines sit among the lines of a fragment. */
  lemma LinesAt(show: Show, indent: string)
    requires 1 <= show.month <= 12
    ensures |Lines(show, indent)| == if HasLink(show) then 14 else 10
    ensures Lines(show, indent)[0] == DateLine(show, indent) && Lines(show, indent)[2] == MonthLine(show, indent)
    ensures Lines(show, indent)[3] == DayLine(show, indent) && Lines(show, indent)[6] == VenueLine(show, indent)
    ensures Lines(show, indent)[7] == LocationLine(show, indent)
    ensures HasLink(show) ==> Lines(show, indent)[11] == LinkLine(show, indent)
  {
    var ls, h := Lines(show, indent), Head(show, indent);
    HeadAt(show, indent);
    assert ls[..9] == h;
    assert ls[0] == h[0] && ls[2] == h[2] && ls[3] == h[3] && ls[6] == h[6] && ls[7] == h[7];
    if HasLink(show) {
      assert ls[11] == ActionLines(show, indent)[1];
    }
  }

  lemma HeadAt(show: Show, indent: string)
    requires 1 <= show.month <= 12
    ensures |Head(show, indent)| == 9
    ensures Head(show, indent)[0] == DateLine(show, indent) && Head(show, indent)[2] == MonthLine(show, indent)
    ensures Head(show, indent)[3] == DayLine(show, indent) && Head(show, indent)[6] == VenueLine(show, indent)
    ensures Head(show, indent)[7] == LocationLine(show, indent)
  {
  }

  /** Lines holding a record's field lines at their places read back as what a visitor sees of it. */
  lemma ReadLinesAt(ls: seq<string>, show: Show, indent: string)
    requires 1 <= show.month <= 12
    requires |ls| == if HasLink(show) then 14 else 10
    requires ls[0] == DateLine(show, indent) && ls[2] == MonthLine(show, indent) && ls[3] == DayLine(show, indent)
    requires ls[6] == VenueLine(show, indent) && ls[7] == LocationLine(show, indent)
    requires HasLink(show) ==> ls[11] == LinkLine(show, indent)
    ensures ReadLines(ls, indent)
      == Some(Listing(show.date, show.month, show.day, show.venue, show.location,
                      if HasLink(show) then show.link else None))
  {
    DateFields(show, indent);
    TextFields(show, indent);
    EscapeHtmlRoundTrip(show.venue);
    EscapeHtmlRoundTrip(show.location);
    MonthNumberOf(show.month);
    if HasLink(show) {
      BetweenConcat(LinkPrefix(indent), EscapeHtml(show.link.value), LinkSuffix);
      EscapeHtmlRoundTrip(show.link.value);
    }
  }

  lemma ReadLinesOf(show: Show, indent: string)
    requires 1 <= show.month <= 12
    ensures ReadLines(Lines(show, indent), indent)
      == Some(Listing(show.date, show.month, show.day, show.venue, show.location,
                      if HasLink(show) then show.link else None))
  {
    LinesAt(show, indent);
    ReadLinesAt(Lines(show, indent), show, indent);
  }

  /**
   * Rendering loses nothing a visitor sees: the month label is `Months[month - 1]`,
   * the day label reads back as the day, venue, location and link are present only
   * escaped and decode to themselves, and the Details action is there exactly when
   * the record has a (non-empty) link.
   */
  lemma RenderShowReadBack(show: Show, indent: string)
    requires 1 <= show.month <= 12 && SingleLine(show) && '\n' !in indent
    ensures ReadShow(RenderShow(show, indent), indent)
      == Some(Listing(show.date, show.month, show.day, show.venue, show.location,
                      if HasLink(show) then show.link else None))
  {
    JoinLines(show, indent);
    LinesAreSingle(show, indent);
    SplitJoin(Lines(show, indent), '\n');
    ReadLinesOf(show, indent);
  }

  // ---------------------------------------------------------------------
  // Markup
  // ---------------------------------------------------------------------

  /** A date of the parsed shape has no `<`. */
  lemma DateHasNoLt(d: string)
    requires DateShape(d)
    ensures LtOpensTag(d)
  {
    forall k | 0 <= k < |d| ensures d[k] != '<' {
      if k < 4 { assert d[..4][k] == d[k]; }
      else if 5 <= k < 7 { assert d[5..7][k - 5] == d[k]; }
      else if 8 <= k { assert d[8..][k - 8] == d[k]; }
    }
  }

  /** An indent followed by a fixed piece of markup. */
  lemma IndentedOpensTags(indent: string, lit: string)
    requires '<' !in indent && LtOpensTag(lit)
    ensures LtOpensTag(indent + lit)
  {
    LtOpensTagConcat(indent, lit);
  }

  lemma HeadFixedTags(indent: string)
    requires '<' !in indent
    ensures LtOpensTag(DatePrefix(indent)) && LtOpensTag(MonthPrefix(indent)) && LtOpensTag(DayPrefix(indent))
    ensures LtOpensTag(indent + "    <div class=\"show-date\">") && LtOpensTag(indent + "    </div>")
  {
    DatePrefixTags(indent);
    SpanPrefixTags(indent);
    IndentedOpensTags(indent, "    <div class=\"show-date\">");
    IndentedOpensTags(indent, "    </div>");
  }

  lemma DatePrefixTags(indent: string)
    requires '<' !in indent
    ensures LtOpensTag(DatePrefix(indent))
  {
    IndentedOpensTags(indent, "<div class=\"show-item\" data-date=\"");
  }

  lemma SpanPrefixTags(indent: string)
    requires '<' !in indent
    ensures LtOpensTag(MonthPrefix(indent)) && LtOpensTag(DayPrefix(indent))
  {
    IndentedOpensTags(indent, "        <span class=\"month\">");
    IndentedOpensTags(indent, "        <span class=\"day\">");
  }

  lemma DetailsPrefixTags(indent: string)
    requires '<' !in indent
    ensures LtOpensTag(VenuePrefix(indent)) && LtOpensTag(LocationPrefix(indent)) && LtOpensTag(LinkPrefix(indent))
  {
    IndentedOpensTags(indent, "        <h3 class=\"venue\">");
    IndentedOpensTags(indent, "        <p class=\"location\">");
    IndentedOpensTags(indent, "        <a href=\"");
  }

  lemma DivTags(indent: string)
    requires '<' !in indent
    ensures LtOpensTag(indent + "    <div class=\"show-details\">") && LtOpensTag(indent + "    <div class=\"show-action\">")
    ensures LtOpensTag(indent + "</div>")
  {
    IndentedOpensTags(indent, "    <div class=\"show-details\">");
    IndentedOpensTags(indent, "    <div class=\"show-action\">");
    IndentedOpensTags(indent, "</div>");
  }

  lemma SuffixTags()
    ensures LtOpensTag(DateSuffix) && LtOpensTag(SpanSuffix) && LtOpensTag(VenueSuffix)
    ensures LtOpensTag(LocationSuffix) && LtOpensTag(LinkSuffix) && LtOpensTag("\n") && LtOpensTag("\n\n")
  {
  }

  /** A line made of markup pieces. */
  lemma LineTags(a: string, b: string, c: string)
    requires LtOpensTag(a) && LtOpensTag(b) && LtOpensTag(c)
    ensures LtOpensTag(a + b + c)
  {
    LtOpensTagConcat(a, b);
    LtOpensTagConcat(a + b, c);
  }

  lemma {:induction false} JoinTags(xs: seq<string>, sep: string)
    requires LtOpensTag(sep)
    requires forall i :: 0 <= i < |xs| ==> LtOpensTag(xs[i])
    ensures LtOpensTag(Join(xs, sep))
  {
    if |xs| > 1 {
      JoinTags(xs[1..], sep);
      LineTags(xs[0], sep, Join(xs[1..], sep));
    }
  }

  lemma DateTags(show: Show, indent: string)
    requires 1 <= show.month <= 12 && DateShape(show.date) && '<' !in indent
    ensures LtOpensTag(DateLine(show, indent)) && LtOpensTag(MonthLine(show, indent)) && LtOpensTag(DayLine(show, indent))
  {
    HeadFixedTags(indent);
    SuffixTags();
    DateHasNoLt(show.date);
    LineTags(DatePrefix(indent), show.date, DateSuffix);
    assert LtOpensTag(Months[show.month - 1]);
    LineTags(MonthPrefix(indent), Months[show.month - 1], SpanSuffix);
    var day := NatToString(show.day);
    assert forall k :: 0 <= k < |day| ==> IsDigit(day[k]);
    LineTags(DayPrefix(indent), day, SpanSuffix);
  }

  lemma TextTags(show: Show, indent: string)
    requires 1 <= show.month <= 12 && '<' !in indent
    ensures LtOpensTag(VenueLine(show, indent)) && LtOpensTag(LocationLine(show, indent))
  {
    DetailsPrefixTags(indent);
    SuffixTags();
    EscapeHtmlOpensNoTag(show.venue);
    LineTags(VenuePrefix(indent), EscapeHtml(show.venue), VenueSuffix);
    EscapeHtmlOpensNoTag(show.location);
    LineTags(LocationPrefix(indent), EscapeHtml(show.location), LocationSuffix);
  }

  lemma HeadTags(show: Show, indent: string)
    requires 1 <= show.month <= 12 && DateShape(show.date) && '<' !in indent
    ensures forall i :: 0 <= i < |Head(show, indent)| ==> LtOpensTag(Head(show, indent)[i])
  {
    HeadFixedTags(indent);
    DivTags(indent);
    DateTags(show, indent);
    TextTags(show, indent);
  }

  lemma ActionTags(show: Show, indent: string)
    requires HasLink(show) && '<' !in indent
    ensures LtOpensTag(Action(show, indent))
  {
    var a := ActionLines(show, indent);
    DetailsPrefixTags(indent);
    DivTags(indent);
    SuffixTags();
    EscapeHtmlOpensNoTag(show.link.value);
    LineTags(LinkPrefix(indent), EscapeHtml(show.link.value), LinkSuffix);
    LineTags("\n", a[0], "\n");
    LineTags("\n" + a[0] + "\n", a[1], "\n");
    LtOpensTagConcat("\n" + a[0] + "\n" + a[1] + "\n", a[2]);
  }

  /** A rendered fragment opens no comment: each of its `<` starts a tag. */
  lemma RenderShowTags(show: Show, indent: string)
    requires 1 <= show.month <= 12 && DateShape(show.date) && '<' !in indent
    ensures LtOpensTag(RenderShow(show, indent))
  {
    var e := Entries(show, indent);
    HeadTags(show, indent);
    DivTags(indent);
    SuffixTags();
    if HasLink(show) { ActionTags(show, indent); }
    assert forall i :: 0 <= i < |e| ==> LtOpensTag(e[i]);
    JoinTags(e, "\n");
  }

  /** So does the listing of all shows. */
  lemma RenderAllTags(shows: seq<Show>, indent: string)
    requires forall i :: 0 <= i < |shows| ==> 1 <= shows[i].month <= 12 && DateShape(shows[i].date)
    requires '<' !in indent
    ensures LtOpensTag(RenderAll(shows, indent))
  {
    var r := RenderEach(shows, indent);
    forall i | 0 <= i < |r| ensures LtOpensTag(r[i]) {
      RenderShowTags(shows[i], indent);
    }
    SuffixTags();
    JoinTags(r, "\n\n");
  }
}
