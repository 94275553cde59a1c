/**
 * The show-list parser of scripts/build-shows.mjs: the text is cut into blocks
 * of non-blank lines, each block into a show record whose date is validated.
 */
module Shows {
  import opened Wrappers
  import opened JsStrings

  /** One show, as `parseShows` returns it; `link` is absent for a three-line block. */
  datatype Show = Show(
    date: string, year: nat, month: nat, day: nat,
    venue: string, location: string, link: Option<string>)

  /** The two errors `parseShows` throws; `block` is the 1-based block number. */
  datatype ParseError =
    | BadLineCount(block: nat, got: nat)
    | BadDate(date: string, block: nat)

  // ---------------------------------------------------------------------
  // Blocks
  // ---------------------------------------------------------------------

  /**
   * Cutting the lines of the text into blocks: maximal runs of non-blank lines,
   * which is what splitting the trimmed text at `\n\s*\n` yields. `cur` is the
   * run read so far.
   */
  function GroupBlocks(lines: seq<string>, cur: seq<string>): (r: seq<seq<string>>)
    requires forall i :: 0 <= i < |cur| ==> !IsBlank(cur[i])
    ensures forall b :: b in r ==> b != []
    ensures forall b, l :: b in r && l in b ==> !IsBlank(l)
    ensures Flatten(r) == cur + NonBlank(lines)
  {
    if |lines| == 0 then
      if cur == [] then [] else [cur]
    else if IsBlank(lines[0]) then
      var rest := GroupBlocks(lines[1..], []);
      assert NonBlank(lines) == NonBlank(lines[1..]);
      if cur == [] then rest
      else
        assert Flatten([cur] + rest) == cur + Flatten(rest) by { assert ([cur] + rest)[1..] == rest; }
        [cur] + rest
    else
      var r := GroupBlocks(lines[1..], cur + [lines[0]]);
      assert NonBlank(lines) == [lines[0]] + NonBlank(lines[1..]);
      r
  }

  function Flatten(bs: seq<seq<string>>): seq<string>
  {
    if |bs| == 0 then [] else bs[0] + Flatten(bs[1..])
  }

  /** The non-blank lines, in order. */
  function NonBlank(lines: seq<string>): seq<string>
  {
    if |lines| == 0 then []
    else if IsBlank(lines[0]) then NonBlank(lines[1..])
    else [lines[0]] + NonBlank(lines[1..])
  }

  /** A run of non-blank lines with no blank line in it is one block. */
  lemma GroupBlocksRun(ls: seq<string>)
    requires ls != [] && forall i :: 0 <= i < |ls| ==> !IsBlank(ls[i])
    ensures GroupBlocks(ls, []) == [ls]
  {
    GroupRunFrom(ls, []);
    assert [] + ls == ls;
  }

  lemma {:induction false} GroupRunFrom(ls: seq<string>, cur: seq<string>)
    requires forall i :: 0 <= i < |cur| ==> !IsBlank(cur[i])
    requires forall i :: 0 <= i < |ls| ==> !IsBlank(ls[i])
    requires cur + ls != []
    ensures GroupBlocks(ls, cur) == [cur + ls]
    decreases |ls|
  {
    if |ls| == 0 {
      assert cur + ls == cur;
    } else {
      assert !IsBlank(ls[0]);
      var next := cur + [ls[0]];
      GroupRunFrom(ls[1..], next);
      assert GroupBlocks(ls, cur) == GroupBlocks(ls[1..], next);
      assert next + ls[1..] == cur + ls;
    }
  }

  /** A blank line ends a block: the lines on either side are grouped apart. */
  lemma GroupBlocksBlank(xs: seq<string>, bl: string, ys: seq<string>)
    requires IsBlank(bl)
    ensures GroupBlocks(xs + [bl] + ys, []) == GroupBlocks(xs, []) + GroupBlocks(ys, [])
  {
    GroupBlankFrom(xs, bl, ys, []);
  }

  lemma {:induction false} GroupBlankFrom(xs: seq<string>, bl: string, ys: seq<string>, cur: seq<string>)
    requires forall i :: 0 <= i < |cur| ==> !IsBlank(cur[i])
    requires IsBlank(bl)
    ensures GroupBlocks(xs + [bl] + ys, cur) == GroupBlocks(xs, cur) + GroupBlocks(ys, [])
    decreases |xs|
  {
    var t := xs + [bl] + ys;
    if |xs| == 0 {
      assert t[0] == bl && t[1..] == ys;
    } else {
      assert t[0] == xs[0] && t[1..] == xs[1..] + [bl] + ys;
      if IsBlank(xs[0]) {
        GroupBlankFrom(xs[1..], bl, ys, []);
        var a, b := GroupBlocks(xs[1..], []), GroupBlocks(ys, []);
        if cur != [] {
          assert [cur] + (a + b) == ([cur] + a) + b;
        }
      } else {
        GroupBlankFrom(xs[1..], bl, ys, cur + [xs[0]]);
      }
    }
  }

  /** The blocks of a text: its `\n`-separated lines, grouped. */
  function Blocks(text: string): seq<seq<string>>
  {
    GroupBlocks(Split(text, '\n'), [])
  }

  // ---------------------------------------------------------------------
  // One block
  // ---------------------------------------------------------------------

  /** `lines.map(trim).filter(Boolean)`. */
  function CleanLines(block: seq<string>): (r: seq<string>)
    ensures |r| <= |block|
    ensures forall i :: 0 <= i < |r| ==> r[i] != [] && !IsSpace(r[i][0]) && !IsSpace(r[i][|r[i]| - 1])
  {
    if |block| == 0 then []
    else
      var t := Trim(block[0]);
      if t == [] then CleanLines(block[1..]) else [t] + CleanLines(block[1..])
  }

  /** The kept lines are the block's non-blank lines, in order, each trimmed. */
  lemma {:induction false} CleanLinesTrimsNonBlank(block: seq<string>)
    ensures var r := CleanLines(block);
      |r| == |NonBlank(block)| && forall k :: 0 <= k < |r| ==> r[k] == Trim(NonBlank(block)[k])
    decreases |block|
  {
    if |block| > 0 {
      CleanLinesTrimsNonBlank(block[1..]);
      if IsBlank(block[0]) {
        assert NonBlank(block) == NonBlank(block[1..]);
      } else {
        assert NonBlank(block) == [block[0]] + NonBlank(block[1..]);
      }
    }
  }

  /** `/^\d{4}-\d{2}-\d{2}$/`. */
  predicate DateShape(d: string) {
    |d| == 10 && AllDigits(d[..4]) && d[4] == '-' && AllDigits(d[5..7]) && d[7] == '-' && AllDigits(d[8..])
  }

  function YearOf(d: string): nat requires DateShape(d) { DigitsValue(d[..4]) }
  function MonthOf(d: string): nat requires DateShape(d) { DigitsValue(d[5..7]) }
  function DayOf(d: string): nat requires DateShape(d) { DigitsValue(d[8..]) }

  /** The dates the parser accepts: the shape, a month in 1..12 and a day in 1..31; month lengths are not checked. */
  predicate ValidDate(d: string) {
    DateShape(d) && 1 <= MonthOf(d) <= 12 && 1 <= DayOf(d) <= 31
  }

  /** The record a parsed block yields: fields are the block's own lines, the numbers its date's. */
  predicate WellFormed(s: Show) {
    ValidDate(s.date) && s.year == YearOf(s.date) && s.month == MonthOf(s.date) && s.day == DayOf(s.date)
  }

  /** The callback `parseShows` maps over the blocks, for the block at 0-based `index`. */
  function ParseBlock(block: seq<string>, index: nat): Result<Show, ParseError>
  {
    var lines := CleanLines(block);
    if |lines| < 3 || |lines| > 4 then
      Err(BadLineCount(index + 1, |lines|))
    else
      var date := lines[0];
      if !DateShape(date) then
        Err(BadDate(date, index + 1))
      else
        var year, month, day := YearOf(date), MonthOf(date), DayOf(date);
        if month == 0 || month < 1 || month > 12 || day == 0 || day < 1 || day > 31 then
          Err(BadDate(date, index + 1))
        else
          Ok(Show(date, year, month, day, lines[1], lines[2], if |lines| == 4 then Some(lines[3]) else None))
  }

  /**
   * A block is accepted exactly when it has 3 or 4 non-blank lines and its first
   * is a valid date; the record's fields are those lines, unchanged, and `link` is
   * absent for three lines. A rejected block is reported by its 1-based number.
   */
  lemma ParseBlockSpec(block: seq<string>, index: nat)
    ensures var r, ls := ParseBlock(block, index), CleanLines(block);
      && (r.Ok? <==> 3 <= |ls| <= 4 && ValidDate(ls[0]))
      && (!(3 <= |ls| <= 4) ==> r == Err(BadLineCount(index + 1, |ls|)))
      && (3 <= |ls| <= 4 && !ValidDate(ls[0]) ==> r == Err(BadDate(ls[0], index + 1)))
      && (r.Ok? ==>
            && WellFormed(r.value)
            && r.value.date == ls[0] && r.value.venue == ls[1] && r.value.location == ls[2]
            && r.value.link == (if |ls| == 4 then Some(ls[3]) else None))
  {
  }

  // ---------------------------------------------------------------------
  // All blocks
  // ---------------------------------------------------------------------

  /** Element `k` is the first element from `i` on that `f` rejects. */
  predicate FirstFailure<A, B, E>(xs: seq<A>, f: (A, nat) -> Result<B, E>, i: nat, k: nat) {
    i <= k < |xs| && f(xs[k], k).Err?
    && forall j :: i <= j < k ==> f(xs[j], j).Ok?
  }

  /**
   * `xs.map(f)` from element `i` on, where `f` gets the element and its index and
   * may throw: the first throw ends the whole map.
   */
  function MapOrThrow<A, B, E>(xs: seq<A>, f: (A, nat) -> Result<B, E>, i: nat): Result<seq<B>, E>
    requires i <= |xs|
    decreases |xs| - i
  {
    if i == |xs| then Ok([])
    else
      match f(xs[i], i)
      case Err(e) => Err(e)
      case Ok(y) =>
        match MapOrThrow(xs, f, i + 1)
        case Err(e) => Err(e)
        case Ok(rest) => Ok([y] + rest)
  }

  /**
   * The map succeeds exactly when `f` accepts every element from `i` on; then it gives
   * one result per element, in order; otherwise it gives the first rejected element's error.
   */
  lemma {:induction false} MapOrThrowSpec<A, B, E>(xs: seq<A>, f: (A, nat) -> Result<B, E>, i: nat)
    requires i <= |xs|
    ensures var r := MapOrThrow(xs, f, i);
      && (r.Ok? <==> forall k :: i <= k < |xs| ==> f(xs[k], k).Ok?)
      && (r.Ok? ==> |r.value| == |xs| - i)
      && (r.Ok? ==> forall k :: i <= k < |xs| ==> f(xs[k], k) == Ok(r.value[k - i]))
      && (r.Err? ==> exists k: nat :: FirstFailure(xs, f, i, k) && f(xs[k], k) == Err(r.error))
    decreases |xs| - i
  {
    if i < |xs| {
      MapOrThrowSpec(xs, f, i + 1);
      var r := MapOrThrow(xs, f, i);
      if f(xs[i], i).Err? {
        assert FirstFailure(xs, f, i, i);
      } else if r.Err? {
        var k: nat :| FirstFailure(xs, f, i + 1, k) && f(xs[k], k) == Err(r.error);
        assert FirstFailure(xs, f, i, k);
      } else {
        var rest := MapOrThrow(xs, f, i + 1).value;
        assert r.value == [f(xs[i], i).value] + rest;
      }
    }
  }

  /** When element `k` is the first rejected one, the map reports exactly its error. */
  lemma FirstFailureReported<A, B, E>(xs: seq<A>, f: (A, nat) -> Result<B, E>, k: nat)
    requires FirstFailure(xs, f, 0, k)
    ensures MapOrThrow(xs, f, 0) == Err(f(xs[k], k).error)
  {
    MapOrThrowSpec(xs, f, 0);
    var r := MapOrThrow(xs, f, 0);
    var k': nat :| FirstFailure(xs, f, 0, k') && f(xs[k'], k') == Err(r.error);
  }

  /** `blocks.map(...)` with the block callback. */
  function ParseShows(blocks: seq<seq<string>>): Result<seq<Show>, ParseError>
  {
    MapOrThrow(blocks, ParseBlock, 0)
  }

  /** `parseShows(text)`: empty for a blank text, otherwise one record per block or the first block's error. */
  function ParseText(text: string): Result<seq<Show>, ParseError>
  {
    if Trim(text) == [] then Ok([]) else ParseShows(Blocks(text))
  }

  // ---------------------------------------------------------------------
  // Properties
  // ---------------------------------------------------------------------

  /** A blank text has no shows. */
  lemma ParseTextBlank(text: string)
    requires IsBlank(text)
    ensures ParseText(text) == Ok([])
  {
  }

  /** `s` is the record for a block: its first four non-blank lines, unchanged, and its date's numbers. */
  predicate RecordOf(block: seq<string>, s: Show) {
    var ls := CleanLines(block);
    && 3 <= |ls| <= 4
    && WellFormed(s) && s.date == ls[0] && s.venue == ls[1] && s.location == ls[2]
    && s.link == (if |ls| == 4 then Some(ls[3]) else None)
  }

  /** On success there is one record per block, in block order, each made from its own block. */
  lemma ParseShowsOnePerBlock(blocks: seq<seq<string>>)
    requires ParseShows(blocks).Ok?
    ensures |ParseShows(blocks).value| == |blocks|
    ensures forall k :: 0 <= k < |blocks| ==> RecordOf(blocks[k], ParseShows(blocks).value[k])
  {
    var r := ParseShowsAt(blocks);
    forall k | 0 <= k < |blocks|
      ensures RecordOf(blocks[k], r[k])
    {
      ParsedRecord(blocks[k], k);
    }
  }

  /** On success, record `k` is what the callback gave for block `k`. */
  lemma ParseShowsAt(blocks: seq<seq<string>>) returns (r: seq<Show>)
    requires ParseShows(blocks).Ok?
    ensures r == ParseShows(blocks).value && |r| == |blocks|
    ensures forall k :: 0 <= k < |blocks| ==> ParseBlock(blocks[k], k) == Ok(r[k])
  {
    MapOrThrowSpec(blocks, ParseBlock, 0);
    r := ParseShows(blocks).value;
    forall k | 0 <= k < |blocks| ensures ParseBlock(blocks[k], k) == Ok(r[k]) {
      assert ParseBlock(blocks[k], k) == Ok(r[k - 0]);
    }
  }

  /** An accepted block yields its record. */
  lemma ParsedRecord(block: seq<string>, index: nat)
    requires ParseBlock(block, index).Ok?
    ensures RecordOf(block, ParseBlock(block, index).value)
  {
    ParseBlockSpec(block, index);
  }

  /** A block with a wrong number of lines fails the whole parse with its own 1-based number, when the blocks before it are good. */
  lemma ParseShowsBadLineCount(blocks: seq<seq<string>>, k: nat)
    requires k < |blocks|
    requires forall j :: 0 <= j < k ==> ParseBlock(blocks[j], j).Ok?
    requires |CleanLines(blocks[k])| < 3 || |CleanLines(blocks[k])| > 4
    ensures ParseShows(blocks) == Err(BadLineCount(k + 1, |CleanLines(blocks[k])|))
  {
    ParseBlockSpec(blocks[k], k);
    assert FirstFailure(blocks, ParseBlock, 0, k);
    FirstFailureReported(blocks, ParseBlock, k);
  }

  /** A date outside the accepted form fails the whole parse naming that block, when the blocks before it are good. */
  lemma ParseShowsBadDate(blocks: seq<seq<string>>, k: nat)
    requires k < |blocks|
    requires forall j :: 0 <= j < k ==> ParseBlock(blocks[j], j).Ok?
    requires 3 <= |CleanLines(blocks[k])| <= 4 && !ValidDate(CleanLines(blocks[k])[0])
    ensures ParseShows(blocks) == Err(BadDate(CleanLines(blocks[k])[0], k + 1))
  {
    ParseBlockSpec(blocks[k], k);
    assert FirstFailure(blocks, ParseBlock, 0, k);
    FirstFailureReported(blocks, ParseBlock, k);
  }

  // ---------------------------------------------------------------------
  // Dates
  // ---------------------------------------------------------------------

  /** Month 13 or 0 is rejected; 31 February is accepted, month lengths are not checked. */
  lemma DateExamples()
    ensures !ValidDate("2025-13-40")
    ensures !ValidDate("2025-00-10")
    ensures ValidDate("2025-02-31")
  {
    assert DigitsValue("13") == 13 && DigitsValue("00") == 0;
    assert DigitsValue("02") == 2 && DigitsValue("31") == 31;
    assert "2025-13-40"[5..7] == "13";
    assert "2025-00-10"[5..7] == "00";
    assert "2025-02-31"[5..7] == "02" && "2025-02-31"[8..] == "31";
  }

  /** Two digit strings of one width are equal exactly when their numbers are. */
  lemma DigitsEqual(a: string, b: string)
    requires AllDigits(a) && AllDigits(b) && |a| == |b|
    ensures a == b <==> DigitsValue(a) == DigitsValue(b)
  {
    LexLeDigits(a, b);
    LexLeDigits(b, a);
    if DigitsValue(a) == DigitsValue(b) {
      LexLeAntisymmetric(a, b);
    }
  }

  /** Chronological order of (year, month, day). */
  predicate ChronoLe(a: Show, b: Show) {
    a.year < b.year
    || (a.year == b.year && (a.month < b.month || (a.month == b.month && a.day <= b.day)))
  }

  /** For this fixed-width digit format, ordinal order of the date strings is chronological order. */
  lemma DateOrderIsChronological(a: Show, b: Show)
    requires WellFormed(a) && WellFormed(b)
    ensures LexLe(a.date, b.date) <==> ChronoLe(a, b)
  {
    var x, y := a.date, b.date;
    assert x == x[..4] + (x[4..5] + (x[5..7] + (x[7..8] + x[8..])));
    assert y == y[..4] + (y[4..5] + (y[5..7] + (y[7..8] + y[8..])));
    assert x[4..5] == y[4..5] == "-" && x[7..8] == y[7..8] == "-";
    LexLeAppend(x[..4], x[4..], y[..4], y[4..]);
    LexLeDigits(x[..4], y[..4]);
    DigitsEqual(x[..4], y[..4]);
    assert x[4..] == x[4..5] + x[5..] && y[4..] == y[4..5] + y[5..];
    LexLeAppend(x[4..5], x[5..], y[4..5], y[5..]);
    assert x[5..] == x[5..7] + x[7..] && y[5..] == y[5..7] + y[7..];
    LexLeAppend(x[5..7], x[7..], y[5..7], y[7..]);
    LexLeDigits(x[5..7], y[5..7]);
    DigitsEqual(x[5..7], y[5..7]);
    assert x[7..] == x[7..8] + x[8..] && y[7..] == y[7..8] + y[8..];
    LexLeAppend(x[7..8], x[8..], y[7..8], y[8..]);
    LexLeDigits(x[8..], y[8..]);
  }
}
