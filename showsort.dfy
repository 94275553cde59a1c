/**
 * `shows.sort((a, b) => a.date.localeCompare(b.date))` (scripts/build-shows.mjs),
 * with the comparison taken as ordinal order on the ASCII date strings.
 */
module ShowSort {
  import opened JsStrings
  import opened Shows

  predicate SortedByDate(s: seq<Show>) {
    forall i, j :: 0 <= i < j < |s| ==> LexLe(s[i].date, s[j].date)
  }

  lemma PrependSorted(x: Show, s: seq<Show>)
    requires SortedByDate(s)
    requires forall k :: 0 <= k < |s| ==> LexLe(x.date, s[k].date)
    ensures SortedByDate([x] + s)
  {
    var t := [x] + s;
    forall i, j | 0 <= i < j < |t| ensures LexLe(t[i].date, t[j].date) {
      assert t[j] == s[j - 1];
      if i > 0 { assert t[i] == s[i - 1]; }
    }
  }

  /** Places `x` before the first record whose date is not earlier than its own. */
  function Insert(x: Show, s: seq<Show>): (r: seq<Show>)
    requires SortedByDate(s)
    ensures SortedByDate(r)
    ensures multiset(r) == multiset(s) + multiset{x}
  {
    if s == [] || LexLe(x.date, s[0].date) then
      forall k | 0 <= k < |s| ensures LexLe(x.date, s[k].date) {
        if k > 0 { LexLeTransitive(x.date, s[0].date, s[k].date); }
      }
      PrependSorted(x, s);
      [x] + s
    else
      var rest := Insert(x, s[1..]);
      LexLeTotal(x.date, s[0].date);
      assert s == [s[0]] + s[1..];
      forall k | 0 <= k < |rest| ensures LexLe(s[0].date, rest[k].date) {
        assert rest[k] in multiset(rest);
        if rest[k] != x {
          assert rest[k] in multiset(s[1..]);
          var m :| 0 <= m < |s[1..]| && s[1..][m] == rest[k];
          assert s[m + 1] == rest[k];
        }
      }
      PrependSorted(s[0], rest);
      [s[0]] + rest
  }

  /** The list that is rendered: every parsed record once, ascending by date. */
  function SortByDate(s: seq<Show>): (r: seq<Show>)
    ensures SortedByDate(r)
    ensures multiset(r) == multiset(s)
    ensures |r| == |s|
  {
    if s == [] then []
    else
      assert s == [s[0]] + s[1..];
      Insert(s[0], SortByDate(s[1..]))
  }

  /** Sorted by date string is sorted chronologically, for parsed records. */
  lemma SortedIsChronological(s: seq<Show>)
    requires forall i :: 0 <= i < |s| ==> WellFormed(s[i])
    requires SortedByDate(s)
    ensures forall i, j :: 0 <= i < j < |s| ==> ChronoLe(s[i], s[j])
  {
    forall i, j | 0 <= i < j < |s| ensures ChronoLe(s[i], s[j]) {
      DateOrderIsChronological(s[i], s[j]);
    }
  }
}
