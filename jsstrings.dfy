/**
 * The JavaScript string operations the two scripts rely on, written out over
 * `seq<char>`: `trim`, `split`/`join` on one character, `indexOf`/`includes`,
 * `startsWith`, `replace` with a string replacement (including its `$`
 * patterns), ASCII `toLowerCase`, decimal digits, and the ordinal order of
 * strings.
 */
module JsStrings {
  import opened Wrappers

  // ---------------------------------------------------------------------
  // Whitespace and trim
  // ---------------------------------------------------------------------

  /** The characters `String.prototype.trim` strips and the regex class `\s` matches. */
  predicate IsSpace(c: char) {
    var n := c as int;
    (0x09 <= n <= 0x0D) || n == 0x20 || n == 0xA0 || n == 0x1680
    || (0x2000 <= n <= 0x200A) || n == 0x2028 || n == 0x2029 || n == 0x202F
    || n == 0x205F || n == 0x3000 || n == 0xFEFF
  }

  /** A string made of whitespace only (the empty string included). */
  predicate IsBlank(s: string) {
    forall i :: 0 <= i < |s| ==> IsSpace(s[i])
  }

  function TrimStart(s: string): (r: string)
    ensures |r| <= |s| && r == s[|s| - |r|..]
    ensures r == [] || !IsSpace(r[0])
    ensures IsBlank(s[..|s| - |r|])
  {
    if s != [] && IsSpace(s[0]) then
      var t := s[1..];
      var r := TrimStart(t);
      assert s[|s| - |r|..] == t[|t| - |r|..];
      assert s[..|s| - |r|] == [s[0]] + t[..|t| - |r|];
      r
    else s
  }

  function TrimEnd(s: string): (r: string)
    ensures |r| <= |s| && r == s[..|r|]
    ensures r == [] || !IsSpace(r[|r| - 1])
    ensures IsBlank(s[|r|..])
  {
    if s != [] && IsSpace(s[|s| - 1]) then
      var t := s[..|s| - 1];
      var r := TrimEnd(t);
      assert s[..|r|] == t[..|r|];
      assert s[|r|..] == t[|r|..] + [s[|s| - 1]];
      r
    else s
  }

  /** `String.prototype.trim`: drops the whitespace at both ends. */
  function Trim(s: string): (r: string)
    ensures |r| <= |s|
    ensures r == [] <==> IsBlank(s)
    ensures r != [] ==> !IsSpace(r[0]) && !IsSpace(r[|r| - 1])
  {
    var a := TrimStart(s);
    var r := TrimEnd(a);
    BlankSplit(s, |s| - |a|);
    assert r == [] ==> a == a[|r|..];
    r
  }

  /** A string is blank exactly when both parts of any cut of it are. */
  lemma BlankSplit(s: string, k: nat)
    requires k <= |s|
    ensures IsBlank(s) <==> IsBlank(s[..k]) && IsBlank(s[k..])
  {
    if IsBlank(s[..k]) && IsBlank(s[k..]) {
      forall i | 0 <= i < |s| ensures IsSpace(s[i]) {
        if i < k { assert s[i] == s[..k][i]; } else { assert s[i] == s[k..][i - k]; }
      }
    }
  }

  // ---------------------------------------------------------------------
  // Searching
  // ---------------------------------------------------------------------

  predicate OccursAt(s: string, pat: string, i: nat) {
    i + |pat| <= |s| && forall k :: 0 <= k < |pat| ==> s[i + k] == pat[k]
  }

  /** `s.indexOf(pat, from)`, with `None` for -1. */
  function IndexOf(s: string, pat: string, from: nat): (r: Option<nat>)
    ensures r.Some? ==> from <= r.value && OccursAt(s, pat, r.value)
    ensures r.Some? ==> forall j :: from <= j < r.value ==> !OccursAt(s, pat, j)
    ensures r.None? ==> forall j :: from <= j ==> !OccursAt(s, pat, j)
    decreases |s| + 1 - from
  {
    if from + |pat| > |s| then None
    else if OccursAt(s, pat, from) then Some(from)
    else IndexOf(s, pat, from + 1)
  }

  /** `s.includes(pat)`. */
  predicate Contains(s: string, pat: string) {
    IndexOf(s, pat, 0).Some?
  }

  lemma ContainsIff(s: string, pat: string)
    ensures Contains(s, pat) <==> exists i: nat :: OccursAt(s, pat, i)
  {
    if exists i: nat :: OccursAt(s, pat, i) {
      var i: nat :| OccursAt(s, pat, i);
      assert IndexOf(s, pat, 0).Some?;
    }
  }

  /** `s.startsWith(p)`. */
  predicate StartsWith(s: string, p: string) {
    |p| <= |s| && s[..|p|] == p
  }

  // ---------------------------------------------------------------------
  // split / join on one character
  // ---------------------------------------------------------------------

  /** `xs.join(sep)`. */
  function Join(xs: seq<string>, sep: string): string
  {
    if |xs| == 0 then ""
    else if |xs| == 1 then xs[0]
    else xs[0] + sep + Join(xs[1..], sep)
  }

  /** `s.split(c)` for a one-character separator. */
  function Split(s: string, c: char): (r: seq<string>)
    ensures |r| >= 1
    ensures forall i :: 0 <= i < |r| ==> c !in r[i]
    ensures Join(r, [c]) == s
  {
    if |s| == 0 then [""]
    else
      var rest := Split(s[1..], c);
      if s[0] == c then
        assert Join([""] + rest, [c]) == "" + [c] + Join(rest, [c]) by {
          assert ([""] + rest)[1..] == rest;
        }
        assert s == [s[0]] + s[1..];
        [""] + rest
      else
        var r := [[s[0]] + rest[0]] + rest[1..];
        assert Join(r, [c]) == [s[0]] + Join(rest, [c]) by {
          if |rest| > 1 {
            assert r[1..] == rest[1..];
          }
        }
        assert s == [s[0]] + s[1..];
        r
  }

  lemma {:induction false} SplitCons(a: string, b: string, c: char)
    requires c !in a
    ensures Split(a + [c] + b, c) == [a] + Split(b, c)
    decreases |a|
  {
    if |a| == 0 {
      assert a + [c] + b == [c] + b;
      assert ([c] + b)[1..] == b;
    } else {
      var t := a + [c] + b;
      assert t[1..] == a[1..] + [c] + b;
      SplitCons(a[1..], b, c);
      assert a == [a[0]] + a[1..];
    }
  }

  /** Splitting undoes joining when no piece holds the separator. */
  lemma {:induction false} SplitJoin(xs: seq<string>, c: char)
    requires |xs| >= 1
    requires forall i :: 0 <= i < |xs| ==> c !in xs[i]
    ensures Split(Join(xs, [c]), c) == xs
    decreases |xs|
  {
    if |xs| == 1 {
      SplitNoSep(xs[0], c);
    } else {
      SplitJoin(xs[1..], c);
      SplitCons(xs[0], Join(xs[1..], [c]), c);
      assert xs == [xs[0]] + xs[1..];
    }
  }

  lemma {:induction false} SplitNoSep(s: string, c: char)
    requires c !in s
    ensures Split(s, c) == [s]
    decreases |s|
  {
    if |s| > 0 {
      SplitNoSep(s[1..], c);
      assert s == [s[0]] + s[1..];
    }
  }

  /** Splitting at a separator splits the two sides independently. */
  lemma {:induction false} SplitAppend(a: string, b: string, c: char)
    ensures Split(a + [c] + b, c) == Split(a, c) + Split(b, c)
    decreases |a|
  {
    var t := a + [c] + b;
    if |a| == 0 {
      assert t == [c] + b;
      assert t[1..] == b;
    } else {
      assert t[0] == a[0] && t[1..] == a[1..] + [c] + b;
      SplitAppend(a[1..], b, c);
      var A, B := Split(a[1..], c), Split(b, c);
      var R := Split(t[1..], c);
      assert R == A + B;
      if a[0] != c {
        assert R[0] == A[0];
        assert R[1..] == A[1..] + B;
        assert Split(t, c) == [[a[0]] + R[0]] + R[1..];
        assert Split(a, c) == [[a[0]] + A[0]] + A[1..];
      } else {
        assert Split(t, c) == [""] + R;
        assert Split(a, c) == [""] + A;
      }
    }
  }

  lemma {:induction false} JoinAppend(xs: seq<string>, ys: seq<string>, sep: string)
    requires |xs| >= 1 && |ys| >= 1
    ensures Join(xs + ys, sep) == Join(xs, sep) + sep + Join(ys, sep)
    decreases |xs|
  {
    if |xs| == 1 {
      assert (xs + ys)[1..] == ys;
    } else {
      assert (xs + ys)[1..] == xs[1..] + ys;
      JoinAppend(xs[1..], ys, sep);
    }
  }

  /** The text strictly between a known prefix and suffix. */
  function Between(line: string, pre: string, suf: string): Option<string>
  {
    if |pre| + |suf| <= |line| && line[..|pre|] == pre && line[|line| - |suf|..] == suf then
      Some(line[|pre|..|line| - |suf|])
    else
      None
  }

  lemma BetweenConcat(pre: string, mid: string, suf: string)
    ensures Between(pre + mid + suf, pre, suf) == Some(mid)
  {
    var line := pre + mid + suf;
    assert line[..|pre|] == pre;
    assert line[|line| - |suf|..] == suf;
    assert line[|pre|..|line| - |suf|] == mid;
  }

  /** Replacing every occurrence of one character by another. */
  function ReplaceChar(s: string, a: char, b: char): (r: string)
    ensures |r| == |s|
    ensures forall i :: 0 <= i < |s| ==> r[i] == if s[i] == a then b else s[i]
  {
    if |s| == 0 then "" else [if s[0] == a then b else s[0]] + ReplaceChar(s[1..], a, b)
  }

  /** `s.split(a).join(b)` is the character replacement it is used for. */
  lemma {:induction false} SplitJoinReplaces(s: string, a: char, b: char)
    ensures Join(Split(s, a), [b]) == ReplaceChar(s, a, b)
    decreases |s|
  {
    if |s| > 0 {
      SplitJoinReplaces(s[1..], a, b);
      var rest := Split(s[1..], a);
      if s[0] == a {
        assert Split(s, a) == [""] + rest;
        assert ([""] + rest)[1..] == rest;
      } else {
        var r := [[s[0]] + rest[0]] + rest[1..];
        assert Split(s, a) == r;
        if |rest| > 1 {
          assert r[1..] == rest[1..];
        }
      }
    }
  }

  // ---------------------------------------------------------------------
  // String.prototype.replace with a string replacement
  // ---------------------------------------------------------------------

  /**
   * The replacement-template expansion `replace` performs (GetSubstitution in
   * ECMA-262): `$$` is one `$`, `$&` the matched text, `` $` `` the text before
   * the match and `$'` the text after it; with no capture groups every other `$`
   * stands for itself.
   */
  function Substitute(repl: string, matched: string, before: string, after: string): string
  {
    if |repl| == 0 then ""
    else if StartsPattern(repl) then
      Expansion(repl[1], matched, before, after) + Substitute(repl[2..], matched, before, after)
    else
      [repl[0]] + Substitute(repl[1..], matched, before, after)
  }

  /** The template opens with one of the two-character patterns `$$`, `$&`, `` $` ``, `$'`. */
  predicate StartsPattern(repl: string)
  {
    |repl| >= 2 && repl[0] == '$' && (repl[1] == '$' || repl[1] == '&' || repl[1] == '`' || repl[1] == '\'')
  }

  /** What the pattern `$c` stands for. */
  function Expansion(c: char, matched: string, before: string, after: string): string
  {
    if c == '$' then "$" else if c == '&' then matched else if c == '`' then before else after
  }

  /** A template without `$` is inserted verbatim. */
  lemma {:induction false} SubstituteLiteral(repl: string, matched: string, before: string, after: string)
    requires '$' !in repl
    ensures Substitute(repl, matched, before, after) == repl
  {
    if |repl| > 0 {
      assert repl == [repl[0]] + repl[1..];
      SubstituteLiteral(repl[1..], matched, before, after);
    }
  }

  /** `s.replace(pat, repl)` with a string pattern: only the first occurrence is replaced. */
  function ReplaceFirst(s: string, pat: string, repl: string): (r: string)
    ensures IndexOf(s, pat, 0).None? ==> r == s
  {
    match IndexOf(s, pat, 0)
    case None => s
    case Some(i) =>
      s[..i] + Substitute(repl, pat, s[..i], s[i + |pat|..]) + s[i + |pat|..]
  }

  // ---------------------------------------------------------------------
  // Case
  // ---------------------------------------------------------------------

  /** `toLowerCase` on the ASCII letters. */
  function LowerAscii(s: string): (r: string)
    ensures |r| == |s|
    ensures forall i :: 0 <= i < |s| ==> r[i] == if 'A' <= s[i] <= 'Z' then (s[i] as int + 32) as char else s[i]
  {
    if |s| == 0 then ""
    else [if 'A' <= s[0] <= 'Z' then (s[0] as int + 32) as char else s[0]] + LowerAscii(s[1..])
  }

  // ---------------------------------------------------------------------
  // Decimal digits
  // ---------------------------------------------------------------------

  predicate IsDigit(c: char) { '0' <= c <= '9' }

  predicate AllDigits(s: string) { forall i :: 0 <= i < |s| ==> IsDigit(s[i]) }

  function DigitValue(c: char): nat
    requires IsDigit(c)
  {
    c as int - '0' as int
  }

  function Pow10(n: nat): (r: nat)
    ensures r >= 1
  {
    if n == 0 then 1 else 10 * Pow10(n - 1)
  }

  /** `Number(s)` for a string of ASCII digits. */
  function DigitsValue(s: string): nat
    requires AllDigits(s)
  {
    if |s| == 0 then 0 else DigitValue(s[0]) * Pow10(|s| - 1) + DigitsValue(s[1..])
  }

  lemma {:induction false} DigitsValueBound(s: string)
    requires AllDigits(s)
    ensures DigitsValue(s) < Pow10(|s|)
  {
    if |s| > 0 {
      DigitsValueBound(s[1..]);
      var d, p := DigitValue(s[0]), Pow10(|s| - 1);
      assert Pow10(|s|) == 10 * p;
      LeadingDigitBound(d, p, DigitsValue(s[1..]));
    }
  }

  /** A digit times a power of ten, plus less than that power, stays below the next power. */
  lemma LeadingDigitBound(d: nat, p: nat, rest: nat)
    requires d <= 9 && rest < p
    ensures d * p + rest < 10 * p
  {
    assert d * p <= 9 * p;
  }

  /** Appending a digit multiplies the value by ten and adds the digit. */
  lemma {:induction false} DigitsValueSnoc(s: string, c: char)
    requires AllDigits(s) && IsDigit(c)
    ensures AllDigits(s + [c])
    ensures DigitsValue(s + [c]) == 10 * DigitsValue(s) + DigitValue(c)
    decreases |s|
  {
    var t := s + [c];
    assert AllDigits(t);
    if |s| > 0 {
      assert t[0] == s[0] && t[1..] == s[1..] + [c];
      DigitsValueSnoc(s[1..], c);
      var d, p, rest := DigitValue(s[0]), Pow10(|s| - 1), DigitsValue(s[1..]);
      assert Pow10(|s|) == 10 * p;
      assert DigitsValue(t) == d * Pow10(|s|) + DigitsValue(s[1..] + [c]);
      ShiftDigit(d, p, rest, DigitValue(c));
    }
  }

  lemma ShiftDigit(d: nat, p: nat, rest: nat, e: nat)
    ensures d * (10 * p) + (10 * rest + e) == 10 * (d * p + rest) + e
  {
    assert d * (10 * p) == 10 * (d * p);
  }

  function DigitChar(d: nat): (c: char)
    requires d < 10
    ensures IsDigit(c) && DigitValue(c) == d
  {
    (d + '0' as int) as char
  }

  /** `String(n)` for a non-negative integer: decimal, no leading zeros. */
  function NatToString(n: nat): (r: string)
    ensures |r| >= 1 && AllDigits(r)
    ensures r[0] == '0' ==> r == "0"
    ensures DigitsValue(r) == n
  {
    if n < 10 then
      [DigitChar(n)]
    else
      var prefix := NatToString(n / 10);
      DigitsValueSnoc(prefix, DigitChar(n % 10));
      prefix + [DigitChar(n % 10)]
  }

  // ---------------------------------------------------------------------
  // Ordinal string order (what localeCompare amounts to on ASCII dates)
  // ---------------------------------------------------------------------

  /** `a` sorts before or with `b` in code-unit order. */
  predicate LexLe(a: string, b: string)
    decreases |a|
  {
    |a| == 0 || (|b| > 0 && (a[0] < b[0] || (a[0] == b[0] && LexLe(a[1..], b[1..]))))
  }

  lemma {:induction false} LexLeTotal(a: string, b: string)
    ensures LexLe(a, b) || LexLe(b, a)
    decreases |a|
  {
    if |a| > 0 && |b| > 0 && a[0] == b[0] {
      LexLeTotal(a[1..], b[1..]);
    }
  }

  lemma {:induction false} LexLeTransitive(a: string, b: string, c: string)
    requires LexLe(a, b) && LexLe(b, c)
    ensures LexLe(a, c)
    decreases |a|
  {
    if |a| > 0 && a[0] == b[0] && b[0] == c[0] {
      LexLeTransitive(a[1..], b[1..], c[1..]);
    }
  }

  lemma {:induction false} LexLeAntisymmetric(a: string, b: string)
    requires LexLe(a, b) && LexLe(b, a)
    ensures a == b
    decreases |a|
  {
    if |a| > 0 {
      LexLeAntisymmetric(a[1..], b[1..]);
      assert a == [a[0]] + a[1..] && b == [b[0]] + b[1..];
    }
  }

  /** On digit strings of one width, the ordinal order is the numeric order. */
  lemma {:induction false} LexLeDigits(a: string, b: string)
    requires AllDigits(a) && AllDigits(b) && |a| == |b|
    ensures LexLe(a, b) <==> DigitsValue(a) <= DigitsValue(b)
    decreases |a|
  {
    if |a| > 0 {
      LexLeDigits(a[1..], b[1..]);
      DigitsValueBound(a[1..]);
      DigitsValueBound(b[1..]);
      var p := Pow10(|a| - 1);
      var da, db := DigitValue(a[0]), DigitValue(b[0]);
      if da < db {
        LeadingDigitDominates(da, db, p, DigitsValue(a[1..]), DigitsValue(b[1..]));
      } else if db < da {
        LeadingDigitDominates(db, da, p, DigitsValue(b[1..]), DigitsValue(a[1..]));
      }
    }
  }

  lemma {:induction false} LeadingDigitDominates(d: nat, e: nat, p: nat, x: nat, y: nat)
    requires d < e && x < p && y < p
    ensures d * p + x < e * p + y
    decreases e - d
  {
    assert (d + 1) * p == d * p + p;
    if e > d + 1 {
      LeadingDigitDominates(d + 1, e, p, 0, y);
    }
  }

  /** Ordinal order on two strings that agree in the widths of a first part. */
  lemma {:induction false} LexLeAppend(a: string, a': string, b: string, b': string)
    requires |a| == |b|
    ensures LexLe(a + a', b + b') <==> (a != b && LexLe(a, b)) || (a == b && LexLe(a', b'))
    decreases |a|
  {
    if |a| > 0 {
      assert (a + a')[1..] == a[1..] + a' && (b + b')[1..] == b[1..] + b';
      LexLeAppend(a[1..], a', b[1..], b');
      assert a == [a[0]] + a[1..] && b == [b[0]] + b[1..];
    } else {
      assert a + a' == a' && b + b' == b';
    }
  }
}
