/** The salary patterns of the program. The extractor reads the bounds of a salary range with
    `IDR([\d\.]+)\s*-\s*\d+` (lower bound) and `IDR[\d\.]+\s*-\s*([\d\.]+)` (upper bound), and the
    cleaner recovers a single monthly amount with `IDR([\d\.]+)\/Bulan`. Each is applied with
    `str.extract`, which takes the first match anywhere in the text (search semantics); the
    captured group then loses its `.` thousands separators and is parsed as a number.

    The matcher below reads each `[\d\.]+` and `\s*` greedily, without backtracking.
    `MatchCaptured` and `MatchCapturedLongest` show that this loses nothing: whenever a pattern
    matches at a position, read as a regular expression (`Matches`), the matcher captures
    there, and it captures the group a backtracking matcher takes first (for the upper bound,
    the longest). `SearchFound` and
    `SearchFirst` show that the search returns the capture at the leftmost matching
    position. */
module Salary {
  import opened Wrappers
  import Text

  /** `[\d\.]`: a digit or the thousands separator. */
  predicate IsAmountChar(c: char) {
    Text.IsDigit(c) || c == '.'
  }

  predicate IsAmount(s: string) {
    forall k :: 0 <= k < |s| ==> IsAmountChar(s[k])
  }

  predicate AllSpace(s: string) {
    forall k :: 0 <= k < |s| ==> Text.IsSpace(s[k])
  }

  /** The end of the longest run of `[\d\.]` that starts at `i`. */
  function AmountEnd(s: string, i: nat): (j: nat)
    requires i <= |s|
    ensures i <= j <= |s|
    ensures forall k :: i <= k < j ==> IsAmountChar(s[k])
    ensures j == |s| || !IsAmountChar(s[j])
    decreases |s| - i
  {
    if i < |s| && IsAmountChar(s[i]) then AmountEnd(s, i + 1) else i
  }

  /** The end of the longest run of whitespace (`\s*`) that starts at `i`. */
  function SpaceEnd(s: string, i: nat): (j: nat)
    requires i <= |s|
    ensures i <= j <= |s|
    ensures forall k :: i <= k < j ==> Text.IsSpace(s[k])
    ensures j == |s| || !Text.IsSpace(s[j])
    decreases |s| - i
  {
    if i < |s| && Text.IsSpace(s[i]) then SpaceEnd(s, i + 1) else i
  }

  /** The three patterns. */
  datatype Pattern =
    | RangeLow       // IDR([\d\.]+)\s*-\s*\d+
    | RangeHigh      // IDR[\d\.]+\s*-\s*([\d\.]+)
    | SingleMonthly  // IDR([\d\.]+)\/Bulan

  /** The group `pattern` captures when a match is attempted at position `i`, if it matches there. */
  function CaptureAt(pattern: Pattern, s: string, i: nat): (r: Option<string>)
    requires i <= |s|
  {
    if !(i + 3 <= |s| && s[i..i + 3] == "IDR") then None
    else
      var a := i + 3;
      var b := AmountEnd(s, a);
      if b == a then None
      else if pattern == SingleMonthly then
        if b + 6 <= |s| && s[b..b + 6] == "/Bulan" then Some(s[a..b]) else None
      else
        var d := SpaceEnd(s, b);
        if !(d < |s| && s[d] == '-') then None
        else
          var e := SpaceEnd(s, d + 1);
          if pattern == RangeLow then
            if e < |s| && Text.IsDigit(s[e]) then Some(s[a..b]) else None
          else
            var f := AmountEnd(s, e);
            if f > e then Some(s[e..f]) else None
  }

  /** A capture is a non-empty run of digits and dots. */
  lemma CaptureIsAmount(pattern: Pattern, s: string, i: nat)
    requires i <= |s| && CaptureAt(pattern, s, i).Some?
    ensures |CaptureAt(pattern, s, i).value| > 0 && IsAmount(CaptureAt(pattern, s, i).value)
  {
  }

  /** The pattern matches at no position from `i` up to, not including, `j`. */
  predicate NoMatchIn(pattern: Pattern, s: string, i: nat, j: nat)
  {
    forall k :: i <= k < j && k <= |s| ==> CaptureAt(pattern, s, k).None?
  }

  /** `re.search` from position `i` on: the capture at the leftmost position where the pattern
      matches, and nothing when it matches nowhere. */
  function Search(pattern: Pattern, s: string, i: nat): (r: Option<string>)
    requires i <= |s|
    ensures r.Some? ==> |r.value| > 0 && IsAmount(r.value)
    decreases |s| - i
  {
    match CaptureAt(pattern, s, i)
    case Some(g) => CaptureIsAmount(pattern, s, i); Some(g)
    case None => if i == |s| then None else Search(pattern, s, i + 1)
  }

  /** What `str.extract(pattern)[0].str.replace('.', '').astype(float)` gives for one text: NaN
      when nothing matches, the amount when the captured digits parse, and a `ValueError` when
      the captured group holds only separators (`astype(float)` of an empty string). */
  datatype Bound = Missing | Amount(value: nat) | Unparsable

  /** The captured text without its `.` separators. */
  function RemoveSeparators(g: string): (d: string)
    ensures IsAmount(g) ==> Text.AllDigits(d)
    ensures |d| <= |g|
  {
    if |g| == 0 then "" else (if g[0] == '.' then "" else [g[0]]) + RemoveSeparators(g[1..])
  }

  function AmountOf(g: string): Bound
    requires IsAmount(g)
  {
    var d := RemoveSeparators(g);
    if |d| == 0 then Unparsable else Amount(Text.DigitsValue(d))
  }

  function Extract(pattern: Pattern, s: string): Bound
  {
    match Search(pattern, s, 0)
    case None => Missing
    case Some(g) => AmountOf(g)
  }

  /** `salary min` (Scraping.py line 251). */
  function SalaryMin(salary: string): Bound
  {
    Extract(RangeLow, salary)
  }

  /** `salary max` (Scraping.py line 252). */
  function SalaryMax(salary: string): Bound
  {
    Extract(RangeHigh, salary)
  }

  /** The search finds nothing when no position from `i` on admits a match. */
  lemma {:induction false} SearchNone(pattern: Pattern, s: string, i: nat)
    requires i <= |s|
    requires forall j :: i <= j <= |s| ==> CaptureAt(pattern, s, j).None?
    ensures Search(pattern, s, i).None?
    decreases |s| - i
  {
    if i < |s| {
      SearchNone(pattern, s, i + 1);
    }
  }

  /** What the search returns is the capture at some position from `i` on, and the pattern
      matches at no earlier one. */
  lemma {:induction false} SearchFound(pattern: Pattern, s: string, i: nat)
    requires i <= |s|
    ensures Search(pattern, s, i).Some? ==>
      exists j :: i <= j <= |s| && CaptureAt(pattern, s, j) == Search(pattern, s, i) && NoMatchIn(pattern, s, i, j)
    decreases |s| - i
  {
    if CaptureAt(pattern, s, i).Some? {
      assert NoMatchIn(pattern, s, i, i);
    } else if i < |s| {
      SearchFound(pattern, s, i + 1);
      if Search(pattern, s, i).Some? {
        var j :| i + 1 <= j <= |s| && CaptureAt(pattern, s, j) == Search(pattern, s, i + 1)
          && NoMatchIn(pattern, s, i + 1, j);
        assert NoMatchIn(pattern, s, i, j);
      }
    }
  }

  /** When the search returns nothing, the pattern matches at no position from `i` on. */
  lemma {:induction false} SearchNotFound(pattern: Pattern, s: string, i: nat)
    requires i <= |s|
    ensures Search(pattern, s, i).None? ==> NoMatchIn(pattern, s, i, |s| + 1)
    decreases |s| - i
  {
    if Search(pattern, s, i).None? {
      if i < |s| {
        SearchNotFound(pattern, s, i + 1);
      }
      forall k | i <= k <= |s|
        ensures CaptureAt(pattern, s, k).None?
      {
        if k > i {
          assert i + 1 <= k < |s| + 1;
        }
      }
    }
  }

  /** The first occurrence: the capture at the leftmost position from `i` on where the pattern
      matches is what the search returns. */
  lemma {:induction false} SearchFirst(pattern: Pattern, s: string, i: nat, j: nat)
    requires i <= j <= |s|
    requires CaptureAt(pattern, s, j).Some?
    requires NoMatchIn(pattern, s, i, j)
    ensures Search(pattern, s, i) == CaptureAt(pattern, s, j)
    decreases j - i
  {
    if i < j {
      SearchFirst(pattern, s, i + 1, j);
    }
  }

  /** A text in which the currency code `IDR` never starts gives a missing bound for every pattern. */
  lemma NoCurrencyMissing(pattern: Pattern, s: string)
    requires forall k :: 0 <= k < |s| ==> s[k] != 'I'
    ensures Extract(pattern, s) == Missing
  {
    forall j | 0 <= j <= |s|
      ensures CaptureAt(pattern, s, j).None?
    {
      if j + 3 <= |s| {
        assert s[j..j + 3][0] == s[j];
      }
    }
    SearchNone(pattern, s, 0);
  }

  /** The default text of a page without a salary yields no bounds (missing, not zero). */
  lemma UnspecifiedMissing(pattern: Pattern)
    ensures Extract(pattern, "Unspecified") == Missing
  {
    NoCurrencyMissing(pattern, "Unspecified");
  }

  lemma {:induction false} AmountEndAt(s: string, i: nat, j: nat)
    requires i <= j <= |s|
    requires forall k :: i <= k < j ==> IsAmountChar(s[k])
    requires j == |s| || !IsAmountChar(s[j])
    ensures AmountEnd(s, i) == j
    decreases j - i
  {
    if i < j {
      AmountEndAt(s, i + 1, j);
    }
  }

  lemma {:induction false} SpaceEndAt(s: string, i: nat, j: nat)
    requires i <= j <= |s|
    requires forall k :: i <= k < j ==> Text.IsSpace(s[k])
    requires j == |s| || !Text.IsSpace(s[j])
    ensures SpaceEnd(s, i) == j
    decreases j - i
  {
    if i < j {
      SpaceEndAt(s, i + 1, j);
    }
  }

  // ---------------------------------------------------------------------------------------
  // The patterns as regular expressions: a match at `i` is any choice of run ends that the
  // pattern admits. The matcher above picks one reading; the lemmas below show that it finds
  // a match whenever there is one, that for the first and third patterns every match has its
  // capture, and that for the second it has the longest capture, which is the one the greedy
  // `[\d\.]+` at the end of that pattern takes.
  // ---------------------------------------------------------------------------------------

  /** `IDR[\d\.]+\s*-\s*\d` at `i`, the amount ending at `b`, the dash at `d` and the digit at `e`
      (one digit of `\d+` is enough for a match). */
  predicate RangeLowMatch(s: string, i: nat, b: nat, d: nat, e: nat)
  {
    && i + 3 < b <= d && d + 1 <= e < |s|
    && s[i..i + 3] == "IDR"
    && (forall k :: i + 3 <= k < b ==> IsAmountChar(s[k]))
    && (forall k :: b <= k < d ==> Text.IsSpace(s[k]))
    && s[d] == '-'
    && (forall k :: d + 1 <= k < e ==> Text.IsSpace(s[k]))
    && Text.IsDigit(s[e])
  }

  /** `IDR[\d\.]+\s*-\s*[\d\.]+` at `i`, the second amount running from `e` to `f`. */
  predicate RangeHighMatch(s: string, i: nat, b: nat, d: nat, e: nat, f: nat)
  {
    && i + 3 < b <= d && d + 1 <= e < f <= |s|
    && s[i..i + 3] == "IDR"
    && (forall k :: i + 3 <= k < b ==> IsAmountChar(s[k]))
    && (forall k :: b <= k < d ==> Text.IsSpace(s[k]))
    && s[d] == '-'
    && (forall k :: d + 1 <= k < e ==> Text.IsSpace(s[k]))
    && (forall k :: e <= k < f ==> IsAmountChar(s[k]))
  }

  /** `IDR[\d\.]+\/Bulan` at `i`, the amount ending at `b`. */
  predicate SingleMatch(s: string, i: nat, b: nat)
  {
    && i + 3 < b && b + 6 <= |s|
    && s[i..i + 3] == "IDR"
    && (forall k :: i + 3 <= k < b ==> IsAmountChar(s[k]))
    && s[b..b + 6] == "/Bulan"
  }

  /** The pattern matches at `i` with `g` as its group. */
  ghost predicate Matches(pattern: Pattern, s: string, i: nat, g: string)
  {
    match pattern
    case RangeLow => exists b: nat, d: nat, e: nat :: RangeLowMatch(s, i, b, d, e) && g == s[i + 3..b]
    case RangeHigh => exists b: nat, d: nat, e: nat, f: nat :: RangeHighMatch(s, i, b, d, e, f) && g == s[e..f]
    case SingleMonthly => exists b: nat :: SingleMatch(s, i, b) && g == s[i + 3..b]
  }

  /** A run of amount characters from `i` to `j` ends no later than the longest one. */
  lemma {:induction false} AmountEndCovers(s: string, i: nat, j: nat)
    requires i <= j <= |s|
    requires forall k :: i <= k < j ==> IsAmountChar(s[k])
    ensures j <= AmountEnd(s, i)
    decreases j - i
  {
    if i < j {
      AmountEndCovers(s, i + 1, j);
    }
  }

  /** What the matcher captures is the group of a match. */
  lemma CaptureMatches(pattern: Pattern, s: string, i: nat)
    requires i <= |s|
    requires CaptureAt(pattern, s, i).Some?
    ensures Matches(pattern, s, i, CaptureAt(pattern, s, i).value)
  {
    var a := i + 3;
    var b := AmountEnd(s, a);
    match pattern
    case SingleMonthly =>
      assert SingleMatch(s, i, b);
    case RangeLow =>
      var d := SpaceEnd(s, b);
      var e := SpaceEnd(s, d + 1);
      assert RangeLowMatch(s, i, b, d, e);
    case RangeHigh =>
      var d := SpaceEnd(s, b);
      var e := SpaceEnd(s, d + 1);
      var f := AmountEnd(s, e);
      assert RangeHighMatch(s, i, b, d, e, f);
  }

  /** The end of the first amount and the dash of a range match are where the matcher looks. */
  lemma RangeEnds(s: string, i: nat, b: nat, d: nat, e: nat)
    requires i + 3 < b <= d && d + 1 <= e < |s|
    requires forall k :: i + 3 <= k < b ==> IsAmountChar(s[k])
    requires forall k :: b <= k < d ==> Text.IsSpace(s[k])
    requires s[d] == '-'
    requires forall k :: d + 1 <= k < e ==> Text.IsSpace(s[k])
    requires !Text.IsSpace(s[e])
    ensures AmountEnd(s, i + 3) == b && SpaceEnd(s, b) == d && SpaceEnd(s, d + 1) == e
  {
    AmountEndAt(s, i + 3, b);
    SpaceEndAt(s, b, d);
    SpaceEndAt(s, d + 1, e);
  }

  /** The first pattern captures at `i` once the ends of its runs are known. */
  lemma LowCapture(s: string, i: nat, b: nat, d: nat, e: nat)
    requires i + 3 < b <= d && d + 1 <= e < |s|
    requires s[i..i + 3] == "IDR" && AmountEnd(s, i + 3) == b && SpaceEnd(s, b) == d
    requires s[d] == '-' && SpaceEnd(s, d + 1) == e && Text.IsDigit(s[e])
    ensures CaptureAt(RangeLow, s, i) == Some(s[i + 3..b])
  {
  }

  /** The second pattern captures at `i` once the ends of its runs are known. */
  lemma HighCapture(s: string, i: nat, b: nat, d: nat, e: nat, f: nat)
    requires i + 3 < b <= d && d + 1 <= e < f <= |s|
    requires s[i..i + 3] == "IDR" && AmountEnd(s, i + 3) == b && SpaceEnd(s, b) == d
    requires s[d] == '-' && SpaceEnd(s, d + 1) == e && AmountEnd(s, e) == f
    ensures CaptureAt(RangeHigh, s, i) == Some(s[e..f])
  {
  }

  /** The third pattern captures at `i` once the end of its amount is known. */
  lemma SingleCapture(s: string, i: nat, b: nat)
    requires i + 3 < b && b + 6 <= |s|
    requires s[i..i + 3] == "IDR" && AmountEnd(s, i + 3) == b && s[b..b + 6] == "/Bulan"
    ensures CaptureAt(SingleMonthly, s, i) == Some(s[i + 3..b])
  {
  }

  /** Whenever the first or the third pattern matches at `i`, the matcher captures that match's
      group: no other reading of the runs can succeed. */
  lemma MatchCaptured(pattern: Pattern, s: string, i: nat, g: string)
    requires i <= |s| && pattern != RangeHigh
    requires Matches(pattern, s, i, g)
    ensures CaptureAt(pattern, s, i) == Some(g)
  {
    if pattern == RangeLow {
      var b: nat, d: nat, e: nat :| RangeLowMatch(s, i, b, d, e) && g == s[i + 3..b];
      RangeEnds(s, i, b, d, e);
      LowCapture(s, i, b, d, e);
    } else {
      var b: nat :| SingleMatch(s, i, b) && g == s[i + 3..b];
      assert s[b] == s[b..b + 6][0];
      AmountEndAt(s, i + 3, b);
      SingleCapture(s, i, b);
    }
  }

  /** Whenever the second pattern matches at `i`, the matcher captures at `i` too, and every
      match's group is a prefix of what it captures: it takes the longest group. */
  lemma MatchCapturedLongest(s: string, i: nat, g: string)
    requires i <= |s|
    requires Matches(RangeHigh, s, i, g)
    ensures CaptureAt(RangeHigh, s, i).Some?
    ensures g <= CaptureAt(RangeHigh, s, i).value
  {
    var b: nat, d: nat, e: nat, f: nat :| RangeHighMatch(s, i, b, d, e, f) && g == s[e..f];
    RangeEnds(s, i, b, d, e);
    AmountEndCovers(s, e, f);
    HighCapture(s, i, b, d, e, AmountEnd(s, e));
    SlicePrefix(s, e, f, AmountEnd(s, e));
  }

  /** A slice is a prefix of every longer slice from the same start. */
  lemma SlicePrefix(s: string, e: nat, f: nat, f2: nat)
    requires e <= f <= f2 <= |s|
    ensures s[e..f] <= s[e..f2]
  {
  }

  /** The shape of a range text: `IDR<lo><spaces>-<spaces><hi><rest>`, where `<lo>` and `<hi>`
      are amounts, `<hi>` starts with a digit and `<rest>` does not continue `<hi>`. */
  predicate RangeText(s: string, lo: string, sp1: string, sp2: string, hi: string, rest: string)
  {
    && s == "IDR" + lo + sp1 + "-" + sp2 + hi + rest
    && |lo| > 0 && IsAmount(lo)
    && |hi| > 0 && IsAmount(hi) && Text.IsDigit(hi[0])
    && AllSpace(sp1) && AllSpace(sp2)
    && (|rest| > 0 ==> !IsAmountChar(rest[0]))
  }

  /** The positions of the pieces of a range text. */
  lemma RangeTextPositions(s: string, lo: string, sp1: string, sp2: string, hi: string, rest: string)
    requires RangeText(s, lo, sp1, sp2, hi, rest)
    ensures var b := 3 + |lo|; var d := b + |sp1|; var e := d + 1 + |sp2|; var f := e + |hi|;
      && f + |rest| == |s|
      && s[..3] == "IDR" && s[3..b] == lo && s[e..f] == hi
      && (forall k :: 3 <= k < b ==> IsAmountChar(s[k]))
      && (forall k :: b <= k < d ==> Text.IsSpace(s[k]))
      && s[d] == '-'
      && (forall k :: d + 1 <= k < e ==> Text.IsSpace(s[k]))
      && (forall k :: e <= k < f ==> IsAmountChar(s[k]))
      && Text.IsDigit(s[e])
      && (f < |s| ==> s[f] == rest[0])
      && s[f..] == rest
  {
    var b := 3 + |lo|;
    var d := b + |sp1|;
    var e := d + 1 + |sp2|;
    assert forall k :: 3 <= k < b ==> s[k] == lo[k - 3];
    assert forall k :: b <= k < d ==> s[k] == sp1[k - b];
    assert forall k :: d + 1 <= k < e ==> s[k] == sp2[k - d - 1];
    assert forall k :: e <= k < e + |hi| ==> s[k] == hi[k - e];
  }

  /** A prefix in which the currency code never starts holds no match of any pattern. */
  lemma NoMatchBefore(pattern: Pattern, pre: string, s: string)
    requires forall k :: 0 <= k < |pre| ==> pre[k] != 'I'
    ensures NoMatchIn(pattern, pre + s, 0, |pre|)
  {
    var u := pre + s;
    forall j | 0 <= j < |pre|
      ensures CaptureAt(pattern, u, j).None?
    {
      if j + 3 <= |u| {
        assert u[j..j + 3][0] == u[j] == pre[j];
      }
    }
  }

  /** The search returns the group of the first match and the amount is read from it. */
  lemma ExtractFirst(pattern: Pattern, u: string, o: nat, g: string)
    requires o <= |u| && CaptureAt(pattern, u, o) == Some(g) && NoMatchIn(pattern, u, 0, o)
    ensures Extract(pattern, u) == AmountOf(g)
  {
    SearchFirst(pattern, u, 0, o);
  }

  /** Where the currency code, the first amount and the dash of a range text that follows `pre`
      lie, and where the matcher finds the ends of the runs between them. */
  lemma LowEnds(pre: string, lo: string, sp1: string, sp2: string, hi: string, rest: string)
    requires |lo| > 0 && IsAmount(lo) && AllSpace(sp1)
    ensures var u := pre + "IDR" + lo + sp1 + "-" + sp2 + hi + rest;
      var o := |pre|; var b := o + 3 + |lo|; var d := b + |sp1|;
      && d < |u| && u[o..o + 3] == "IDR" && u[o + 3..b] == lo
      && AmountEnd(u, o + 3) == b && SpaceEnd(u, b) == d && u[d] == '-'
  {
    var u := pre + "IDR" + lo + sp1 + "-" + sp2 + hi + rest;
    var o := |pre|;
    var b := o + 3 + |lo|;
    var d := b + |sp1|;
    assert forall k :: o + 3 <= k < b ==> u[k] == lo[k - o - 3];
    assert forall k :: b <= k < d ==> u[k] == sp1[k - b];
    assert u[d] == '-';
    if |sp1| > 0 {
      assert u[b] == sp1[0];
    }
    AmountEndAt(u, o + 3, b);
    SpaceEndAt(u, b, d);
  }

  /** Where the second amount of a range text that follows `pre` lies, and where the matcher
      finds the ends of the runs before and in it. */
  lemma HighEnds(pre: string, lo: string, sp1: string, sp2: string, hi: string, rest: string)
    requires |hi| > 0 && IsAmount(hi) && Text.IsDigit(hi[0]) && AllSpace(sp2)
    requires |rest| > 0 ==> !IsAmountChar(rest[0])
    ensures var u := pre + "IDR" + lo + sp1 + "-" + sp2 + hi + rest;
      var d := |pre| + 3 + |lo| + |sp1|; var e := d + 1 + |sp2|; var f := e + |hi|;
      && f <= |u| && u[e..f] == hi && Text.IsDigit(u[e])
      && SpaceEnd(u, d + 1) == e && AmountEnd(u, e) == f
  {
    var u := pre + "IDR" + lo + sp1 + "-" + sp2 + hi + rest;
    var d := |pre| + 3 + |lo| + |sp1|;
    var e := d + 1 + |sp2|;
    var f := e + |hi|;
    assert forall k :: d + 1 <= k < e ==> u[k] == sp2[k - d - 1];
    assert forall k :: e <= k < f ==> u[k] == hi[k - e];
    if f < |u| {
      assert u[f] == rest[0];
    }
    SpaceEndAt(u, d + 1, e);
    AmountEndAt(u, e, f);
  }

  /** Where the matcher finds the ends of the runs of a range text that follows `pre`. */
  lemma RangeTextEnds(pre: string, s: string, lo: string, sp1: string, sp2: string, hi: string, rest: string)
    requires RangeText(s, lo, sp1, sp2, hi, rest)
    ensures var u := pre + s; var o := |pre|;
      var b := o + 3 + |lo|; var d := b + |sp1|; var e := d + 1 + |sp2|; var f := e + |hi|;
      && f <= |u| && u[o..o + 3] == "IDR" && u[o + 3..b] == lo && u[e..f] == hi
      && AmountEnd(u, o + 3) == b && SpaceEnd(u, b) == d && u[d] == '-'
      && SpaceEnd(u, d + 1) == e && AmountEnd(u, e) == f && Text.IsDigit(u[e])
  {
    assert pre + s == pre + "IDR" + lo + sp1 + "-" + sp2 + hi + rest;
    LowEnds(pre, lo, sp1, sp2, hi, rest);
    HighEnds(pre, lo, sp1, sp2, hi, rest);
  }

  /** Both bounds of a range text are its two amounts, separators removed, also when other
      text precedes it, provided the currency code does not start in that text: the search
      takes the first match. */
  lemma RangeBounds(pre: string, s: string, lo: string, sp1: string, sp2: string, hi: string, rest: string)
    requires forall k :: 0 <= k < |pre| ==> pre[k] != 'I'
    requires RangeText(s, lo, sp1, sp2, hi, rest)
    ensures SalaryMin(pre + s) == AmountOf(lo)
    ensures SalaryMax(pre + s) == AmountOf(hi)
  {
    RangeTextEnds(pre, s, lo, sp1, sp2, hi, rest);
    var b := |pre| + 3 + |lo|;
    var d := b + |sp1|;
    var e := d + 1 + |sp2|;
    RangeBoundsAt(pre, s, b, d, e, e + |hi|, lo, hi);
  }

  /** The bounds of a text whose first range match follows `pre`, once the ends of its runs are
      known. */
  lemma RangeBoundsAt(pre: string, s: string, b: nat, d: nat, e: nat, f: nat, lo: string, hi: string)
    requires forall k :: 0 <= k < |pre| ==> pre[k] != 'I'
    requires var u, o := pre + s, |pre|;
      && o + 3 < b <= d && d + 1 <= e < f <= |u| && u[o + 3..b] == lo && u[e..f] == hi
      && u[o..o + 3] == "IDR" && AmountEnd(u, o + 3) == b && SpaceEnd(u, b) == d && u[d] == '-'
      && SpaceEnd(u, d + 1) == e && AmountEnd(u, e) == f && Text.IsDigit(u[e])
    ensures IsAmount(lo) && SalaryMin(pre + s) == AmountOf(lo)
    ensures IsAmount(hi) && SalaryMax(pre + s) == AmountOf(hi)
  {
    var u, o := pre + s, |pre|;
    NoMatchBefore(RangeLow, pre, s);
    NoMatchBefore(RangeHigh, pre, s);
    LowCapture(u, o, b, d, e);
    HighCapture(u, o, b, d, e, f);
    ExtractFirst(RangeLow, u, o, lo);
    ExtractFirst(RangeHigh, u, o, hi);
  }

  /** A range text never matches the single-amount pattern of the cleaner when it ends in
      `/Bulan`, so a bound it leaves missing stays missing. */
  lemma RangeIsNotSingle(s: string, lo: string, sp1: string, sp2: string, hi: string)
    requires RangeText(s, lo, sp1, sp2, hi, "/Bulan")
    ensures Extract(SingleMonthly, s) == Missing
  {
    RangeTextPositions(s, lo, sp1, sp2, hi, "/Bulan");
    var b := 3 + |lo|;
    AmountEndAt(s, 3, b);
    assert CaptureAt(SingleMonthly, s, 0).None? by {
      assert s[b] != '/';
    }
    forall j | 1 <= j <= |s|
      ensures CaptureAt(SingleMonthly, s, j).None?
    {
      if j + 3 <= |s| {
        assert s[j..j + 3][0] == s[j];
        assert s[j] != 'I';
      }
    }
    SearchNone(SingleMonthly, s, 0);
  }

  /** A single monthly amount `IDR<v>/Bulan` is recovered by the cleaner's pattern, also after
      other text in which the currency code does not start. */
  lemma SingleAmount(pre: string, v: string, rest: string)
    requires forall k :: 0 <= k < |pre| ==> pre[k] != 'I'
    requires |v| > 0 && IsAmount(v)
    ensures Extract(SingleMonthly, pre + "IDR" + v + "/Bulan" + rest) == AmountOf(v)
  {
    var u := pre + "IDR" + v + "/Bulan" + rest;
    SingleCaptureAfter(pre, v, rest);
    NoMatchBefore(SingleMonthly, pre, "IDR" + v + "/Bulan" + rest);
    assert u == pre + ("IDR" + v + "/Bulan" + rest);
    ExtractFirst(SingleMonthly, u, |pre|, v);
  }

  /** The cleaner's pattern captures `v` where `IDR<v>/Bulan` starts. */
  lemma SingleCaptureAfter(pre: string, v: string, rest: string)
    requires |v| > 0 && IsAmount(v)
    ensures CaptureAt(SingleMonthly, pre + "IDR" + v + "/Bulan" + rest, |pre|) == Some(v)
  {
    var u := pre + "IDR" + v + "/Bulan" + rest;
    var o := |pre|;
    var b := o + 3 + |v|;
    assert forall k :: o + 3 <= k < b ==> u[k] == v[k - o - 3];
    assert u[b] == '/';
    AmountEndAt(u, o + 3, b);
    assert u[o..o + 3] == "IDR";
    assert u[o + 3..b] == v;
    assert u[b..b + 6] == "/Bulan";
    SingleCapture(u, o, b);
  }

  lemma {:induction false} RemoveSeparatorsAppend(a: string, b: string)
    ensures RemoveSeparators(a + b) == RemoveSeparators(a) + RemoveSeparators(b)
  {
    if |a| > 0 {
      assert (a + b)[1..] == a[1..] + b;
      RemoveSeparatorsAppend(a[1..], b);
    } else {
      assert a + b == b;
    }
  }

  /** Digits alone have nothing to remove. */
  lemma {:induction false} NoSeparators(d: string)
    requires Text.AllDigits(d)
    ensures RemoveSeparators(d) == d
  {
    if |d| > 0 {
      NoSeparators(d[1..]);
    }
  }

  function Pow10(n: nat): nat
  {
    if n == 0 then 1 else 10 * Pow10(n - 1)
  }

  /** Reading digits `a` followed by digits `b` shifts the value of `a` by the length of `b`. */
  lemma {:induction false} DigitsValueAppend(a: string, b: string)
    requires Text.AllDigits(a) && Text.AllDigits(b)
    ensures Text.DigitsValue(a + b) == Text.DigitsValue(a) * Pow10(|b|) + Text.DigitsValue(b)
    decreases |b|
  {
    if |b| == 0 {
      assert a + b == a;
    } else {
      var init := b[..|b| - 1];
      assert (a + b)[..|a + b| - 1] == a + init;
      DigitsValueAppend(a, init);
      assert Text.DigitsValue(a) * Pow10(|b|) == 10 * (Text.DigitsValue(a) * Pow10(|init|));
    }
  }

  function DigitChar(d: nat): (c: char)
    requires d < 10
    ensures Text.IsDigit(c) && Text.DigitValue(c) == d
  {
    ('0' as int + d) as char
  }

  /** The three-digit group of `r`, with leading zeros. */
  function Group(r: nat): (g: string)
    requires r < 1000
    ensures |g| == 3 && Text.AllDigits(g)
  {
    [DigitChar(r / 100), DigitChar(r / 10 % 10), DigitChar(r % 10)]
  }

  /** `n` written the way the listings write salaries: groups of three digits separated by `.`. */
  function Thousands(n: nat): (s: string)
    ensures |s| > 0 && IsAmount(s) && Text.IsDigit(s[0])
  {
    if n < 1000 then Text.Decimal(n) else Thousands(n / 1000) + "." + Group(n % 1000)
  }

  lemma GroupValue(r: nat)
    requires r < 1000
    ensures Text.DigitsValue(Group(r)) == r
  {
    var x, y, z := DigitChar(r / 100), DigitChar(r / 10 % 10), DigitChar(r % 10);
    var g := Group(r);
    assert g == [x, y, z];
    assert g[..2] == [x, y];
    assert Text.DigitsValue([x]) == r / 100 by {
      assert [x][..0] == [];
    }
    assert Text.DigitsValue([x, y]) == 10 * (r / 100) + r / 10 % 10 by {
      assert [x, y][..1] == [x];
    }
    assert Text.DigitsValue(g) == 10 * Text.DigitsValue([x, y]) + r % 10;
    assert r / 10 == 10 * (r / 100) + r / 10 % 10;
    assert r == 10 * (r / 10) + r % 10;
  }

  /** Removing the separators of `Thousands(n)` leaves digits that read back as `n`. */
  lemma {:induction false} ThousandsDigits(n: nat)
    ensures |RemoveSeparators(Thousands(n))| > 0
    ensures Text.DigitsValue(RemoveSeparators(Thousands(n))) == n
  {
    if n < 1000 {
      NoSeparators(Text.Decimal(n));
      Text.DecimalValue(n);
    } else {
      var q := n / 1000;
      ThousandsDigits(q);
      ThousandsSeparators(n);
      GroupValue(n % 1000);
      GroupedValue(RemoveSeparators(Thousands(q)), Group(n % 1000));
      assert n == q * 1000 + n % 1000;
    }
  }

  /** The separators of `Thousands(n)` for `n >= 1000`: those of the leading part, and the dot
      in front of the last group. */
  lemma ThousandsSeparators(n: nat)
    requires n >= 1000
    ensures RemoveSeparators(Thousands(n)) == RemoveSeparators(Thousands(n / 1000)) + Group(n % 1000)
  {
    var g := Group(n % 1000);
    var dot: string := ".";
    assert Thousands(n) == Thousands(n / 1000) + (dot + g);
    RemoveSeparatorsAppend(Thousands(n / 1000), dot + g);
    RemoveSeparatorsAppend(dot, g);
    assert RemoveSeparators(dot) == [] by {
      assert dot[1..] == [];
    }
    NoSeparators(g);
  }

  /** Digits followed by a group of three read as a thousand times their value plus the
      group's. */
  lemma GroupedValue(d: string, g: string)
    requires Text.AllDigits(d) && Text.AllDigits(g) && |g| == 3
    ensures Text.DigitsValue(d + g) == Text.DigitsValue(d) * 1000 + Text.DigitsValue(g)
  {
    DigitsValueAppend(d, g);
    assert Pow10(3) == 1000;
  }

  /** An amount as the listings write it reads back as itself. */
  lemma ThousandsAmount(n: nat)
    ensures AmountOf(Thousands(n)) == Amount(n)
  {
    ThousandsDigits(n);
  }

  /** A monthly range written in the listings' format, `IDR<lo> - <hi>/Bulan`, gives `lo` as the
      lower and `hi` as the upper bound, also after a label such as `Gaji ` in which the
      currency code does not start. */
  lemma RangeRoundTrip(pre: string, lo: nat, hi: nat)
    requires forall k :: 0 <= k < |pre| ==> pre[k] != 'I'
    ensures SalaryMin(pre + "IDR" + Thousands(lo) + " - " + Thousands(hi) + "/Bulan") == Amount(lo)
    ensures SalaryMax(pre + "IDR" + Thousands(lo) + " - " + Thousands(hi) + "/Bulan") == Amount(hi)
  {
    var s := "IDR" + Thousands(lo) + " - " + Thousands(hi) + "/Bulan";
    assert s == "IDR" + Thousands(lo) + " " + "-" + " " + Thousands(hi) + "/Bulan";
    assert RangeText(s, Thousands(lo), " ", " ", Thousands(hi), "/Bulan");
    assert pre + s == pre + "IDR" + Thousands(lo) + " - " + Thousands(hi) + "/Bulan";
    RangeBounds(pre, s, Thousands(lo), " ", " ", Thousands(hi), "/Bulan");
    ThousandsAmount(lo);
    ThousandsAmount(hi);
  }
}
