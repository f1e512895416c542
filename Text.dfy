/** The rules of Python's `str` methods and of `int()` that the scraper and the cleaner rely on:
    whitespace, stripping, splitting on one character, substring search, lower-casing and
    decimal parsing. */
module Text {
  import opened Wrappers

  /** Python's `str.isspace()`: the characters `str.strip()`, `int()` and the regex class `\s` treat as whitespace. */
  predicate IsSpace(c: char) {
    || c == ' '
    || ('\t' <= c <= '\r')
    || ('\U{1C}' <= c <= '\U{1F}')
    || c == '\U{85}' || c == '\U{A0}' || c == '\U{1680}'
    || ('\U{2000}' <= c <= '\U{200A}')
    || c == '\U{2028}' || c == '\U{2029}' || c == '\U{202F}' || c == '\U{205F}' || c == '\U{3000}'
  }

  /** An ASCII decimal digit. */
  predicate IsDigit(c: char) {
    '0' <= c <= '9'
  }

  predicate AllDigits(s: string) {
    forall k :: 0 <= k < |s| ==> IsDigit(s[k])
  }

  function DigitValue(c: char): (d: nat)
    requires IsDigit(c)
    ensures d < 10
  {
    c as int - '0' as int
  }

  /** The value of a string of decimal digits, most significant digit first (`""` is 0). */
  function DigitsValue(s: string): nat
    requires AllDigits(s)
  {
    if |s| == 0 then 0 else 10 * DigitsValue(s[..|s| - 1]) + DigitValue(s[|s| - 1])
  }

  /** The decimal numeral of `n`, without leading zeros. */
  function Decimal(n: nat): (s: string)
    ensures |s| >= 1 && AllDigits(s)
  {
    if n < 10 then [('0' as int + n) as char] else Decimal(n / 10) + [('0' as int + n % 10) as char]
  }

  /** Reading back a numeral gives the number it was written from. */
  lemma {:induction false} DecimalValue(n: nat)
    ensures DigitsValue(Decimal(n)) == n
  {
    if n >= 10 {
      DecimalValue(n / 10);
      var s := Decimal(n);
      assert s[..|s| - 1] == Decimal(n / 10);
    }
  }

  /** `s` without its leading whitespace. */
  function TrimStart(s: string): (r: string)
    ensures |r| <= |s| && r == s[|s| - |r|..]
    ensures forall k :: 0 <= k < |s| - |r| ==> IsSpace(s[k])
    ensures |r| > 0 ==> !IsSpace(r[0])
  {
    if |s| > 0 && IsSpace(s[0]) then TrimStart(s[1..]) else s
  }

  /** `s` without its trailing whitespace. */
  function TrimEnd(s: string): (r: string)
    ensures |r| <= |s| && r == s[..|r|]
    ensures forall k :: |r| <= k < |s| ==> IsSpace(s[k])
    ensures |r| > 0 ==> !IsSpace(r[|r| - 1])
  {
    if |s| > 0 && IsSpace(s[|s| - 1]) then TrimEnd(s[..|s| - 1]) else s
  }

  /** Python's `str.strip()` with no argument. */
  function Strip(s: string): (r: string)
  {
    TrimEnd(TrimStart(s))
  }

  /** Where the stripped text starts inside `s`. */
  function StripStart(s: string): nat
  {
    |s| - |TrimStart(s)|
  }

  /** A stripped string is a contiguous piece of the original, with only whitespace cut away
      on either side, and it neither starts nor ends with whitespace. */
  lemma StripShape(s: string)
    ensures StripStart(s) + |Strip(s)| <= |s|
    ensures Strip(s) == s[StripStart(s)..StripStart(s) + |Strip(s)|]
    ensures forall k :: 0 <= k < StripStart(s) ==> IsSpace(s[k])
    ensures forall k :: StripStart(s) + |Strip(s)| <= k < |s| ==> IsSpace(s[k])
    ensures |Strip(s)| > 0 ==> !IsSpace(Strip(s)[0]) && !IsSpace(Strip(s)[|Strip(s)| - 1])
  {
    var t := TrimStart(s);
    var i := StripStart(s);
    var r := TrimEnd(t);
    assert r == s[i..i + |r|] by {
      assert r == t[..|r|];
      assert t == s[i..];
    }
    forall k | i + |r| <= k < |s|
      ensures IsSpace(s[k])
    {
      assert s[k] == t[k - i];
    }
  }

  /** A string that neither starts nor ends with whitespace is its own strip. */
  lemma StripTrimmed(s: string)
    requires |s| > 0 ==> !IsSpace(s[0]) && !IsSpace(s[|s| - 1])
    ensures Strip(s) == s
  {
  }

  /** Stripping twice is stripping once. */
  lemma StripIdempotent(s: string)
    ensures Strip(Strip(s)) == Strip(s)
  {
    StripShape(s);
    StripTrimmed(Strip(s));
  }

  /** The index of the first occurrence of `c` in `s`. */
  function IndexOf(s: string, c: char): (i: nat)
    requires c in s
    ensures i < |s| && s[i] == c && c !in s[..i]
  {
    if s[0] == c then 0 else 1 + IndexOf(s[1..], c)
  }

  /** The first occurrence is the only position holding `c` with no `c` before it. */
  lemma {:induction false} IndexOfAt(s: string, c: char, j: nat)
    requires j < |s| && s[j] == c && c !in s[..j]
    ensures IndexOf(s, c) == j
  {
    if j > 0 {
      assert s[..j][0] == s[0];
      assert s[1..][..j - 1] == s[..j][1..];
      IndexOfAt(s[1..], c, j - 1);
    }
  }

  /** Python's `s.split(sep)` for a one-character separator: the pieces between separators,
      empty pieces included, and always at least one piece. */
  function Split(s: string, sep: char): (r: seq<string>)
    ensures |r| >= 1
    ensures forall k :: 0 <= k < |r| ==> sep !in r[k]
    decreases |s|
  {
    if sep !in s then [s]
    else
      var i := IndexOf(s, sep);
      [s[..i]] + Split(s[i + 1..], sep)
  }

  /** Python's `sep.join(parts)` for a one-character separator. */
  function Join(parts: seq<string>, sep: char): string
  {
    if |parts| == 0 then "" else if |parts| == 1 then parts[0] else parts[0] + [sep] + Join(parts[1..], sep)
  }

  /** Joining the pieces of a split restores the string. */
  lemma {:induction false} JoinSplit(s: string, sep: char)
    ensures Join(Split(s, sep), sep) == s
    decreases |s|
  {
    if sep in s {
      var i := IndexOf(s, sep);
      var rest := Split(s[i + 1..], sep);
      var parts := [s[..i]] + rest;
      assert Split(s, sep) == parts;
      assert parts[1..] == rest;
      assert Join(parts, sep) == s[..i] + [sep] + Join(rest, sep);
      JoinSplit(s[i + 1..], sep);
      assert s == s[..i] + [sep] + s[i + 1..];
    }
  }

  /** Splitting a join of separator-free pieces gives the pieces back. */
  lemma {:induction false} SplitJoin(parts: seq<string>, sep: char)
    requires |parts| >= 1
    requires forall k :: 0 <= k < |parts| ==> sep !in parts[k]
    ensures Split(Join(parts, sep), sep) == parts
  {
    if |parts| > 1 {
      var s := Join(parts, sep);
      var rest := Join(parts[1..], sep);
      assert s == parts[0] + [sep] + rest;
      assert s[|parts[0]|] == sep;
      assert IndexOf(s, sep) == |parts[0]| by {
        var i := IndexOf(s, sep);
        if i < |parts[0]| {
          assert false;
        }
        if i > |parts[0]| {
          assert false;
        }
      }
      assert s[|parts[0]| + 1..] == rest;
      assert s[..|parts[0]|] == parts[0];
      SplitJoin(parts[1..], sep);
    }
  }

  /** `w` occurs in `s` starting at position `i`. */
  predicate OccursAt(s: string, w: string, i: int)
  {
    0 <= i && i + |w| <= |s| && s[i..i + |w|] == w
  }

  /** Python's `w in s` for strings: some position of `s` starts a copy of `w`. */
  predicate Contains(s: string, w: string)
  {
    exists i :: 0 <= i <= |s| - |w| && OccursAt(s, w, i)
  }

  /** ASCII lower-casing of one character. */
  function LowerChar(c: char): char
  {
    if 'A' <= c <= 'Z' then (c as int + 32) as char else c
  }

  /** Python's `str.lower()` on ASCII letters; every other character is kept. */
  function Lower(s: string): (r: string)
    ensures |r| == |s|
    ensures forall k :: 0 <= k < |s| ==> r[k] == LowerChar(s[k])
  {
    if |s| == 0 then "" else [LowerChar(s[0])] + Lower(s[1..])
  }

  /** Python's `int(s)` for a decimal numeral: surrounding whitespace is allowed, then an optional
      sign, then at least one digit; anything else raises `ValueError`, modelled as `None`. */
  function ParseInt(s: string): (r: Option<int>)
  {
    ParseSigned(Strip(s))
  }

  /** `int()` of text without surrounding whitespace. */
  function ParseSigned(t: string): (r: Option<int>)
  {
    if |t| > 0 && (t[0] == '+' || t[0] == '-') then
      var body := t[1..];
      if |body| > 0 && AllDigits(body) then
        Some(if t[0] == '-' then -(DigitsValue(body) as int) else DigitsValue(body))
      else None
    else if |t| > 0 && AllDigits(t) then Some(DigitsValue(t))
    else None
  }

  /** Whitespace in front of text that starts with a non-space is what `TrimStart` removes. */
  lemma {:induction false} TrimStartPrefix(before: string, rest: string)
    requires forall k :: 0 <= k < |before| ==> IsSpace(before[k])
    requires |rest| > 0 && !IsSpace(rest[0])
    ensures TrimStart(before + rest) == rest
  {
    if |before| > 0 {
      assert (before + rest)[1..] == before[1..] + rest;
      TrimStartPrefix(before[1..], rest);
    }
  }

  /** Whitespace after text that ends with a non-space is what `TrimEnd` removes. */
  lemma {:induction false} TrimEndSuffix(text: string, after: string)
    requires forall k :: 0 <= k < |after| ==> IsSpace(after[k])
    requires |text| > 0 && !IsSpace(text[|text| - 1])
    ensures TrimEnd(text + after) == text
  {
    if |after| > 0 {
      assert (text + after)[..|text + after| - 1] == text + after[..|after| - 1];
      TrimEndSuffix(text, after[..|after| - 1]);
    }
  }

  /** Stripping digits surrounded by whitespace leaves the digits. */
  lemma StripAround(d: string, before: string, after: string)
    requires |d| > 0 && AllDigits(d)
    requires forall k :: 0 <= k < |before| ==> IsSpace(before[k])
    requires forall k :: 0 <= k < |after| ==> IsSpace(after[k])
    ensures Strip(before + d + after) == d
  {
    assert before + d + after == before + (d + after);
    TrimStartPrefix(before, d + after);
    TrimEndSuffix(d, after);
  }

  /** `int()` of text that strips to digits is their value. */
  lemma ParseStripped(t: string, d: string)
    requires Strip(t) == d && |d| > 0 && AllDigits(d)
    ensures ParseInt(t) == Some(DigitsValue(d))
  {
    assert !(d[0] == '+' || d[0] == '-');
  }

  /** `int()` accepts a run of digits surrounded by any whitespace and reads its value. */
  lemma ParseDigits(d: string, before: string, after: string)
    requires |d| > 0 && AllDigits(d)
    requires forall k :: 0 <= k < |before| ==> IsSpace(before[k])
    requires forall k :: 0 <= k < |after| ==> IsSpace(after[k])
    ensures ParseInt(before + d + after) == Some(DigitsValue(d))
  {
    StripAround(d, before, after);
    ParseStripped(before + d + after, d);
  }

  /** `int()` accepts every numeral `Decimal` writes, surrounded by any whitespace, and reads back its value. */
  lemma ParseDecimal(n: nat, before: string, after: string)
    requires forall k :: 0 <= k < |before| ==> IsSpace(before[k])
    requires forall k :: 0 <= k < |after| ==> IsSpace(after[k])
    ensures ParseInt(before + Decimal(n) + after) == Some(n)
  {
    ParseDigits(Decimal(n), before, after);
    DecimalValue(n);
  }

  /** Lower-casing changes neither what counts as whitespace nor where the separator is. */
  lemma LowerChars(c: char)
    ensures IsSpace(LowerChar(c)) <==> IsSpace(c)
    ensures IsDigit(LowerChar(c)) <==> IsDigit(c)
    ensures IsDigit(c) ==> LowerChar(c) == c
    ensures LowerChar(c) == ' ' <==> c == ' '
    ensures LowerChar(c) == '+' <==> c == '+'
    ensures LowerChar(c) == '-' <==> c == '-'
  {
  }

  lemma {:induction false} TrimStartLower(s: string)
    ensures TrimStart(Lower(s)) == Lower(TrimStart(s))
  {
    if |s| > 0 {
      LowerChars(s[0]);
      assert Lower(s)[1..] == Lower(s[1..]);
      TrimStartLower(s[1..]);
    }
  }

  lemma {:induction false} TrimEndLower(s: string)
    ensures TrimEnd(Lower(s)) == Lower(TrimEnd(s))
  {
    if |s| > 0 {
      LowerChars(s[|s| - 1]);
      assert Lower(s)[..|s| - 1] == Lower(s[..|s| - 1]);
      TrimEndLower(s[..|s| - 1]);
    }
  }

  /** Lower-casing keeps digit strings and makes nothing else one. */
  lemma LowerDigits(s: string)
    ensures AllDigits(Lower(s)) <==> AllDigits(s)
    ensures AllDigits(s) ==> Lower(s) == s
  {
    forall k | 0 <= k < |s|
      ensures IsDigit(Lower(s)[k]) <==> IsDigit(s[k])
      ensures IsDigit(s[k]) ==> Lower(s)[k] == s[k]
    {
      LowerChars(s[k]);
    }
  }

  lemma ParseSignedLower(u: string)
    ensures ParseSigned(Lower(u)) == ParseSigned(u)
  {
    if |u| > 0 {
      LowerChars(u[0]);
      assert Lower(u)[1..] == Lower(u[1..]);
      LowerDigits(u);
      LowerDigits(u[1..]);
    }
  }

  /** `int()` reads the same number from a text and from its lower case: a letter makes both fail. */
  lemma ParseIntLower(s: string)
    ensures ParseInt(Lower(s)) == ParseInt(s)
  {
    TrimStartLower(s);
    TrimEndLower(TrimStart(s));
    ParseSignedLower(Strip(s));
  }

  /** The first piece of a split on a space is the same before and after lower-casing. */
  lemma SplitFirstLower(s: string)
    ensures Split(Lower(s), ' ')[0] == Lower(Split(s, ' ')[0])
  {
    forall k | 0 <= k < |s|
      ensures Lower(s)[k] == ' ' <==> s[k] == ' '
    {
      LowerChars(s[k]);
    }
    if ' ' in s {
      var i := IndexOf(s, ' ');
      assert Lower(s)[..i] == Lower(s[..i]);
      assert ' ' !in Lower(s)[..i] by {
        forall k | 0 <= k < i
          ensures Lower(s)[..i][k] != ' '
        {
          assert s[..i][k] == s[k];
        }
      }
      IndexOfAt(Lower(s), ' ', i);
    } else {
      assert ' ' !in Lower(s) by {
        forall k | 0 <= k < |s|
          ensures Lower(s)[k] != ' '
        {
        }
      }
    }
  }
}
