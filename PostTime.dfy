/** The relative posting time of a listing (`exctract_time`): the phrase is lower-cased and
    searched for a unit word, in a fixed order, and the first space-separated token of the phrase
    is read as the number of units. The program subtracts that offset from the current time; the
    model stops at the offset, since the clock is outside it. */
module PostTime {
  import opened Wrappers
  import Text

  datatype Unit = Minutes | Hours | Days | Months | Years

  /** How long ago the listing was posted: `count` units. */
  datatype Ago = Ago(unit: Unit, count: int)

  /** The outcome of classifying a phrase: an offset, no unit word (the function returns
      `None`), or a first token that `int()` rejects (it raises `ValueError`). */
  datatype Classified = Posted(ago: Ago) | NoUnit | BadNumber

  /** `int(post_time.split(" ")[0])`. */
  function FirstNumber(postTime: string): Option<int>
  {
    Text.ParseInt(Text.Split(postTime, ' ')[0])
  }

  /** A unit that is counted by the phrase's first token. */
  function Counted(unit: Unit, number: Option<int>): (r: Classified)
    ensures r != NoUnit
    ensures r == BadNumber <==> number.None?
  {
    match number
    case Some(n) => Posted(Ago(unit, n))
    case None => BadNumber
  }

  /** `exctract_time(post_time)`, up to the subtraction from the current time. */
  function ExtractTime(postTime: string): (r: Classified)
    ensures r == BadNumber ==> FirstNumber(postTime).None?
    ensures r.Posted? && FirstNumber(postTime).None? ==> r.ago == Ago(Days, 1)
    ensures r.Posted? && r.ago.unit != Days ==> FirstNumber(postTime) == Some(r.ago.count)
  {
    Classify(Text.Lower(postTime), FirstNumber(postTime))
  }

  /** The chain of tests on the lower-cased phrase; `number` is read only by the branches that
      use it, so a bad first token matters only to them. */
  function Classify(lower: string, number: Option<int>): (r: Classified)
    ensures r == BadNumber ==> number.None?
    ensures r.Posted? && number.None? ==> r.ago == Ago(Days, 1)
    ensures r.Posted? && r.ago.unit != Days ==> number == Some(r.ago.count)
  {
    if Text.Contains(lower, "menit") then Counted(Minutes, number)
    else if Text.Contains(lower, "jam") then Counted(Hours, number)
    else if Text.Contains(lower, "kemarin") then Posted(Ago(Days, 1))
    else if Text.Contains(lower, "hari") then Counted(Days, number)
    else if Text.Contains(lower, "bulan") then Counted(Months, number)
    else if Text.Contains(lower, "tahun") then Counted(Years, number)
    else NoUnit
  }

  /** The offset in seconds, for the units of fixed length; months and years are calendar
      arithmetic and have none. */
  function Seconds(ago: Ago): (r: Option<int>)
    ensures r.Some? <==> ago.unit in {Minutes, Hours, Days}
  {
    match ago.unit
    case Minutes => Some(60 * ago.count)
    case Hours => Some(3600 * ago.count)
    case Days => Some(86400 * ago.count)
    case _ => None
  }

  /** One row of the dispatch: the unit word, its unit, and the count it stands for when the
      word fixes one itself. */
  datatype Rule = Rule(word: string, unit: Unit, fixed: Option<int>)

  /** The dispatch as a table, in the order the words are tried. */
  const Rules: seq<Rule> := [
    Rule("menit", Minutes, None),
    Rule("jam", Hours, None),
    Rule("kemarin", Days, Some(1)),
    Rule("hari", Days, None),
    Rule("bulan", Months, None),
    Rule("tahun", Years, None)
  ]

  function Apply(rule: Rule, number: Option<int>): Classified
  {
    match rule.fixed
    case Some(n) => Posted(Ago(rule.unit, n))
    case None => Counted(rule.unit, number)
  }

  /** The first rule whose word occurs in `lower` decides. */
  function Dispatch(rules: seq<Rule>, lower: string, number: Option<int>): Classified
  {
    if |rules| == 0 then NoUnit
    else if Text.Contains(lower, rules[0].word) then Apply(rules[0], number)
    else Dispatch(rules[1..], lower, number)
  }

  /** The chain of tests is the table read top to bottom. */
  lemma ExtractTimeIsDispatch(postTime: string)
    ensures ExtractTime(postTime) == Dispatch(Rules, Text.Lower(postTime), FirstNumber(postTime))
  {
    ClassifyIsDispatch(Text.Lower(postTime), FirstNumber(postTime));
  }

  lemma ClassifyIsDispatch(lower: string, number: Option<int>)
    ensures Classify(lower, number) == Dispatch(Rules, lower, number)
  {
    var r := Rules;
    assert Dispatch(r[5..], lower, number) == if Text.Contains(lower, "tahun") then Counted(Years, number) else NoUnit by {
      assert r[5..][0] == Rule("tahun", Years, None) && r[5..][1..] == [];
    }
    DispatchStep(r, 4, lower, number);
    DispatchStep(r, 3, lower, number);
    DispatchStep(r, 2, lower, number);
    DispatchStep(r, 1, lower, number);
    DispatchStep(r, 0, lower, number);
    assert r[0..] == r;
  }

  lemma DispatchStep(rules: seq<Rule>, k: nat, lower: string, number: Option<int>)
    requires k < |rules|
    ensures Dispatch(rules[k..], lower, number)
      == if Text.Contains(lower, rules[k].word) then Apply(rules[k], number) else Dispatch(rules[k + 1..], lower, number)
  {
    assert rules[k..][1..] == rules[k + 1..];
  }

  /** Rule `k` decides exactly when its word occurs and no earlier word does. */
  lemma {:induction false} DispatchFirst(rules: seq<Rule>, lower: string, number: Option<int>, k: nat)
    requires k < |rules|
    requires Text.Contains(lower, rules[k].word)
    requires forall j :: 0 <= j < k ==> !Text.Contains(lower, rules[j].word)
    ensures Dispatch(rules, lower, number) == Apply(rules[k], number)
  {
    if k > 0 {
      DispatchFirst(rules[1..], lower, number, k - 1);
    }
  }

  lemma {:induction false} DispatchNone(rules: seq<Rule>, lower: string, number: Option<int>)
    ensures Dispatch(rules, lower, number) == NoUnit
      <==> forall j :: 0 <= j < |rules| ==> !Text.Contains(lower, rules[j].word)
  {
    if |rules| > 0 {
      DispatchNone(rules[1..], lower, number);
      assert forall j :: 1 <= j < |rules| ==> rules[j] == rules[1..][j - 1];
      if Text.Contains(lower, rules[0].word) {
        match rules[0].fixed {
          case Some(n) =>
          case None =>
        }
      }
    }
  }

  /** The unit is the one of the first word, in the order menit, jam, kemarin, hari, bulan,
      tahun, that occurs in the lower-cased phrase, whatever later words also occur. */
  lemma FirstWordWins(postTime: string, k: nat)
    requires k < |Rules|
    requires Text.Contains(Text.Lower(postTime), Rules[k].word)
    requires forall j :: 0 <= j < k ==> !Text.Contains(Text.Lower(postTime), Rules[j].word)
    ensures ExtractTime(postTime) == Apply(Rules[k], FirstNumber(postTime))
  {
    ExtractTimeIsDispatch(postTime);
    DispatchFirst(Rules, Text.Lower(postTime), FirstNumber(postTime), k);
  }

  /** A phrase without any of the six words has no posting time. */
  lemma NoWordNoUnit(postTime: string)
    ensures ExtractTime(postTime) == NoUnit
      <==> forall j :: 0 <= j < |Rules| ==> !Text.Contains(Text.Lower(postTime), Rules[j].word)
  {
    ExtractTimeIsDispatch(postTime);
    DispatchNone(Rules, Text.Lower(postTime), FirstNumber(postTime));
  }

  /** The classification ignores letter case: the unit words are matched in the lower-cased
      phrase, and `int()` rejects a first token with letters either way. */
  lemma CaseInsensitive(postTime: string)
    ensures ExtractTime(Text.Lower(postTime)) == ExtractTime(postTime)
  {
    LowerTwice(postTime);
    NumberIgnoresCase(postTime);
  }

  lemma LowerTwice(s: string)
    ensures Text.Lower(Text.Lower(s)) == Text.Lower(s)
  {
  }

  lemma NumberIgnoresCase(postTime: string)
    ensures FirstNumber(Text.Lower(postTime)) == FirstNumber(postTime)
  {
    Text.SplitFirstLower(postTime);
    Text.ParseIntLower(Text.Split(postTime, ' ')[0]);
  }

  /** `kemarin` means one day, whatever the phrase's first token is, unless a minute or hour
      word comes first in the order. */
  lemma Yesterday(postTime: string)
    requires Text.Contains(Text.Lower(postTime), "kemarin")
    requires !Text.Contains(Text.Lower(postTime), "menit") && !Text.Contains(Text.Lower(postTime), "jam")
    ensures ExtractTime(postTime) == Posted(Ago(Days, 1))
  {
  }

  /** Every character of an occurrence of `w` is a character of `s`. */
  lemma OccurrenceChars(s: string, w: string, i: int)
    ensures Text.OccursAt(s, w, i) ==> forall k :: 0 <= k < |w| ==> w[k] in s
  {
    if Text.OccursAt(s, w, i) {
      forall k | 0 <= k < |w|
        ensures w[k] in s
      {
        assert s[i + k] == s[i..i + |w|][k];
      }
    }
  }

  /** A character `c` of `w` that does not occur in `s` rules out `w` occurring in `s`. */
  lemma MissingChar(s: string, w: string, c: char)
    requires c in w && c !in s
    ensures !Text.Contains(s, w)
  {
    forall i
      ensures !Text.OccursAt(s, w, i)
    {
      OccurrenceChars(s, w, i);
    }
  }

  /** The word of a unit, as the listings write it after the count. */
  function Word(unit: Unit): (w: string)
    ensures forall k :: 0 <= k < |w| ==> 'a' <= w[k] <= 'z'
  {
    match unit
    case Minutes => "menit"
    case Hours => "jam"
    case Days => "hari"
    case Months => "bulan"
    case Years => "tahun"
  }

  /** Digits followed by a space and more text: the first token is the digits. */
  lemma FirstTokenOf(d: string, w: string)
    requires |d| > 0 && Text.AllDigits(d)
    ensures FirstNumber(d + " " + w) == Some(Text.DigitsValue(d))
  {
    FirstPiece(d, w);
    ParseBare(d);
  }

  lemma FirstPiece(d: string, w: string)
    requires Text.AllDigits(d)
    ensures Text.Split(d + " " + w, ' ')[0] == d
  {
    var s := d + " " + w;
    assert ' ' !in d;
    assert s[..|d|] == d;
    Text.IndexOfAt(s, ' ', |d|);
  }

  /** `int()` of a bare numeral. */
  lemma ParseBare(d: string)
    requires |d| > 0 && Text.AllDigits(d)
    ensures Text.ParseInt(d) == Some(Text.DigitsValue(d))
  {
    Text.ParseDigits(d, "", "");
    assert "" + d == d;
    assert d + "" == d;
  }

  /** A phrase `<digits> <word>` is already lower case and holds the word. */
  lemma PhraseFacts(d: string, w: string)
    requires Text.AllDigits(d)
    requires forall k :: 0 <= k < |w| ==> 'a' <= w[k] <= 'z'
    ensures Text.Lower(d + " " + w) == d + " " + w
    ensures Text.Contains(d + " " + w, w)
  {
    LowerKeeps(d);
    LowerKeeps(" ");
    LowerKeeps(w);
    LowerAppend(d, " ");
    LowerAppend(d + " ", w);
    PhraseContains(d + " ", w);
  }

  lemma PhraseContains(p: string, w: string)
    ensures Text.Contains(p + w, w)
  {
    var s := p + w;
    assert s[|p|..|p| + |w|] == w;
    assert Text.OccursAt(s, w, |p|);
  }

  /** Text without capital letters is its own lower case. */
  lemma LowerKeeps(s: string)
    requires forall k :: 0 <= k < |s| ==> !('A' <= s[k] <= 'Z')
    ensures Text.Lower(s) == s
  {
  }

  lemma LowerAppend(a: string, b: string)
    ensures Text.Lower(a + b) == Text.Lower(a) + Text.Lower(b)
  {
  }

  /** `<digits> <word>` is read as the digits' value of the word's unit: each word is reached
      even though the words before it in the order are tried first. */
  lemma PhraseDigits(d: string, unit: Unit)
    requires |d| > 0 && Text.AllDigits(d)
    ensures ExtractTime(d + " " + Word(unit)) == Posted(Ago(unit, Text.DigitsValue(d)))
  {
    var s := d + " " + Word(unit);
    FirstTokenOf(d, Word(unit));
    PhraseSelects(d, unit);
    Decide(s, unit, Text.DigitsValue(d));
  }

  /** `<n> <word>`, the way the listings write a posting time, is read back as `n` of the word's unit. */
  lemma PhraseRoundTrip(n: nat, unit: Unit)
    ensures ExtractTime(Text.Decimal(n) + " " + Word(unit)) == Posted(Ago(unit, n))
  {
    PhraseDigits(Text.Decimal(n), unit);
    Text.DecimalValue(n);
  }

  /** The words of the order up to `unit`'s: its own occurs in `lower` and no earlier one does. */
  predicate Selects(lower: string, unit: Unit)
  {
    && Text.Contains(lower, Word(unit))
    && (unit != Minutes ==> !Text.Contains(lower, "menit"))
    && (unit in {Days, Months, Years} ==> !Text.Contains(lower, "jam") && !Text.Contains(lower, "kemarin"))
    && (unit in {Months, Years} ==> !Text.Contains(lower, "hari"))
    && (unit == Years ==> !Text.Contains(lower, "bulan"))
  }

  /** A counted unit is chosen when its word is the first of the order in the lower-cased phrase. */
  lemma Decide(s: string, unit: Unit, n: int)
    requires FirstNumber(s) == Some(n)
    requires Selects(Text.Lower(s), unit)
    ensures ExtractTime(s) == Posted(Ago(unit, n))
  {
  }

  lemma PhraseSelects(d: string, unit: Unit)
    requires Text.AllDigits(d)
    ensures Selects(Text.Lower(d + " " + Word(unit)), unit)
  {
    PhraseFacts(d, Word(unit));
    EarlierWordsAbsent(d, unit);
  }

  /** `<digits> <word>` holds none of the words tried before `word`. */
  lemma EarlierWordsAbsent(d: string, unit: Unit)
    requires Text.AllDigits(d)
    ensures var s := d + " " + Word(unit);
      && (unit != Minutes ==> !Text.Contains(s, "menit"))
      && (unit in {Days, Months, Years} ==> !Text.Contains(s, "jam") && !Text.Contains(s, "kemarin"))
      && (unit in {Months, Years} ==> !Text.Contains(s, "hari"))
      && (unit == Years ==> !Text.Contains(s, "bulan"))
  {
    var w := Word(unit);
    match unit {
      case Minutes =>
      case Hours =>
        Absent(d, w, "menit", 'e');
      case Days =>
        Absent(d, w, "menit", 'm');
        Absent(d, w, "jam", 'j');
        Absent(d, w, "kemarin", 'k');
      case Months =>
        Absent(d, w, "menit", 'm');
        Absent(d, w, "jam", 'j');
        Absent(d, w, "kemarin", 'k');
        Absent(d, w, "hari", 'h');
      case Years =>
        Absent(d, w, "menit", 'm');
        Absent(d, w, "jam", 'j');
        Absent(d, w, "kemarin", 'k');
        Absent(d, w, "hari", 'r');
        Absent(d, w, "bulan", 'b');
    }
  }

  /** A word with a letter that `<digits> <w>` lacks does not occur in it. */
  lemma Absent(d: string, w: string, word: string, c: char)
    requires Text.AllDigits(d) && c in word && !Text.IsDigit(c) && c != ' ' && c !in w
    ensures !Text.Contains(d + " " + w, word)
  {
    var s := d + " " + w;
    assert c !in s by {
      assert forall k :: 0 <= k < |d| ==> s[k] == d[k];
      assert forall k :: |d| + 1 <= k < |s| ==> s[k] == w[k - |d| - 1];
    }
    MissingChar(s, word, c);
  }

  /** A phrase read as `kemarin` has the same posting time as `1 hari`. */
  lemma YesterdayIsOneDay(postTime: string)
    requires Text.Contains(Text.Lower(postTime), "kemarin")
    requires !Text.Contains(Text.Lower(postTime), "menit") && !Text.Contains(Text.Lower(postTime), "jam")
    ensures ExtractTime(postTime) == ExtractTime(Text.Decimal(1) + " " + Word(Days))
  {
    PhraseRoundTrip(1, Days);
    Yesterday(postTime);
  }

  /** An hour is sixty minutes and a day twenty-four hours. */
  lemma SecondsScale(n: int)
    ensures Seconds(Ago(Hours, n)) == Seconds(Ago(Minutes, 60 * n))
    ensures Seconds(Ago(Days, n)) == Seconds(Ago(Hours, 24 * n))
  {
  }
}
