/** The skills table that the storing step uploads beside the main table
    (utils/Cleaning_and_storing.py line 100): every present skills text is split on commas,
    each piece is stripped, and the distinct pieces are counted, most frequent first. */
module SkillTable {
  import opened Wrappers
  import Text
  import Cleaning
  import Batching

  /** The stripped pieces of one skills text, `str.split(",")` then `str.strip()`. */
  function Pieces(s: string): seq<string>
  {
    StripAll(Text.Split(s, ','))
  }

  /** `str.strip()` of each part. */
  function StripAll(parts: seq<string>): (r: seq<string>)
    ensures |r| == |parts|
  {
    if |parts| == 0 then [] else [Text.Strip(parts[0])] + StripAll(parts[1..])
  }

  lemma {:induction false} StripAllAt(parts: seq<string>, k: nat)
    requires k < |parts|
    ensures StripAll(parts)[k] == Text.Strip(parts[k])
  {
    if k > 0 {
      StripAllAt(parts[1..], k - 1);
    }
  }

  /** The pieces of one cell; a missing cell gives none (`stack` drops NaN). */
  function CellTokens(cell: Option<string>): seq<string>
  {
    match cell
    case None => []
    case Some(s) => Pieces(s)
  }

  /** `df["skills_requirements"].str.split(",", expand=True)`: the pieces of each row. */
  function PieceRows(t: Cleaning.Table): (rows: seq<seq<string>>)
    ensures |rows| == |t|
  {
    seq(|t|, i requires 0 <= i < |t| => CellTokens(t[i].skillsRequirements))
  }

  /** `stack().str.strip()`: the pieces, row after row. */
  function Tokens(t: Cleaning.Table): seq<string>
  {
    Batching.Flatten(PieceRows(t))
  }

  /** How often `w` occurs in `ws`. */
  function Occurrences(ws: seq<string>, w: string): nat
  {
    if |ws| == 0 then 0
    else Occurrences(ws[..|ws| - 1], w) + (if ws[|ws| - 1] == w then 1 else 0)
  }

  /** One row of the table that `value_counts().reset_index()` produces. */
  datatype SkillCount = SkillCount(skill: string, count: nat)

  /** Some row of `r` is about `x`. */
  predicate Lists(r: seq<SkillCount>, x: string)
  {
    exists i :: 0 <= i < |r| && r[i].skill == x
  }

  /** The count of the first row about `x`, 0 when there is none. */
  function CountOf(r: seq<SkillCount>, x: string): nat
  {
    if |r| == 0 then 0 else if r[0].skill == x then r[0].count else CountOf(r[1..], x)
  }

  function Sum(r: seq<SkillCount>): nat
  {
    if |r| == 0 then 0 else r[0].count + Sum(r[1..])
  }

  predicate DistinctSkills(r: seq<SkillCount>)
  {
    forall i, j :: 0 <= i < j < |r| ==> r[i].skill != r[j].skill
  }

  predicate Positive(r: seq<SkillCount>)
  {
    forall i :: 0 <= i < |r| ==> r[i].count >= 1
  }

  /** Most frequent first. */
  predicate Sorted(r: seq<SkillCount>)
  {
    forall i, j :: 0 <= i < j < |r| ==> r[i].count >= r[j].count
  }

  /** One more occurrence of `w`: its row counts one more, or a new row is appended. */
  function Bump(r: seq<SkillCount>, w: string): seq<SkillCount>
  {
    if |r| == 0 then [SkillCount(w, 1)]
    else if r[0].skill == w then [r[0].(count := r[0].count + 1)] + r[1..]
    else [r[0]] + Bump(r[1..], w)
  }

  lemma ListsCons(a: SkillCount, r: seq<SkillCount>)
    ensures forall x :: Lists([a] + r, x) <==> a.skill == x || Lists(r, x)
  {
    forall x
      ensures Lists([a] + r, x) <==> a.skill == x || Lists(r, x)
    {
      if a.skill == x {
        assert ([a] + r)[0] == a;
      }
      if Lists(r, x) {
        var i :| 0 <= i < |r| && r[i].skill == x;
        assert ([a] + r)[i + 1] == r[i];
      }
      if Lists([a] + r, x) && a.skill != x {
        var i :| 0 <= i < |[a] + r| && ([a] + r)[i].skill == x;
        assert r[i - 1] == ([a] + r)[i];
      }
    }
  }

  /** Bumping adds one to the count of `w` and to no other, lists `w` besides what was
      listed, and keeps the rows distinct and positive. */
  lemma BumpFacts(r: seq<SkillCount>, w: string)
    ensures Sum(Bump(r, w)) == Sum(r) + 1
    ensures forall x :: CountOf(Bump(r, w), x) == CountOf(r, x) + (if x == w then 1 else 0)
    ensures forall x :: Lists(Bump(r, w), x) <==> Lists(r, x) || x == w
    ensures DistinctSkills(r) ==> DistinctSkills(Bump(r, w))
    ensures Positive(r) ==> Positive(Bump(r, w))
  {
    BumpCounts(r, w);
    BumpLists(r, w);
  }

  lemma {:induction false} BumpCounts(r: seq<SkillCount>, w: string)
    ensures Sum(Bump(r, w)) == Sum(r) + 1
    ensures forall x :: CountOf(Bump(r, w), x) == CountOf(r, x) + (if x == w then 1 else 0)
    ensures Positive(r) ==> Positive(Bump(r, w))
  {
    var b := Bump(r, w);
    if |r| > 0 {
      var a := r[0];
      if a.skill == w {
        assert b[1..] == r[1..];
      } else {
        BumpCounts(r[1..], w);
        assert b[1..] == Bump(r[1..], w);
      }
    }
  }

  lemma {:induction false} BumpLists(r: seq<SkillCount>, w: string)
    ensures forall x :: Lists(Bump(r, w), x) <==> Lists(r, x) || x == w
    ensures DistinctSkills(r) ==> DistinctSkills(Bump(r, w))
  {
    var b := Bump(r, w);
    if |r| == 0 {
      assert b[0].skill == w;
    } else {
      var a := r[0];
      assert r == [a] + r[1..];
      ListsCons(a, r[1..]);
      if a.skill == w {
        var a' := a.(count := a.count + 1);
        assert b == [a'] + r[1..];
        ListsCons(a', r[1..]);
      } else {
        var rest := Bump(r[1..], w);
        BumpLists(r[1..], w);
        assert b == [a] + rest;
        ListsCons(a, rest);
        if DistinctSkills(r) {
          assert !Lists(r[1..], a.skill) by {
            forall i | 0 <= i < |r| - 1
              ensures r[1..][i].skill != a.skill
            {
              assert r[0].skill != r[i + 1].skill;
            }
          }
          forall i, j | 0 <= i < j < |b|
            ensures b[i].skill != b[j].skill
          {
            if i == 0 {
              assert b[j] == rest[j - 1];
            }
          }
        }
      }
    }
  }

  /** The distinct values of `ws` in order of first occurrence, each with its count. */
  function Tally(ws: seq<string>): seq<SkillCount>
  {
    if |ws| == 0 then [] else Bump(Tally(ws[..|ws| - 1]), ws[|ws| - 1])
  }

  /** Insert by count, before the first row that does not count more. */
  function Insert(e: SkillCount, r: seq<SkillCount>): seq<SkillCount>
  {
    if |r| == 0 || e.count >= r[0].count then [e] + r else [r[0]] + Insert(e, r[1..])
  }

  /** Inserting adds the row and keeps a sorted table sorted. */
  lemma InsertFacts(e: SkillCount, r: seq<SkillCount>)
    ensures multiset(Insert(e, r)) == multiset(r) + multiset{e}
    ensures Sorted(r) ==> Sorted(Insert(e, r))
  {
    InsertAdds(e, r);
    if Sorted(r) {
      InsertSorted(e, r);
    }
  }

  lemma {:induction false} InsertAdds(e: SkillCount, r: seq<SkillCount>)
    ensures multiset(Insert(e, r)) == multiset(r) + multiset{e}
  {
    if |r| > 0 && e.count < r[0].count {
      InsertAdds(e, r[1..]);
      assert r == [r[0]] + r[1..];
    }
  }

  lemma {:induction false} InsertSorted(e: SkillCount, r: seq<SkillCount>)
    requires Sorted(r)
    ensures Sorted(Insert(e, r))
  {
    if |r| == 0 || e.count >= r[0].count {
      if |r| > 0 {
        forall x | x in r
          ensures e.count >= x.count
        {
          var j :| 0 <= j < |r| && r[j] == x;
          if j > 0 {
            assert r[0].count >= r[j].count;
          }
        }
        SortedCons(e, r);
      }
    } else {
      var rest := Insert(e, r[1..]);
      assert Sorted(r[1..]);
      InsertSorted(e, r[1..]);
      InsertAdds(e, r[1..]);
      forall x | x in rest
        ensures r[0].count >= x.count
      {
        assert x in multiset(rest);
        if x != e {
          var j :| 0 <= j < |r[1..]| && r[1..][j] == x;
          assert r[j + 1] == x;
        }
      }
      SortedCons(r[0], rest);
    }
  }

  /** A row counting at least as much as every row of a sorted table can go in front. */
  lemma SortedCons(a: SkillCount, r: seq<SkillCount>)
    requires Sorted(r)
    requires forall x :: x in r ==> a.count >= x.count
    ensures Sorted([a] + r)
  {
    forall i, j | 0 <= i < j < |[a] + r|
      ensures ([a] + r)[i].count >= ([a] + r)[j].count
    {
      if i == 0 {
        assert ([a] + r)[j] == r[j - 1];
        assert r[j - 1] in r;
      } else {
        assert ([a] + r)[i] == r[i - 1] && ([a] + r)[j] == r[j - 1];
      }
    }
  }

  /** `sort_values(ascending=False)`, ties kept in their first-occurrence order. */
  function SortByCount(r: seq<SkillCount>): (s: seq<SkillCount>)
    ensures multiset(s) == multiset(r)
    ensures Sorted(s)
  {
    if |r| == 0 then []
    else
      assert r == [r[0]] + r[1..];
      InsertFacts(r[0], SortByCount(r[1..]));
      Insert(r[0], SortByCount(r[1..]))
  }

  /** `value_counts()`: the distinct values with their counts, most frequent first. */
  function ValueCounts(ws: seq<string>): (r: seq<SkillCount>)
    ensures Sorted(r)
    ensures multiset(r) == multiset(Tally(ws))
  {
    SortByCount(Tally(ws))
  }

  /** The table of line 100. */
  function SkillCounts(t: Cleaning.Table): (r: seq<SkillCount>)
    ensures Sorted(r)
  {
    ValueCounts(Tokens(t))
  }

  // ---------------------------------------------------------------------------------------
  // The counts
  // ---------------------------------------------------------------------------------------

  /** The tally counts every value of `ws` by its occurrences, lists exactly the values of
      `ws`, each once and at least once, and its counts add up to `|ws|`. */
  lemma {:induction false} TallyCounts(ws: seq<string>)
    ensures forall x :: CountOf(Tally(ws), x) == Occurrences(ws, x)
    ensures forall x :: Lists(Tally(ws), x) <==> x in ws
    ensures DistinctSkills(Tally(ws)) && Positive(Tally(ws))
    ensures Sum(Tally(ws)) == |ws|
  {
    if |ws| > 0 {
      var init := ws[..|ws| - 1];
      var w := ws[|ws| - 1];
      TallyCounts(init);
      BumpFacts(Tally(init), w);
      assert ws == init + [w];
      assert forall x :: x in ws <==> x in init || x == w;
    }
  }

  /** In a table with distinct skills a row's count is the count of its skill. */
  lemma {:induction false} CountOfAt(r: seq<SkillCount>, i: nat)
    requires i < |r| && DistinctSkills(r)
    ensures CountOf(r, r[i].skill) == r[i].count
  {
    if i > 0 {
      assert r[0].skill != r[i].skill;
      CountOfAt(r[1..], i - 1);
    }
  }

  lemma {:induction false} SumInsert(e: SkillCount, r: seq<SkillCount>)
    ensures Sum(Insert(e, r)) == e.count + Sum(r)
  {
    if |r| > 0 && e.count < r[0].count {
      SumInsert(e, r[1..]);
      assert ([r[0]] + Insert(e, r[1..]))[1..] == Insert(e, r[1..]);
    }
  }

  /** Sorting changes neither the sum of the counts. */
  lemma {:induction false} SumSort(r: seq<SkillCount>)
    ensures Sum(SortByCount(r)) == Sum(r)
  {
    if |r| > 0 {
      SumSort(r[1..]);
      SumInsert(r[0], SortByCount(r[1..]));
    }
  }

  /** Two rows with the same skill and different places give that row twice. */
  lemma Twice(r: seq<SkillCount>, i: nat, j: nat)
    requires i < j < |r| && r[i] == r[j]
    ensures multiset(r)[r[i]] >= 2
  {
    var x := r[i];
    assert r == r[..j] + [r[j]] + r[j + 1..];
    assert x in r[..j];
    assert multiset(r) == multiset(r[..j]) + multiset{x} + multiset(r[j + 1..]);
  }

  /** Sorting keeps exactly the rows it is given. */
  lemma SortMembers(r: seq<SkillCount>)
    ensures forall x :: x in SortByCount(r) <==> x in r
  {
    var s := SortByCount(r);
    forall x
      ensures x in s <==> x in r
    {
      assert x in s <==> x in multiset(s);
      assert x in r <==> x in multiset(r);
    }
  }

  /** Sorting rows with distinct skills keeps them distinct. */
  lemma SortDistinct(r: seq<SkillCount>)
    requires DistinctSkills(r)
    requires forall x, y :: x in r && y in r && x.skill == y.skill ==> x == y
    ensures DistinctSkills(SortByCount(r))
  {
    var s := SortByCount(r);
    SortMembers(r);
    forall i, j | 0 <= i < j < |s|
      ensures s[i].skill != s[j].skill
    {
      if s[i].skill == s[j].skill {
        assert s[i] in r && s[j] in r;
        Twice(s, i, j);
        var k :| 0 <= k < |r| && r[k] == s[i];
        Once(r, k);
        assert false;
      }
    }
  }

  /** Rows with distinct skills agree on a skill only when they are the same row. */
  lemma DistinctRows(r: seq<SkillCount>)
    requires DistinctSkills(r)
    ensures forall x, y :: x in r && y in r && x.skill == y.skill ==> x == y
  {
    forall x, y | x in r && y in r && x.skill == y.skill
      ensures x == y
    {
      var i :| 0 <= i < |r| && r[i] == x;
      var j :| 0 <= j < |r| && r[j] == y;
      assert i == j;
    }
  }

  /** `value_counts()`: most frequent first, each value once, every value listed with its
      number of occurrences, and the counts add up to the number of values. */
  lemma ValueCountsFacts(ws: seq<string>)
    ensures Sorted(ValueCounts(ws))
    ensures forall i :: 0 <= i < |ValueCounts(ws)| ==>
      ValueCounts(ws)[i].count == Occurrences(ws, ValueCounts(ws)[i].skill)
      && ValueCounts(ws)[i].count >= 1
    ensures DistinctSkills(ValueCounts(ws))
    ensures forall w :: w in ws <==> Lists(ValueCounts(ws), w)
    ensures Sum(ValueCounts(ws)) == |ws|
  {
    var tally := Tally(ws);
    var s := ValueCounts(ws);
    TallyCounts(ws);
    SumSort(tally);
    SortMembers(tally);
    DistinctRows(tally);
    SortDistinct(tally);
    forall i | 0 <= i < |s|
      ensures s[i].count == Occurrences(ws, s[i].skill) && s[i].count >= 1
    {
      assert s[i] in tally;
      var k :| 0 <= k < |tally| && tally[k] == s[i];
      CountOfAt(tally, k);
    }
    forall w
      ensures w in ws <==> Lists(s, w)
    {
      if Lists(tally, w) {
        var k :| 0 <= k < |tally| && tally[k].skill == w;
        assert tally[k] in s;
      }
      if Lists(s, w) {
        var i :| 0 <= i < |s| && s[i].skill == w;
        assert s[i] in tally;
      }
    }
  }

  /** The skills table counts every piece of every present skills text by its number of
      occurrences, most frequent first, each once; the counts add up to the number of
      pieces. */
  lemma SkillCountsFacts(t: Cleaning.Table)
    ensures Sorted(SkillCounts(t))
    ensures forall i :: 0 <= i < |SkillCounts(t)| ==>
      SkillCounts(t)[i].count == Occurrences(Tokens(t), SkillCounts(t)[i].skill)
      && SkillCounts(t)[i].count >= 1
    ensures DistinctSkills(SkillCounts(t))
    ensures forall w :: w in Tokens(t) <==> Lists(SkillCounts(t), w)
    ensures Sum(SkillCounts(t)) == |Tokens(t)|
  {
    ValueCountsFacts(Tokens(t));
  }

  /** A row of a table with distinct skills occurs once. */
  lemma {:induction false} Once(r: seq<SkillCount>, k: nat)
    requires k < |r| && DistinctSkills(r)
    ensures multiset(r)[r[k]] == 1
  {
    var x := r[k];
    assert r == r[..k] + [x] + r[k + 1..];
    assert x !in r[..k] by {
      forall i | 0 <= i < k
        ensures r[..k][i] != x
      {
        assert r[i].skill != r[k].skill;
      }
    }
    assert x !in r[k + 1..] by {
      forall j | k < j < |r|
        ensures r[j] != x
      {
        assert r[k].skill != r[j].skill;
      }
    }
    assert multiset(r) == multiset(r[..k]) + multiset{x} + multiset(r[k + 1..]);
  }

  // ---------------------------------------------------------------------------------------
  // The pieces
  // ---------------------------------------------------------------------------------------

  /** Every piece is a stripped comma-free part of its text, and a text yields one piece per
      comma-separated part. */
  lemma PiecesShape(s: string)
    ensures |Pieces(s)| == |Text.Split(s, ',')| >= 1
    ensures forall k :: 0 <= k < |Pieces(s)| ==>
      Pieces(s)[k] == Text.Strip(Text.Split(s, ',')[k]) && Text.Strip(Pieces(s)[k]) == Pieces(s)[k]
  {
    forall k | 0 <= k < |Pieces(s)|
      ensures Pieces(s)[k] == Text.Strip(Text.Split(s, ',')[k])
      ensures Text.Strip(Pieces(s)[k]) == Pieces(s)[k]
    {
      StripAllAt(Text.Split(s, ','), k);
      Text.StripIdempotent(Text.Split(s, ',')[k]);
    }
  }

  /** Every member of every list is in the flattened list. */
  lemma {:induction false} FlattenHas<L>(ls: seq<seq<L>>, i: nat, w: L)
    requires i < |ls| && w in ls[i]
    ensures w in Batching.Flatten(ls)
  {
    var init := ls[..|ls| - 1];
    assert Batching.Flatten(ls) == Batching.Flatten(init) + ls[|ls| - 1];
    if i < |init| {
      assert init[i] == ls[i];
      FlattenHas(init, i, w);
    }
  }

  /** A member of the flattened list comes from one of the lists. */
  lemma {:induction false} FlattenFrom<L>(ls: seq<seq<L>>, w: L)
    requires w in Batching.Flatten(ls)
    ensures exists i :: 0 <= i < |ls| && w in ls[i]
  {
    var init := ls[..|ls| - 1];
    assert Batching.Flatten(ls) == Batching.Flatten(init) + ls[|ls| - 1];
    if w in Batching.Flatten(init) {
      FlattenFrom(init, w);
      var i :| 0 <= i < |init| && w in init[i];
      assert init[i] == ls[i];
    } else {
      assert w in ls[|ls| - 1];
    }
  }

  /** Lists that are never empty flatten to at least one member each. */
  lemma {:induction false} FlattenLength<L>(ls: seq<seq<L>>)
    requires forall i :: 0 <= i < |ls| ==> |ls[i]| >= 1
    ensures |Batching.Flatten(ls)| >= |ls|
  {
    if |ls| > 0 {
      FlattenLength(ls[..|ls| - 1]);
    }
  }

  /** `w` is a stripped comma-separated piece of the row's skills text. */
  predicate PieceOf(r: Cleaning.Row, w: string)
  {
    r.skillsRequirements.Some? && w in Pieces(r.skillsRequirements.value)
  }

  /** The tokens of a table are exactly the stripped comma-separated pieces of its present
      skills texts. */
  lemma TokenOrigin(t: Cleaning.Table, w: string)
    ensures w in Tokens(t) <==> exists i :: 0 <= i < |t| && PieceOf(t[i], w)
  {
    var rows := PieceRows(t);
    if w in Tokens(t) {
      FlattenFrom(rows, w);
      var i :| 0 <= i < |rows| && w in rows[i];
      assert rows[i] == CellTokens(t[i].skillsRequirements);
    }
    if i :| 0 <= i < |t| && PieceOf(t[i], w) {
      assert rows[i] == CellTokens(t[i].skillsRequirements);
      FlattenHas(rows, i, w);
    }
  }

  /** Once the cleaner has dropped the rows without skills, the skills table counts at least
      one token per row. */
  lemma TokensOfCleaned(t: Cleaning.Table)
    requires Cleaning.Settled(t, "skills_requirements")
    ensures Sum(SkillCounts(t)) >= |t|
  {
    var rows := PieceRows(t);
    forall i | 0 <= i < |rows|
      ensures |rows[i]| >= 1
    {
      assert Cleaning.RowSettled(t[i], "skills_requirements");
      PiecesShape(t[i].skillsRequirements.value);
    }
    FlattenLength(rows);
    SkillCountsFacts(t);
  }

  // ---------------------------------------------------------------------------------------
  // Round trip with the scraper's join
  // ---------------------------------------------------------------------------------------

  /** `", ".join(skills)` of the scraper. */
  function CommaJoin(xs: seq<string>): string
  {
    if |xs| == 0 then "" else if |xs| == 1 then xs[0] else xs[0] + ", " + CommaJoin(xs[1..])
  }

  /** Each part after the first carries the space of the `", "` separator. */
  function Spaced(xs: seq<string>): seq<string>
  {
    seq(|xs|, k requires 0 <= k < |xs| => if k == 0 then xs[0] else " " + xs[k])
  }

  lemma {:induction false} CommaJoinSpaced(xs: seq<string>)
    ensures CommaJoin(xs) == Text.Join(Spaced(xs), ',')
  {
    if |xs| > 1 {
      CommaJoinSpaced(xs[1..]);
      var rest := Spaced(xs[1..]);
      assert Spaced(xs)[1..] == [" " + rest[0]] + rest[1..];
      SpacedJoin(xs[1..]);
    }
  }

  /** A leading space in front of the first part joins to the same text as a separator's
      space would. */
  lemma SpacedJoin(xs: seq<string>)
    requires |xs| >= 1
    ensures Text.Join([" " + Spaced(xs)[0]] + Spaced(xs)[1..], ',') == " " + Text.Join(Spaced(xs), ',')
  {
    var p := Spaced(xs);
    var q := [" " + p[0]] + p[1..];
    if |xs| > 1 {
      assert q[1..] == p[1..];
    }
  }

  /** A skill as the scraper collects it: non-empty, stripped, without a comma. */
  predicate CleanSkill(x: string)
  {
    |x| > 0 && !Text.IsSpace(x[0]) && !Text.IsSpace(x[|x| - 1]) && ',' !in x
  }

  /** Stripping a skill behind the space of a separator gives the skill. */
  lemma StripSpaced(before: string, x: string)
    requires before == "" || before == " "
    requires CleanSkill(x)
    ensures Text.Strip(before + x) == x
  {
    Text.TrimStartPrefix(before, x);
    assert x + "" == x;
    Text.TrimEndSuffix(x, "");
  }

  /** Splitting the joined skills gives each skill, behind a space after the first. */
  lemma SplitCommaJoin(xs: seq<string>)
    requires |xs| >= 1
    requires forall k :: 0 <= k < |xs| ==> CleanSkill(xs[k])
    ensures Text.Split(CommaJoin(xs), ',') == Spaced(xs)
  {
    var p := Spaced(xs);
    CommaJoinSpaced(xs);
    forall k | 0 <= k < |p|
      ensures ',' !in p[k]
    {
      assert CleanSkill(xs[k]);
    }
    Text.SplitJoin(p, ',');
  }

  /** Stripping each spaced skill gives the skills. */
  lemma StripSpacedAll(xs: seq<string>)
    requires forall k :: 0 <= k < |xs| ==> CleanSkill(xs[k])
    ensures StripAll(Spaced(xs)) == xs
  {
    var p := Spaced(xs);
    var r := StripAll(p);
    forall k | 0 <= k < |xs|
      ensures r[k] == xs[k]
    {
      StripAllAt(p, k);
      StripSpaced(if k == 0 then "" else " ", xs[k]);
    }
  }

  /** The pieces of a joined list of skills are the skills again. */
  lemma JoinedSkillsRoundTrip(xs: seq<string>)
    requires |xs| >= 1
    requires forall k :: 0 <= k < |xs| ==> CleanSkill(xs[k])
    ensures Pieces(CommaJoin(xs)) == xs
  {
    SplitCommaJoin(xs);
    StripSpacedAll(xs);
  }
}
