/** The cleaning step of the pipeline (utils/Cleaning_and_storing.py): which columns of the
    scraped table hold missing values, and the per-column rules that drop or fill them. A
    table is a sequence of records in row order; a cell that pandas would read as NaN is
    `None`. */
module Cleaning {
  import opened Wrappers
  import Salary

  /** One scraped record, with the columns of the CSV file in their order. The salary bounds
      are whole rupiah amounts; every other cell is text. */
  datatype Row = Row(
    jobName: Option<string>,
    jobType: Option<string>,
    salaryRange: Option<string>,
    salaryMin: Option<nat>,
    salaryMax: Option<nat>,
    skillsRequirements: Option<string>,
    educationRequirements: Option<string>,
    experienceRequirements: Option<string>,
    anotherRequirements: Option<string>,
    province: Option<string>,
    city: Option<string>,
    district: Option<string>,
    companyName: Option<string>,
    companyIndustry: Option<string>,
    companySize: Option<string>,
    lastPost: Option<string>,
    postTime: Option<string>,
    obtained: Option<string>,
    url: Option<string>)

  type Table = seq<Row>

  datatype Column =
    | JobName | JobType | SalaryRange | SalaryMin | SalaryMax | SkillsRequirements
    | EducationRequirements | ExperienceRequirements | AnotherRequirements | Province | City
    | District | CompanyName | CompanyIndustry | CompanySize | LastPost | PostTime | Obtained
    | Url

  /** The columns in the order of the table. */
  const Schema: seq<Column> := [
    JobName, JobType, SalaryRange, SalaryMin, SalaryMax, SkillsRequirements,
    EducationRequirements, ExperienceRequirements, AnotherRequirements, Province, City,
    District, CompanyName, CompanyIndustry, CompanySize, LastPost, PostTime, Obtained, Url]

  /** The place of a column in the table; every column has one. */
  function Position(c: Column): (k: nat)
    ensures k < |Schema| && Schema[k] == c
  {
    match c
    case JobName => 0
    case JobType => 1
    case SalaryRange => 2
    case SalaryMin => 3
    case SalaryMax => 4
    case SkillsRequirements => 5
    case EducationRequirements => 6
    case ExperienceRequirements => 7
    case AnotherRequirements => 8
    case Province => 9
    case City => 10
    case District => 11
    case CompanyName => 12
    case CompanyIndustry => 13
    case CompanySize => 14
    case LastPost => 15
    case PostTime => 16
    case Obtained => 17
    case Url => 18
  }

  /** The column's header in the CSV file. */
  function Name(c: Column): string
  {
    match c
    case JobName => "job_name"
    case JobType => "job_type"
    case SalaryRange => "salary_range"
    case SalaryMin => "salary_min"
    case SalaryMax => "salary_max"
    case SkillsRequirements => "skills_requirements"
    case EducationRequirements => "education_requirements"
    case ExperienceRequirements => "experience_requirements"
    case AnotherRequirements => "another_requirements"
    case Province => "province"
    case City => "city"
    case District => "district"
    case CompanyName => "company_name"
    case CompanyIndustry => "company_industry"
    case CompanySize => "company_size"
    case LastPost => "last_post"
    case PostTime => "post_time"
    case Obtained => "obtained"
    case Url => "url"
  }

  /** The column a CSV header names, if any, looked up by the header's first letter. */
  function ColumnNamed(name: string): Option<Column>
  {
    if |name| == 0 then None
    else match name[0]
      case 'j' => if name == "job_name" then Some(JobName)
                  else if name == "job_type" then Some(JobType) else None
      case 's' => if name == "salary_range" then Some(SalaryRange)
                  else if name == "salary_min" then Some(SalaryMin)
                  else if name == "salary_max" then Some(SalaryMax)
                  else if name == "skills_requirements" then Some(SkillsRequirements) else None
      case 'e' => if name == "education_requirements" then Some(EducationRequirements)
                  else if name == "experience_requirements" then Some(ExperienceRequirements) else None
      case 'a' => if name == "another_requirements" then Some(AnotherRequirements) else None
      case 'p' => if name == "province" then Some(Province)
                  else if name == "post_time" then Some(PostTime) else None
      case 'c' => if name == "city" then Some(City)
                  else if name == "company_name" then Some(CompanyName)
                  else if name == "company_industry" then Some(CompanyIndustry)
                  else if name == "company_size" then Some(CompanySize) else None
      case 'd' => if name == "district" then Some(District) else None
      case 'l' => if name == "last_post" then Some(LastPost) else None
      case 'o' => if name == "obtained" then Some(Obtained) else None
      case 'u' => if name == "url" then Some(Url) else None
      case _ => None
  }

  /** Every header names its own column, so different columns have different headers. */
  lemma NameColumn(c: Column)
    ensures ColumnNamed(Name(c)) == Some(c)
  {
  }

  /** `isna()` of one cell. */
  predicate IsMissing(r: Row, c: Column)
  {
    match c
    case JobName => r.jobName.None?
    case JobType => r.jobType.None?
    case SalaryRange => r.salaryRange.None?
    case SalaryMin => r.salaryMin.None?
    case SalaryMax => r.salaryMax.None?
    case SkillsRequirements => r.skillsRequirements.None?
    case EducationRequirements => r.educationRequirements.None?
    case ExperienceRequirements => r.experienceRequirements.None?
    case AnotherRequirements => r.anotherRequirements.None?
    case Province => r.province.None?
    case City => r.city.None?
    case District => r.district.None?
    case CompanyName => r.companyName.None?
    case CompanyIndustry => r.companyIndustry.None?
    case CompanySize => r.companySize.None?
    case LastPost => r.lastPost.None?
    case PostTime => r.postTime.None?
    case Obtained => r.obtained.None?
    case Url => r.url.None?
  }

  /** The column's NaN count is positive. */
  predicate HasMissing(t: Table, c: Column)
  {
    exists i :: 0 <= i < |t| && IsMissing(t[i], c)
  }

  // ---------------------------------------------------------------------------------------
  // cek_nan
  // ---------------------------------------------------------------------------------------

  /** The columns of `cols` whose NaN count is positive, in the order of `cols`. */
  function MissingIn(t: Table, cols: seq<Column>): (r: seq<Column>)
    ensures forall c :: c in r <==> c in cols && HasMissing(t, c)
    ensures |r| <= |cols|
  {
    if |cols| == 0 then []
    else
      var last := cols[|cols| - 1];
      MissingIn(t, cols[..|cols| - 1]) + (if HasMissing(t, last) then [last] else [])
  }

  /** Strictly increasing table positions: a sub-list of the columns in table order. */
  predicate InTableOrder(cols: seq<Column>)
  {
    forall i, j :: 0 <= i < j < |cols| ==> Position(cols[i]) < Position(cols[j])
  }

  function MissingColumns(t: Table): seq<Column>
  {
    MissingIn(t, Schema)
  }

  /** `cek_nan`: a name is reported exactly when it heads a column holding a NaN; each names a
      column, and the names follow the order of the table, so none is reported twice. */
  function CekNan(t: Table): (names: seq<string>)
    ensures forall n :: n in names <==> exists c :: Name(c) == n && HasMissing(t, c)
    ensures forall i :: 0 <= i < |names| ==> ColumnNamed(names[i]).Some?
    ensures forall i, j :: 0 <= i < j < |names| ==>
      Position(ColumnNamed(names[i]).value) < Position(ColumnNamed(names[j]).value)
  {
    var m := MissingColumns(t);
    var names := seq(|m|, i requires 0 <= i < |m| => Name(m[i]));
    CekNanColumns(t);
    NamesOf(m, names);
    names
  }

  /** The headers of a list of columns: each names its column, and a header is listed exactly
      when its column is. */
  lemma NamesOf(m: seq<Column>, names: seq<string>)
    requires |names| == |m|
    requires forall i :: 0 <= i < |m| ==> names[i] == Name(m[i])
    ensures forall i :: 0 <= i < |names| ==> ColumnNamed(names[i]) == Some(m[i])
    ensures forall n :: n in names <==> exists c :: Name(c) == n && c in m
  {
    forall i | 0 <= i < |names|
      ensures ColumnNamed(names[i]) == Some(m[i])
    {
      NameColumn(m[i]);
    }
    forall n
      ensures n in names <==> exists c :: Name(c) == n && c in m
    {
      if n in names {
        var i :| 0 <= i < |names| && names[i] == n;
        assert Name(m[i]) == n && m[i] in m;
      }
      if c :| Name(c) == n && c in m {
        var i :| 0 <= i < |m| && m[i] == c;
        assert names[i] == n;
      }
    }
  }

  lemma {:induction false} MissingInOrder(t: Table, cols: seq<Column>)
    requires InTableOrder(cols)
    ensures InTableOrder(MissingIn(t, cols))
  {
    if |cols| > 0 {
      var init := cols[..|cols| - 1];
      var last := cols[|cols| - 1];
      MissingInOrder(t, init);
      var p := MissingIn(t, init);
      assert forall k :: 0 <= k < |p| ==> Position(p[k]) < Position(last) by {
        forall k | 0 <= k < |p|
          ensures Position(p[k]) < Position(last)
        {
          assert p[k] in init;
          var j :| 0 <= j < |init| && init[j] == p[k];
          assert cols[j] == p[k];
        }
      }
    }
  }

  /** Every column of the table sits at its own place. */
  lemma SchemaPositions()
    ensures forall k :: 0 <= k < |Schema| ==> Position(Schema[k]) == k
  {
  }

  lemma SchemaOrder()
    ensures InTableOrder(Schema)
  {
    SchemaPositions();
  }

  /** `cek_nan` lists exactly the columns with a positive NaN count, each once, in the
      order of the table. */
  lemma CekNanColumns(t: Table)
    ensures forall c :: c in MissingColumns(t) <==> HasMissing(t, c)
    ensures InTableOrder(MissingColumns(t))
  {
    forall c
      ensures c in MissingColumns(t) <==> HasMissing(t, c)
    {
      assert Schema[Position(c)] == c;
    }
    SchemaOrder();
    MissingInOrder(t, Schema);
  }

  /** A table without a NaN yields the empty list, and only such a table does. */
  lemma CekNanEmpty(t: Table)
    ensures CekNan(t) == [] <==> forall c :: !HasMissing(t, c)
  {
    if CekNan(t) == [] {
      forall c
        ensures !HasMissing(t, c)
      {
        assert Name(c) !in CekNan(t);
      }
    } else {
      assert CekNan(t)[0] in CekNan(t);
    }
  }

  // ---------------------------------------------------------------------------------------
  // The rules of cleaning_nan
  // ---------------------------------------------------------------------------------------

  const OtherRequirementsDefault := "No other requirements"
  const IndustryDefault := "Unspecified"

  /** `dropna(subset=['skills_requirements'])`: the rows with a skills text, in order. */
  function DropMissingSkills(t: Table): (r: Table)
    ensures |r| <= |t|
    ensures forall x :: x in r <==> x in t && x.skillsRequirements.Some?
  {
    if |t| == 0 then []
    else
      var last := t[|t| - 1];
      DropMissingSkills(t[..|t| - 1]) + (if last.skillsRequirements.Some? then [last] else [])
  }

  /** The two salary bound columns. */
  datatype Side = Low | High

  function SalaryOf(r: Row, which: Side): Option<nat>
  {
    match which
    case Low => r.salaryMin
    case High => r.salaryMax
  }

  function WithSalary(r: Row, which: Side, v: Option<nat>): Row
  {
    match which
    case Low => r.(salaryMin := v)
    case High => r.(salaryMax := v)
  }

  /** `str.extract(r'IDR([\d\.]+)\/Bulan')[0].str.replace('.', '').astype(float)` of one
      salary text; a NaN text stays NaN. */
  function SingleBound(range: Option<string>): Salary.Bound
  {
    match range
    case None => Salary.Missing
    case Some(s) => Salary.Extract(Salary.SingleMonthly, s)
  }

  /** The first assignment: a missing bound of a row whose range reads `Unspecified` is 0. */
  function ZeroUnspecified(value: Option<nat>, range: Option<string>): Option<nat>
  {
    if value.None? && range == Some("Unspecified") then Some(0) else value
  }

  /** `fillna` by the single monthly amount. */
  function FillFrom(value: Option<nat>, b: Salary.Bound): Option<nat>
  {
    if value.Some? then value
    else if b.Amount? then Some(b.value)
    else None
  }

  function ZeroColumn(t: Table, which: Side): (z: Table)
    ensures |z| == |t|
    ensures forall i :: 0 <= i < |t| ==> z[i].salaryRange == t[i].salaryRange
  {
    seq(|t|, i requires 0 <= i < |t| =>
      WithSalary(t[i], which, ZeroUnspecified(SalaryOf(t[i], which), t[i].salaryRange)))
  }

  function FillColumn(t: Table, which: Side): (f: Table)
    ensures |f| == |t|
  {
    seq(|t|, i requires 0 <= i < |t| =>
      WithSalary(t[i], which, FillFrom(SalaryOf(t[i], which), SingleBound(t[i].salaryRange))))
  }

  /** `astype(float)` runs over the whole column and raises when any captured group holds
      separators only. */
  predicate CastFails(t: Table)
  {
    exists i :: 0 <= i < |t| && SingleBound(t[i].salaryRange) == Salary.Unparsable
  }

  /** The two statements of the `salary_min` (or `salary_max`) branch; `None` is the
      `ValueError` that ends the run. */
  function SalaryRule(t: Table, which: Side): Option<Table>
  {
    var z := ZeroColumn(t, which);
    if CastFails(z) then None else Some(FillColumn(z, which))
  }

  function FillAnother(t: Table): (r: Table)
    ensures |r| == |t|
  {
    seq(|t|, i requires 0 <= i < |t| =>
      t[i].(anotherRequirements := Some(t[i].anotherRequirements.GetOr(OtherRequirementsDefault))))
  }

  function FillIndustry(t: Table): (r: Table)
    ensures |r| == |t|
  {
    seq(|t|, i requires 0 <= i < |t| =>
      t[i].(companyIndustry := Some(t[i].companyIndustry.GetOr(IndustryDefault))))
  }

  /** The branch of the loop body for one listed name; a name without a branch changes
      nothing. Only the salary branches can fail. */
  function ApplyRule(t: Table, name: string): (r: Option<Table>)
    ensures r.Some? ==> |r.value| <= |t|
    ensures r.None? ==> (name == "salary_min" || name == "salary_max") && CastFails(t)
  {
    if name == "skills_requirements" then Some(DropMissingSkills(t))
    else if name == "salary_min" then SalaryRule(t, Low)
    else if name == "salary_max" then SalaryRule(t, High)
    else if name == "another_requirements" then Some(FillAnother(t))
    else if name == "company_industry" then Some(FillIndustry(t))
    else Some(t)
  }

  /** The loop of `cleaning_nan` as a fold over the listed names. */
  function Clean(t: Table, names: seq<string>): Option<Table>
  {
    if |names| == 0 then Some(t)
    else
      match Clean(t, names[..|names| - 1])
      case None => None
      case Some(u) => ApplyRule(u, names[|names| - 1])
  }

  /** `cleaning_nan`: the rules for the listed names, one after the other, on a copy of the
      table; `None` when a salary cast fails. */
  method CleaningNan(df: Table, listNa: seq<string>) returns (r: Option<Table>)
    ensures r == Clean(df, listNa)
  {
    var cur := df;
    var k := 0;
    while k < |listNa|
      invariant 0 <= k <= |listNa|
      invariant Clean(df, listNa[..k]) == Some(cur)
    {
      CleanStep(df, listNa, k, cur);
      var next := ApplyRule(cur, listNa[k]);
      if next.None? {
        CleanFailed(df, listNa, k + 1);
        return None;
      }
      cur := next.value;
      k := k + 1;
    }
    assert listNa[..k] == listNa;
    return Some(cur);
  }

  /** One more name applies its rule to the table cleaned so far. */
  lemma CleanStep(t: Table, names: seq<string>, k: nat, cur: Table)
    requires k < |names| && Clean(t, names[..k]) == Some(cur)
    ensures Clean(t, names[..k + 1]) == ApplyRule(cur, names[k])
  {
    assert names[..k + 1][..k] == names[..k];
  }

  /** Once a prefix of the names fails, the whole run fails. */
  lemma {:induction false} CleanFailed(t: Table, names: seq<string>, k: nat)
    requires k <= |names|
    requires Clean(t, names[..k]).None?
    ensures Clean(t, names).None?
    decreases |names| - k
  {
    if k < |names| {
      assert names[..k + 1][..k] == names[..k];
      CleanFailed(t, names, k + 1);
    } else {
      assert names[..k] == names;
    }
  }

  // ---------------------------------------------------------------------------------------
  // What each rule does
  // ---------------------------------------------------------------------------------------

  /** Dropping keeps the surviving rows in their order: it works piece by piece. */
  lemma {:induction false} DropAppend(a: Table, b: Table)
    ensures DropMissingSkills(a + b) == DropMissingSkills(a) + DropMissingSkills(b)
    decreases |b|
  {
    if |b| > 0 {
      var b' := b[..|b| - 1];
      assert (a + b)[..|a + b| - 1] == a + b';
      DropAppend(a, b');
    } else {
      assert a + b == a;
    }
  }

  /** A table whose skills are all present loses no row. */
  lemma {:induction false} DropNothing(t: Table)
    requires forall i :: 0 <= i < |t| ==> t[i].skillsRequirements.Some?
    ensures DropMissingSkills(t) == t
  {
    if |t| > 0 {
      DropNothing(t[..|t| - 1]);
      assert t[..|t| - 1] + [t[|t| - 1]] == t;
    }
  }

  /** The salary branch fails exactly when some salary text captures separators only; else
      each row keeps every cell but the bound, a present bound is kept, a missing bound is 0
      for an `Unspecified` range and the single monthly amount where one is written. */
  lemma SalaryRuleEffect(t: Table, which: Side, i: nat)
    requires i < |t|
    ensures SalaryRule(t, which).None? <==> CastFails(t)
    ensures SalaryRule(t, which).Some? ==>
      var r := SalaryRule(t, which).value;
      && |r| == |t|
      && WithSalary(r[i], which, SalaryOf(t[i], which)) == t[i]
      && (SalaryOf(t[i], which).Some? ==> SalaryOf(r[i], which) == SalaryOf(t[i], which))
      && (SalaryOf(t[i], which).None? && t[i].salaryRange == Some("Unspecified") ==>
            SalaryOf(r[i], which) == Some(0))
      && (SalaryOf(t[i], which).None? && t[i].salaryRange != Some("Unspecified") ==>
            SalaryOf(r[i], which) ==
              (if SingleBound(t[i].salaryRange).Amount?
               then Some(SingleBound(t[i].salaryRange).value) else None))
  {
    var z := ZeroColumn(t, which);
    assert CastFails(z) <==> CastFails(t) by {
      assert forall k :: 0 <= k < |t| ==> z[k].salaryRange == t[k].salaryRange;
    }
  }

  /** A bound missing from a written range stays missing: the cleaner only reads a single
      monthly amount, and a range is not one. */
  lemma RangeStaysMissing(t: Table, which: Side, i: nat, lo: string, sp1: string,
                          sp2: string, hi: string)
    requires i < |t| && SalaryOf(t[i], which).None?
    requires t[i].salaryRange.Some?
    requires Salary.RangeText(t[i].salaryRange.value, lo, sp1, sp2, hi, "/Bulan")
    requires SalaryRule(t, which).Some?
    ensures SalaryOf(SalaryRule(t, which).value[i], which).None?
  {
    var s := t[i].salaryRange.value;
    Salary.RangeIsNotSingle(s, lo, sp1, sp2, hi);
    assert s != "Unspecified" by {
      assert s[..3] == "IDR";
    }
    SalaryRuleEffect(t, which, i);
  }

  /** The two fill rules keep present texts and every other cell, and fill the rest. */
  lemma FillEffect(t: Table, i: nat)
    requires i < |t|
    ensures FillAnother(t)[i].(anotherRequirements := t[i].anotherRequirements) == t[i]
    ensures t[i].anotherRequirements.Some? ==>
              FillAnother(t)[i].anotherRequirements == t[i].anotherRequirements
    ensures t[i].anotherRequirements.None? ==>
              FillAnother(t)[i].anotherRequirements == Some("No other requirements")
    ensures FillIndustry(t)[i].(companyIndustry := t[i].companyIndustry) == t[i]
    ensures t[i].companyIndustry.Some? ==>
              FillIndustry(t)[i].companyIndustry == t[i].companyIndustry
    ensures t[i].companyIndustry.None? ==>
              FillIndustry(t)[i].companyIndustry == Some("Unspecified")
  {
  }

  /** A name without a branch of its own leaves the table as it is. */
  lemma UnknownNameKeeps(t: Table, name: string)
    requires name != "skills_requirements" && name != "salary_min" && name != "salary_max"
    requires name != "another_requirements" && name != "company_industry"
    ensures ApplyRule(t, name) == Some(t)
  {
  }

  // ---------------------------------------------------------------------------------------
  // Settled columns and idempotence
  // ---------------------------------------------------------------------------------------

  /** The salary bound is as the salary branch leaves it. */
  predicate SalarySettled(r: Row, which: Side)
  {
    && SingleBound(r.salaryRange) != Salary.Unparsable
    && (SalaryOf(r, which).None? ==>
          r.salaryRange != Some("Unspecified") && !SingleBound(r.salaryRange).Amount?)
  }

  /** The row is as the branch for `name` leaves it. */
  predicate RowSettled(r: Row, name: string)
  {
    if name == "skills_requirements" then r.skillsRequirements.Some?
    else if name == "salary_min" then SalarySettled(r, Low)
    else if name == "salary_max" then SalarySettled(r, High)
    else if name == "another_requirements" then r.anotherRequirements.Some?
    else if name == "company_industry" then r.companyIndustry.Some?
    else true
  }

  predicate Settled(t: Table, name: string)
  {
    forall i :: 0 <= i < |t| ==> RowSettled(t[i], name)
  }

  /** Every missing cell of `a` is missing in `b`. */
  predicate NoNewMissing(a: Row, b: Row)
  {
    forall c :: IsMissing(a, c) ==> IsMissing(b, c)
  }

  /** A rule settles its own column. */
  lemma RuleSettles(t: Table, name: string)
    requires ApplyRule(t, name).Some?
    ensures Settled(ApplyRule(t, name).value, name)
  {
    var r := ApplyRule(t, name).value;
    if name == "salary_min" || name == "salary_max" {
      var which := if name == "salary_min" then Low else High;
      forall i | 0 <= i < |r|
        ensures RowSettled(r[i], name)
      {
        SalaryRuleEffect(t, which, i);
        assert SingleBound(t[i].salaryRange) != Salary.Unparsable;
      }
    } else if name == "skills_requirements" {
      forall i | 0 <= i < |r|
        ensures RowSettled(r[i], name)
      {
        assert r[i] in r;
      }
    }
  }

  /** A rule whose column is settled changes nothing. */
  lemma SettledFixed(t: Table, name: string)
    requires Settled(t, name)
    ensures ApplyRule(t, name) == Some(t)
  {
    if name == "skills_requirements" {
      DropNothing(t);
    } else if name == "salary_min" || name == "salary_max" {
      var which := if name == "salary_min" then Low else High;
      var z := ZeroColumn(t, which);
      assert z == t by {
        forall i | 0 <= i < |t|
          ensures z[i] == t[i]
        {
          assert RowSettled(t[i], name);
        }
      }
      assert !CastFails(z) by {
        forall i | 0 <= i < |t|
          ensures SingleBound(t[i].salaryRange) != Salary.Unparsable
        {
          assert RowSettled(t[i], name);
        }
      }
      assert FillColumn(z, which) == t by {
        forall i | 0 <= i < |t|
          ensures FillColumn(z, which)[i] == t[i]
        {
          assert RowSettled(t[i], name);
        }
      }
    } else if name == "another_requirements" {
      assert FillAnother(t) == t by {
        forall i | 0 <= i < |t|
          ensures FillAnother(t)[i] == t[i]
        {
          assert RowSettled(t[i], name);
        }
      }
    } else if name == "company_industry" {
      assert FillIndustry(t) == t by {
        forall i | 0 <= i < |t|
          ensures FillIndustry(t)[i] == t[i]
        {
          assert RowSettled(t[i], name);
        }
      }
    }
  }

  /** The rule for one name keeps every row settled for another name as it was. */
  lemma RuleKeepsSettled(t: Table, m: string, n: string)
    requires ApplyRule(t, m).Some? && Settled(t, n)
    ensures Settled(ApplyRule(t, m).value, n)
  {
    var r := ApplyRule(t, m).value;
    if m == n {
      RuleSettles(t, m);
    } else if m == "skills_requirements" {
      forall i | 0 <= i < |r|
        ensures RowSettled(r[i], n)
      {
        assert r[i] in r;
        var j :| 0 <= j < |t| && t[j] == r[i];
        assert RowSettled(t[j], n);
      }
    } else if m == "salary_min" || m == "salary_max" {
      var which := if m == "salary_min" then Low else High;
      forall i | 0 <= i < |r|
        ensures RowSettled(r[i], n)
      {
        SalaryRuleEffect(t, which, i);
        assert RowSettled(t[i], n);
      }
    } else if m == "another_requirements" {
      forall i | 0 <= i < |r|
        ensures RowSettled(r[i], n)
      {
        assert RowSettled(t[i], n);
      }
    } else if m == "company_industry" {
      forall i | 0 <= i < |r|
        ensures RowSettled(r[i], n)
      {
        assert RowSettled(t[i], n);
      }
    }
  }

  /** No rule brings a NaN into a column. */
  lemma RuleNoNewMissing(t: Table, name: string, c: Column)
    requires ApplyRule(t, name).Some?
    requires HasMissing(ApplyRule(t, name).value, c)
    ensures HasMissing(t, c)
  {
    var r := ApplyRule(t, name).value;
    var i :| 0 <= i < |r| && IsMissing(r[i], c);
    if name == "skills_requirements" {
      assert r[i] in r;
      var j :| 0 <= j < |t| && t[j] == r[i];
    } else if name == "salary_min" || name == "salary_max" {
      var which := if name == "salary_min" then Low else High;
      SalaryRuleEffect(t, which, i);
      assert IsMissing(t[i], c);
    } else if name == "another_requirements" || name == "company_industry" {
      FillEffect(t, i);
      assert IsMissing(t[i], c);
    }
  }

  /** A run settles every listed name. */
  lemma {:induction false} CleanSettles(t: Table, names: seq<string>)
    requires Clean(t, names).Some?
    ensures forall n :: n in names ==> Settled(Clean(t, names).value, n)
  {
    if |names| > 0 {
      var init := names[..|names| - 1];
      var last := names[|names| - 1];
      CleanSettles(t, init);
      var u := Clean(t, init).value;
      forall n | n in names
        ensures Settled(Clean(t, names).value, n)
      {
        if n == last {
          RuleSettles(u, last);
        } else {
          assert n in init;
          RuleKeepsSettled(u, last, n);
        }
      }
    }
  }

  /** A run brings no NaN into any column. */
  lemma {:induction false} CleanNoNewMissing(t: Table, names: seq<string>, c: Column)
    requires Clean(t, names).Some?
    requires HasMissing(Clean(t, names).value, c)
    ensures HasMissing(t, c)
  {
    if |names| > 0 {
      var init := names[..|names| - 1];
      var u := Clean(t, init).value;
      RuleNoNewMissing(u, names[|names| - 1], c);
      CleanNoNewMissing(t, init, c);
    }
  }

  /** A table settled for every listed name comes back unchanged. */
  lemma {:induction false} CleanFixed(t: Table, names: seq<string>)
    requires forall n :: n in names ==> Settled(t, n)
    ensures Clean(t, names) == Some(t)
  {
    if |names| > 0 {
      var init := names[..|names| - 1];
      assert forall n :: n in init ==> n in names;
      CleanFixed(t, init);
      SettledFixed(t, names[|names| - 1]);
    }
  }

  /** Cleaning with the same names twice is cleaning once. */
  lemma CleanIdempotent(t: Table, names: seq<string>)
    requires Clean(t, names).Some?
    ensures Clean(Clean(t, names).value, names) == Clean(t, names)
  {
    CleanSettles(t, names);
    CleanFixed(Clean(t, names).value, names);
  }

  /** Running the pipeline's own pair `cleaning_nan(df, cek_nan(df))` on its result changes
      nothing: the columns still holding a NaN were all listed the first time. */
  lemma CleanedStaysClean(t: Table)
    requires Clean(t, CekNan(t)).Some?
    ensures Clean(Clean(t, CekNan(t)).value, CekNan(Clean(t, CekNan(t)).value))
            == Clean(t, CekNan(t))
  {
    var names := CekNan(t);
    var u := Clean(t, names).value;
    CleanSettles(t, names);
    forall n | n in CekNan(u)
      ensures Settled(u, n)
    {
      var c :| Name(c) == n && HasMissing(u, c);
      CleanNoNewMissing(t, names, c);
    }
    CleanFixed(u, CekNan(u));
  }

  /** After a run the listed fill columns hold no NaN, and no row lacks its skills. */
  lemma CleanedColumns(t: Table, names: seq<string>, c: Column)
    requires Clean(t, names).Some?
    requires c in {SkillsRequirements, AnotherRequirements, CompanyIndustry}
    requires Name(c) in names
    ensures !HasMissing(Clean(t, names).value, c)
  {
    CleanSettles(t, names);
    var u := Clean(t, names).value;
    assert Settled(u, Name(c));
    forall i | 0 <= i < |u|
      ensures !IsMissing(u[i], c)
    {
      assert RowSettled(u[i], Name(c));
    }
  }

  // ---------------------------------------------------------------------------------------
  // Columns no listed rule rewrites
  // ---------------------------------------------------------------------------------------

  /** The column whose cells the named branch may rewrite. The skills branch drops rows but
      rewrites no cell, and a name without a branch rewrites nothing. */
  function RewrittenColumn(name: string): (c: Option<Column>)
    ensures c.Some? ==> Name(c.value) == name
    ensures c.Some? <==> name in {"salary_min", "salary_max", "another_requirements",
                                  "company_industry"}
  {
    if name == "salary_min" then Some(SalaryMin)
    else if name == "salary_max" then Some(SalaryMax)
    else if name == "another_requirements" then Some(AnotherRequirements)
    else if name == "company_industry" then Some(CompanyIndustry)
    else None
  }

  /** The two rows hold the same cell in column `c`. */
  predicate SameCell(a: Row, b: Row, c: Column)
  {
    match c
    case JobName => a.jobName == b.jobName
    case JobType => a.jobType == b.jobType
    case SalaryRange => a.salaryRange == b.salaryRange
    case SalaryMin => a.salaryMin == b.salaryMin
    case SalaryMax => a.salaryMax == b.salaryMax
    case SkillsRequirements => a.skillsRequirements == b.skillsRequirements
    case EducationRequirements => a.educationRequirements == b.educationRequirements
    case ExperienceRequirements => a.experienceRequirements == b.experienceRequirements
    case AnotherRequirements => a.anotherRequirements == b.anotherRequirements
    case Province => a.province == b.province
    case City => a.city == b.city
    case District => a.district == b.district
    case CompanyName => a.companyName == b.companyName
    case CompanyIndustry => a.companyIndustry == b.companyIndustry
    case CompanySize => a.companySize == b.companySize
    case LastPost => a.lastPost == b.lastPost
    case PostTime => a.postTime == b.postTime
    case Obtained => a.obtained == b.obtained
    case Url => a.url == b.url
  }

  /** Row for row, the two tables hold the same `c` column and the same skills texts. */
  predicate Agree(a: Table, b: Table, c: Column)
  {
    && |a| == |b|
    && forall i :: 0 <= i < |a| ==>
         SameCell(a[i], b[i], c) && a[i].skillsRequirements == b[i].skillsRequirements
  }

  lemma AgreeTrans(a: Table, b: Table, d: Table, c: Column)
    requires Agree(a, b, c) && Agree(b, d, c)
    ensures Agree(a, d, c)
  {
  }

  /** Tables that agree on `c` and on the skills texts keep the same rows when the rows
      without skills are dropped, so they still agree. */
  lemma {:induction false} DropAgree(a: Table, b: Table, c: Column)
    requires Agree(a, b, c)
    ensures Agree(DropMissingSkills(a), DropMissingSkills(b), c)
  {
    if |a| > 0 {
      var a', b' := a[..|a| - 1], b[..|b| - 1];
      DropAgree(a', b', c);
      var x, y := a[|a| - 1], b[|b| - 1];
      var da, db := DropMissingSkills(a'), DropMissingSkills(b');
      var ea := if x.skillsRequirements.Some? then [x] else [];
      var eb := if y.skillsRequirements.Some? then [y] else [];
      assert Agree(ea, eb, c);
      forall i | 0 <= i < |da + ea|
        ensures SameCell((da + ea)[i], (db + eb)[i], c)
        ensures (da + ea)[i].skillsRequirements == (db + eb)[i].skillsRequirements
      {
        if i >= |da| {
          assert (da + ea)[i] == ea[i - |da|] && (db + eb)[i] == eb[i - |db|];
        }
      }
    }
  }

  /** A salary branch keeps the rows, their skills texts and every column but its bound. */
  lemma SalaryKeepsOthers(t: Table, which: Side, c: Column)
    requires SalaryRule(t, which).Some?
    requires c != (if which == Low then SalaryMin else SalaryMax)
    ensures Agree(SalaryRule(t, which).value, t, c)
  {
    var r := SalaryRule(t, which).value;
    forall i | 0 <= i < |t|
      ensures SameCell(r[i], t[i], c) && r[i].skillsRequirements == t[i].skillsRequirements
    {
      SalaryRuleEffect(t, which, i);
    }
  }

  /** The two fills keep the rows, their skills texts and every column but their own. */
  lemma FillKeepsOthers(t: Table, c: Column)
    ensures c != AnotherRequirements ==> Agree(FillAnother(t), t, c)
    ensures c != CompanyIndustry ==> Agree(FillIndustry(t), t, c)
  {
    forall i | 0 <= i < |t|
      ensures c != AnotherRequirements ==>
                SameCell(FillAnother(t)[i], t[i], c)
                && FillAnother(t)[i].skillsRequirements == t[i].skillsRequirements
      ensures c != CompanyIndustry ==>
                SameCell(FillIndustry(t)[i], t[i], c)
                && FillIndustry(t)[i].skillsRequirements == t[i].skillsRequirements
    {
      FillEffect(t, i);
    }
  }

  /** Every branch but the skills one keeps the rows, their skills texts and each column
      other than the one it rewrites. */
  lemma RuleKeepsOthers(t: Table, name: string, c: Column)
    requires name != "skills_requirements"
    requires ApplyRule(t, name).Some?
    requires RewrittenColumn(name) != Some(c)
    ensures Agree(ApplyRule(t, name).value, t, c)
  {
    if name == "salary_min" {
      SalaryKeepsOthers(t, Low, c);
    } else if name == "salary_max" {
      SalaryKeepsOthers(t, High, c);
    } else if name == "another_requirements" || name == "company_industry" {
      FillKeepsOthers(t, c);
    } else {
      UnknownNameKeeps(t, name);
    }
  }

  /** A run of `cleaning_nan` leaves every column that no listed name rewrites as it was,
      names without a branch included: the result holds, row for row, the column of the
      table itself or, when `skills_requirements` is listed, of the table without the rows
      that lack a skills text. The fills and the salary branches never touch the skills
      texts, so where in the list the skills name comes does not matter. */
  lemma {:induction false} CleanKeepsOthers(t: Table, names: seq<string>, c: Column)
    requires Clean(t, names).Some?
    requires forall k :: 0 <= k < |names| ==> RewrittenColumn(names[k]) != Some(c)
    ensures "skills_requirements" !in names ==>
              var r := Clean(t, names).value;
              && |r| == |t|
              && forall i :: 0 <= i < |t| ==> SameCell(r[i], t[i], c)
    ensures "skills_requirements" in names ==>
              var r, d := Clean(t, names).value, DropMissingSkills(t);
              && |r| == |d|
              && forall i :: 0 <= i < |d| ==> SameCell(r[i], d[i], c)
  {
    CleanAgrees(t, names, c);
  }

  /** The invariant behind `CleanKeepsOthers`, carried through the names one by one. */
  lemma {:induction false} CleanAgrees(t: Table, names: seq<string>, c: Column)
    requires Clean(t, names).Some?
    requires forall k :: 0 <= k < |names| ==> RewrittenColumn(names[k]) != Some(c)
    ensures Agree(Clean(t, names).value,
                  if "skills_requirements" in names then DropMissingSkills(t) else t, c)
  {
    if |names| == 0 {
    } else {
      var init, last := names[..|names| - 1], names[|names| - 1];
      assert names == init + [last];
      assert forall k :: 0 <= k < |init| ==> init[k] == names[k];
      CleanAgrees(t, init, c);
      var u := Clean(t, init).value;
      var base := if "skills_requirements" in init then DropMissingSkills(t) else t;
      var r := Clean(t, names).value;
      assert r == ApplyRule(u, last).value;
      if last == "skills_requirements" {
        DropAgree(u, base, c);
        if "skills_requirements" in init {
          var d := DropMissingSkills(t);
          forall i | 0 <= i < |d|
            ensures d[i].skillsRequirements.Some?
          {
            assert d[i] in d;
          }
          DropNothing(d);
        }
      } else {
        assert RewrittenColumn(names[|names| - 1]) != Some(c);
        RuleKeepsOthers(u, last, c);
        AgreeTrans(r, u, base, c);
      }
    }
  }
}
