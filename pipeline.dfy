/** The body of `load_data`: lower-case the text columns, keep the internship rows,
    fill in the defaults, parse and impute the salary, and derive `likely_fake`.
    The table is an array of rows that each step updates in place, column by column. */
module Pipeline {
  import opened Wrappers
  import opened Text
  import opened Stats
  import opened Salary

  /** One row of the postings file, with the columns the pipeline reads. */
  datatype Posting = Posting(
    jobId: int,
    title: string,
    description: Option<string>,
    department: Option<string>,
    salaryRange: Option<string>,
    telecommuting: int,
    companyProfile: Option<string>,
    requirements: Option<string>,
    requiredEducation: Option<string>,
    employmentType: Option<string>,
    requiredExperience: Option<string>,
    fraudulent: int)

  /** One row of the internship table once `avg_salary` is added and `salary_range` and
      `telecommuting` are dropped; `likelyFake` holds 0 until the label is derived. */
  datatype Internship = Internship(
    jobId: int,
    title: string,
    description: Option<string>,
    department: Option<string>,
    companyProfile: Option<string>,
    requirements: Option<string>,
    requiredEducation: Option<string>,
    employmentType: Option<string>,
    requiredExperience: Option<string>,
    fraudulent: int,
    avgSalary: Option<real>,
    likelyFake: int)

  /** What reading the file gives: its rows, or the reason it could not be read. */
  datatype ReadResult = Read(rows: seq<Posting>) | ReadFailed(cause: string)

  // ---- The step each column operation applies to one row ----

  function LowerOpt(v: Option<string>): Option<string> {
    match v
    case None => None
    case Some(s) => Some(Lower(s))
  }

  /** `str.lower()` on `title` and `description`; a null description stays null. */
  function LowerText(p: Posting): Posting {
    p.(title := Lower(p.title), description := LowerOpt(p.description))
  }

  /** `title.str.contains('intern')`, on a title that is already lower-case. */
  predicate IsInternship(p: Posting) {
    Contains(p.title, "intern")
  }

  /** `fillna(default)` on one cell. */
  function FillNull(v: Option<string>, default: string): Option<string> {
    Some(v.GetOr(default))
  }

  /** `department.fillna('unknown')`: the department is never null afterwards, a present one is
      kept, and no other column changes. */
  function FillDepartment(p: Posting): (q: Posting)
    ensures q == p.(department := q.department)
    ensures q.department == if p.department.None? then Some("unknown") else p.department
  {
    p.(department := FillNull(p.department, "unknown"))
  }

  /** The row with `avg_salary` parsed from `salary_range`, and `salary_range` and `telecommuting` dropped. */
  function WithAvgSalary(p: Posting): Internship {
    Internship(p.jobId, p.title, p.description, p.department, p.companyProfile,
      p.requirements, p.requiredEducation, p.employmentType, p.requiredExperience,
      p.fraudulent, CalcAvgSalary(p.salaryRange), 0)
  }

  /** `avg_salary.fillna(median)`. */
  function FillSalary(r: Internship, median: Option<real>): (q: Internship)
    ensures q == r.(avgSalary := q.avgSalary)
    ensures q.avgSalary == if r.avgSalary.None? then median else r.avgSalary
  {
    if r.avgSalary.None? then r.(avgSalary := median) else r
  }

  /** `replace(markers, NaN)` on one cell: a value equal to one of `markers` becomes null. */
  function NullIfAmong(v: Option<string>, markers: seq<string>): (w: Option<string>)
    ensures w.Some? ==> w == v && w.value !in markers
    ensures v.Some? && v.value !in markers ==> w == v
  {
    if v.Some? && v.value in markers then None else v
  }

  /** `company_profile.replace(['', 'no profile'], NaN)`: neither marker is left, and no other column changes. */
  function NullProfile(r: Internship): (q: Internship)
    ensures q == r.(companyProfile := q.companyProfile)
    ensures q.companyProfile != Some("") && q.companyProfile != Some("no profile")
    ensures r.companyProfile == Some("") || r.companyProfile == Some("no profile") ==> q.companyProfile.None?
    ensures r.companyProfile != Some("") && r.companyProfile != Some("no profile") ==> q.companyProfile == r.companyProfile
  {
    r.(companyProfile := NullIfAmong(r.companyProfile, ["", "no profile"]))
  }

  /** `requirements.replace('', NaN)`: no empty text is left, and no other column changes. */
  function NullRequirements(r: Internship): (q: Internship)
    ensures q == r.(requirements := q.requirements)
    ensures q.requirements != Some("")
    ensures r.requirements == Some("") ==> q.requirements.None?
    ensures r.requirements != Some("") ==> q.requirements == r.requirements
  {
    r.(requirements := NullIfAmong(r.requirements, [""]))
  }

  /** `required_education.replace('', NaN)`: no empty text is left, and no other column changes. */
  function NullEducation(r: Internship): (q: Internship)
    ensures q == r.(requiredEducation := q.requiredEducation)
    ensures q.requiredEducation != Some("")
    ensures r.requiredEducation == Some("") ==> q.requiredEducation.None?
    ensures r.requiredEducation != Some("") ==> q.requiredEducation == r.requiredEducation
  {
    r.(requiredEducation := NullIfAmong(r.requiredEducation, [""]))
  }

  /** The OR of the four weak signals, stored as 0 or 1; no other column changes. */
  function DeriveLikelyFake(r: Internship): (q: Internship)
    ensures q == r.(likelyFake := q.likelyFake)
    ensures q.likelyFake == 0 || q.likelyFake == 1
    ensures q.likelyFake == 1 <==>
      r.companyProfile.None? || r.requirements.None? || r.requiredEducation.None? || r.fraudulent == 1
  {
    var fake := r.companyProfile.None? || r.requirements.None? || r.requiredEducation.None? || r.fraudulent == 1;
    r.(likelyFake := if fake then 1 else 0)
  }

  /** `employment_type.fillna('Unspecified')`: never null afterwards, a present value kept, no other column changed. */
  function FillEmploymentType(r: Internship): (q: Internship)
    ensures q == r.(employmentType := q.employmentType)
    ensures q.employmentType == if r.employmentType.None? then Some("Unspecified") else r.employmentType
  {
    r.(employmentType := FillNull(r.employmentType, "Unspecified"))
  }

  /** `replace({'Other': 'Unspecified', 'Temporary': 'Short Term'})`: both keys looked up in the
      original value, so a replacement is never replaced again. */
  function Remap(v: Option<string>): (w: Option<string>)
    ensures w != Some("Other") && w != Some("Temporary")
    ensures w.None? <==> v.None?
    ensures v == Some("Other") ==> w == Some("Unspecified")
    ensures v == Some("Temporary") ==> w == Some("Short Term")
    ensures v != Some("Other") && v != Some("Temporary") ==> w == v
  {
    if v == Some("Other") then Some("Unspecified")
    else if v == Some("Temporary") then Some("Short Term")
    else v
  }

  function RemapEmploymentType(r: Internship): Internship {
    r.(employmentType := Remap(r.employmentType))
  }

  /** `required_experience.fillna('no experience')`: never null afterwards, a present value kept, no other column changed. */
  function FillExperience(r: Internship): (q: Internship)
    ensures q == r.(requiredExperience := q.requiredExperience)
    ensures q.requiredExperience == if r.requiredExperience.None? then Some("no experience") else r.requiredExperience
  {
    r.(requiredExperience := FillNull(r.requiredExperience, "no experience"))
  }

  // ---- The table-wide meaning of the pipeline ----

  function LowerAll(ps: seq<Posting>): seq<Posting> {
    seq(|ps|, i requires 0 <= i < |ps| => LowerText(ps[i]))
  }

  /** The rows whose title contains "intern", in their original order. */
  function Interns(ps: seq<Posting>): seq<Posting>
    decreases |ps|
  {
    if ps == [] then []
    else
      var init := Interns(ps[..|ps| - 1]);
      if IsInternship(ps[|ps| - 1]) then init + [ps[|ps| - 1]] else init
  }

  /** The non-null values of a column, in row order; what `median` skips NaN down to. */
  function Present(xs: seq<Option<real>>): seq<real>
    decreases |xs|
  {
    if xs == [] then []
    else
      var init := Present(xs[..|xs| - 1]);
      match xs[|xs| - 1]
      case Some(v) => init + [v]
      case None => init
  }

  /** The `avg_salary` column of a table. */
  function SalaryColumn(t: seq<Internship>): seq<Option<real>> {
    seq(|t|, i requires 0 <= i < |t| => t[i].avgSalary)
  }

  /** The non-null `avg_salary` values of a table, in row order. */
  function Salaries(t: seq<Internship>): seq<real> {
    Present(SalaryColumn(t))
  }

  /** The internship rows after `department` is filled and `avg_salary` is parsed. */
  function Staged(rows: seq<Posting>): seq<Internship> {
    seq(|rows|, i requires 0 <= i < |rows| => WithAvgSalary(FillDepartment(rows[i])))
  }

  /** Every step after the median is known, in the order `load_data` applies them (lines 39 to 51). */
  function Finish(r: Internship, median: Option<real>): Internship {
    FillExperience(RemapEmploymentType(FillEmploymentType(DeriveLikelyFake(
      NullEducation(NullRequirements(NullProfile(FillSalary(r, median))))))))
  }

  /** The table `load_data` returns for the rows it read. */
  function InternTable(raw: seq<Posting>): seq<Internship> {
    var staged := Staged(Interns(LowerAll(raw)));
    var median := Median(Salaries(staged));
    seq(|staged|, i requires 0 <= i < |staged| => Finish(staged[i], median))
  }

  // ---- The pipeline as `load_data` runs it ----

  /** One vectorised column operation: `f` applied to every row, in place. */
  method MapInPlace<T>(a: array<T>, f: T -> T)
    modifies a
    ensures forall i :: 0 <= i < a.Length ==> a[i] == f(old(a[i]))
  {
    for i := 0 to a.Length
      invariant forall k :: 0 <= k < i ==> a[k] == f(old(a[k]))
      invariant forall k :: i <= k < a.Length ==> a[k] == old(a[k])
    {
      a[i] := f(a[i]);
    }
  }

  /** `df[df['title'].str.contains('intern')]`. */
  method SelectInterns(df: array<Posting>) returns (rows: seq<Posting>)
    ensures rows == Interns(df[..])
  {
    rows := [];
    for i := 0 to df.Length
      invariant rows == Interns(df[..i])
    {
      assert df[..i + 1][..i] == df[..i];
      if IsInternship(df[i]) {
        rows := rows + [df[i]];
      }
    }
    assert df[..df.Length] == df[..];
  }

  /** `intern_df['avg_salary'] = intern_df['salary_range'].apply(calc_avgsalary)`, then the drop of
      `salary_range` and `telecommuting`. */
  method AddSalaryColumn(intern: array<Posting>) returns (t: array<Internship>)
    ensures fresh(t) && t.Length == intern.Length
    ensures forall i :: 0 <= i < t.Length ==> t[i] == WithAvgSalary(intern[i])
  {
    t := new Internship[intern.Length];
    for i := 0 to intern.Length
      invariant forall k :: 0 <= k < i ==> t[k] == WithAvgSalary(intern[k])
    {
      t[i] := WithAvgSalary(intern[i]);
    }
  }

  /** `intern_df['avg_salary'].median()`: the median of the non-null values, null if there are none. */
  method MedianSalary(t: array<Internship>) returns (median: Option<real>)
    ensures median == Median(Salaries(t[..]))
  {
    var values: seq<real> := [];
    for i := 0 to t.Length
      invariant values == Salaries(t[..i])
    {
      assert SalaryColumn(t[..i + 1])[..i] == SalaryColumn(t[..i]);
      if t[i].avgSalary.Some? {
        values := values + [t[i].avgSalary.value];
      }
    }
    assert t[..t.Length] == t[..];
    median := Median(values);
  }

  /** Lines 39 to 51 of `load_data`, one column operation after another, once the median is known. */
  method CleanColumns(t: array<Internship>, median: Option<real>)
    modifies t
    ensures forall i :: 0 <= i < t.Length ==> t[i] == Finish(old(t[i]), median)
  {
    ghost var t0 := t[..];
    MapInPlace(t, r => FillSalary(r, median));
    ghost var t1 := t[..];
    assert forall i :: 0 <= i < t.Length ==> t1[i] == FillSalary(t0[i], median);
    MapInPlace(t, NullProfile);
    MapInPlace(t, NullRequirements);
    MapInPlace(t, NullEducation);
    ghost var t2 := t[..];
    assert forall i :: 0 <= i < t.Length ==> t2[i] == NullEducation(NullRequirements(NullProfile(t1[i])));
    MapInPlace(t, DeriveLikelyFake);
    ghost var t3 := t[..];
    assert forall i :: 0 <= i < t.Length ==> t3[i] == DeriveLikelyFake(t2[i]);
    MapInPlace(t, FillEmploymentType);
    MapInPlace(t, RemapEmploymentType);
    MapInPlace(t, FillExperience);
    assert forall i :: 0 <= i < t.Length ==> t[i] == FillExperience(RemapEmploymentType(FillEmploymentType(t3[i])));
  }

  /** `load_data`: a file that cannot be read gives an empty table; otherwise the rows go
      through every step of the pipeline, in the order `load_data` applies them. */
  method LoadData(csv: ReadResult) returns (table: seq<Internship>)
    ensures csv.ReadFailed? ==> table == []
    ensures csv.Read? ==> table == InternTable(csv.rows)
  {
    if csv.ReadFailed? {
      return [];
    }
    var raw := csv.rows;
    var df := new Posting[|raw|](i requires 0 <= i < |raw| => raw[i]);
    MapInPlace(df, LowerText);
    assert df[..] == LowerAll(raw);
    var selected := SelectInterns(df);
    var intern := new Posting[|selected|](i requires 0 <= i < |selected| => selected[i]);
    MapInPlace(intern, FillDepartment);
    var t := AddSalaryColumn(intern);
    ghost var staged := Staged(selected);
    assert t[..] == staged;
    var median := MedianSalary(t);
    CleanColumns(t, median);
    table := t[..];
    assert |table| == |staged|;
    assert forall i :: 0 <= i < |table| ==> table[i] == Finish(staged[i], median);
  }
}
