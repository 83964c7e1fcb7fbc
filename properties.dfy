/** What `load_data` promises about its output, stated row by row in terms of the rows it read. */
module PipelineProperties {
  import opened Wrappers
  import opened Text
  import opened Stats
  import opened Salary
  import opened Pipeline

  /** The positions of the rows whose lower-cased title contains "intern", in increasing order. */
  function InternIndices(raw: seq<Posting>): (idx: seq<nat>)
    ensures forall k :: 0 <= k < |idx| ==> idx[k] < |raw|
    decreases |raw|
  {
    if raw == [] then []
    else
      var init := InternIndices(raw[..|raw| - 1]);
      if IsInternship(LowerText(raw[|raw| - 1])) then init + [|raw| - 1] else init
  }

  /** The parsed salary of every internship row, null where `calc_avgsalary` gives null. */
  function ParsedSalaries(raw: seq<Posting>): seq<Option<real>> {
    var idx := InternIndices(raw);
    seq(|idx|, k requires 0 <= k < |idx| => CalcAvgSalary(raw[idx[k]].salaryRange))
  }

  /** The value imputed for every null salary: the median of the salaries that parsed. */
  function ImputedValue(raw: seq<Posting>): Option<real> {
    Median(Present(ParsedSalaries(raw)))
  }

  /** A value is kept by `Present` exactly when it occurs wrapped in `xs`; nothing is kept
      exactly when every element is null. */
  lemma {:induction false} PresentMembers(xs: seq<Option<real>>)
    ensures forall v :: v in Present(xs) <==> Some(v) in xs
    ensures |Present(xs)| == 0 <==> forall j :: 0 <= j < |xs| ==> xs[j].None?
    decreases |xs|
  {
    if xs != [] {
      var init := xs[..|xs| - 1];
      PresentMembers(init);
      assert xs == init + [xs[|xs| - 1]];
      if xs[|xs| - 1].None? && |Present(xs)| == 0 {
        forall j | 0 <= j < |xs| ensures xs[j].None? {
          if j < |xs| - 1 {
            assert xs[j] == init[j];
          }
        }
      }
    }
  }

  /** The positions found are exactly the internship rows, increasing, and the filtered table
      holds the lower-cased row of each. */
  lemma InternIndicesSpec(raw: seq<Posting>)
    ensures |InternIndices(raw)| == |Interns(LowerAll(raw))|
    ensures forall k :: 0 <= k < |InternIndices(raw)| ==>
      Interns(LowerAll(raw))[k] == LowerText(raw[InternIndices(raw)[k]])
    ensures forall k, l :: 0 <= k < l < |InternIndices(raw)| ==> InternIndices(raw)[k] < InternIndices(raw)[l]
    ensures forall j :: 0 <= j < |raw| ==> (j in InternIndices(raw) <==> IsInternship(LowerText(raw[j])))
  {
    InternIndicesRows(raw);
    InternIndicesOrder(raw);
  }

  lemma {:induction false} InternIndicesRows(raw: seq<Posting>)
    ensures |InternIndices(raw)| == |Interns(LowerAll(raw))|
    ensures forall k :: 0 <= k < |InternIndices(raw)| ==>
      Interns(LowerAll(raw))[k] == LowerText(raw[InternIndices(raw)[k]])
    decreases |raw|
  {
    if raw != [] {
      var n := |raw|;
      var init := raw[..n - 1];
      InternIndicesRows(init);
      assert LowerAll(raw)[..n - 1] == LowerAll(init);
      assert LowerAll(raw)[n - 1] == LowerText(raw[n - 1]);
      forall j | 0 <= j < n - 1 ensures raw[j] == init[j] {
      }
    }
  }

  lemma {:induction false} InternIndicesOrder(raw: seq<Posting>)
    ensures forall k, l :: 0 <= k < l < |InternIndices(raw)| ==> InternIndices(raw)[k] < InternIndices(raw)[l]
    ensures forall j :: 0 <= j < |raw| ==> (j in InternIndices(raw) <==> IsInternship(LowerText(raw[j])))
    decreases |raw|
  {
    if raw != [] {
      var n := |raw|;
      var init := raw[..n - 1];
      InternIndicesOrder(init);
      forall j | 0 <= j < n - 1 ensures raw[j] == init[j] {
      }
    }
  }

  /** Row `k` of the output is row `InternIndices(raw)[k]` of the input after every step. */
  lemma PipelineAt(raw: seq<Posting>, k: nat)
    requires k < |InternIndices(raw)|
    ensures |InternTable(raw)| == |InternIndices(raw)|
    ensures InternTable(raw)[k] ==
      Finish(WithAvgSalary(FillDepartment(LowerText(raw[InternIndices(raw)[k]]))), ImputedValue(raw))
  {
    InternIndicesSpec(raw);
    var rows := Interns(LowerAll(raw));
    var staged := Staged(rows);
    assert SalaryColumn(staged) == ParsedSalaries(raw);
  }

  predicate BlankProfile(v: Option<string>) {
    v == None || v == Some("") || v == Some("no profile")
  }

  predicate Blank(v: Option<string>) {
    v == None || v == Some("")
  }

  /** The output holds exactly the rows whose lower-cased title contains "intern", in their
      original order, with their key kept and their title and description lower-cased. */
  lemma SelectsInternships(raw: seq<Posting>)
    ensures |InternTable(raw)| == |InternIndices(raw)|
    ensures forall j :: 0 <= j < |raw| ==> (j in InternIndices(raw) <==> Contains(Lower(raw[j].title), "intern"))
    ensures forall k, l :: 0 <= k < l < |InternIndices(raw)| ==> InternIndices(raw)[k] < InternIndices(raw)[l]
    ensures forall k :: 0 <= k < |InternTable(raw)| ==>
      var p := raw[InternIndices(raw)[k]];
      && InternTable(raw)[k].jobId == p.jobId
      && InternTable(raw)[k].title == Lower(p.title)
      && InternTable(raw)[k].description == LowerOpt(p.description)
      && Contains(InternTable(raw)[k].title, "intern")
  {
    InternIndicesSpec(raw);
    assert |InternTable(raw)| == |InternIndices(raw)|;
    forall k | 0 <= k < |InternTable(raw)|
      ensures var p := raw[InternIndices(raw)[k]];
        && InternTable(raw)[k].jobId == p.jobId
        && InternTable(raw)[k].title == Lower(p.title)
        && InternTable(raw)[k].description == LowerOpt(p.description)
        && Contains(InternTable(raw)[k].title, "intern")
    {
      PipelineAt(raw, k);
      assert InternIndices(raw)[k] in InternIndices(raw);
    }
  }

  /** A salary that parsed is kept; one that did not holds the median of those that did. */
  lemma ImputesSalary(raw: seq<Posting>, k: nat)
    requires k < |InternIndices(raw)|
    ensures |InternTable(raw)| == |InternIndices(raw)|
    ensures var parsed := CalcAvgSalary(raw[InternIndices(raw)[k]].salaryRange);
      && (parsed.Some? ==> InternTable(raw)[k].avgSalary == parsed)
      && (parsed.None? ==> InternTable(raw)[k].avgSalary == Median(Present(ParsedSalaries(raw))))
  {
    PipelineAt(raw, k);
  }

  /** Every output salary is non-null exactly when at least one internship salary parsed. */
  lemma SalaryNullOnlyWhenNoneParsed(raw: seq<Posting>, k: nat)
    requires k < |InternIndices(raw)|
    ensures |InternTable(raw)| == |InternIndices(raw)|
    ensures InternTable(raw)[k].avgSalary.None? <==>
      forall j :: 0 <= j < |ParsedSalaries(raw)| ==> ParsedSalaries(raw)[j].None?
  {
    PipelineAt(raw, k);
    PresentMembers(ParsedSalaries(raw));
    assert ParsedSalaries(raw)[k] == CalcAvgSalary(raw[InternIndices(raw)[k]].salaryRange);
  }

  /** `likely_fake` is 0 or 1, and 1 exactly when the raw profile is missing, empty or
      "no profile", the requirements or the education are missing or empty, or the posting is
      marked fraudulent; no other column has a say. */
  lemma LabelsLikelyFake(raw: seq<Posting>, k: nat)
    requires k < |InternIndices(raw)|
    ensures |InternTable(raw)| == |InternIndices(raw)|
    ensures InternTable(raw)[k].likelyFake == 0 || InternTable(raw)[k].likelyFake == 1
    ensures var p := raw[InternIndices(raw)[k]];
      InternTable(raw)[k].likelyFake == 1 <==>
        BlankProfile(p.companyProfile) || Blank(p.requirements) || Blank(p.requiredEducation) || p.fraudulent == 1
  {
    PipelineAt(raw, k);
    var p := raw[InternIndices(raw)[k]];
    FinishLabel(WithAvgSalary(FillDepartment(LowerText(p))), ImputedValue(raw));
  }

  /** The label of one finished row, in terms of the row before cleaning. */
  lemma FinishLabel(r: Internship, median: Option<real>)
    ensures Finish(r, median).likelyFake ==
      if BlankProfile(r.companyProfile) || Blank(r.requirements) || Blank(r.requiredEducation) || r.fraudulent == 1
      then 1 else 0
  {
  }

  /** The null markers become null: empty or "no profile" for the profile, empty for the
      requirements and the education; every other value is kept. */
  lemma NormalizesNulls(raw: seq<Posting>, k: nat)
    requires k < |InternIndices(raw)|
    ensures |InternTable(raw)| == |InternIndices(raw)|
    ensures var p := raw[InternIndices(raw)[k]];
      && InternTable(raw)[k].companyProfile == (if BlankProfile(p.companyProfile) then None else p.companyProfile)
      && InternTable(raw)[k].requirements == (if Blank(p.requirements) then None else p.requirements)
      && InternTable(raw)[k].requiredEducation == (if Blank(p.requiredEducation) then None else p.requiredEducation)
      && InternTable(raw)[k].fraudulent == p.fraudulent
  {
    PipelineAt(raw, k);
  }

  /** The categorical defaults: `department` null becomes "unknown"; `employment_type` null or
      "Other" becomes "Unspecified" and "Temporary" becomes "Short Term", so neither of those two
      survives; `required_experience` null becomes "no experience"; present values are kept. */
  lemma FillsCategoricalDefaults(raw: seq<Posting>, k: nat)
    requires k < |InternIndices(raw)|
    ensures |InternTable(raw)| == |InternIndices(raw)|
    ensures var p := raw[InternIndices(raw)[k]];
      var out := InternTable(raw)[k];
      && out.department == (if p.department.None? then Some("unknown") else p.department)
      && out.requiredExperience == (if p.requiredExperience.None? then Some("no experience") else p.requiredExperience)
      && out.employmentType.Some?
      && out.employmentType.value != "Other" && out.employmentType.value != "Temporary"
      && (p.employmentType.None? || p.employmentType == Some("Other") ==> out.employmentType == Some("Unspecified"))
      && (p.employmentType == Some("Temporary") ==> out.employmentType == Some("Short Term"))
      && (p.employmentType.Some? && p.employmentType.value != "Other" && p.employmentType.value != "Temporary" ==> out.employmentType == p.employmentType)
  {
    PipelineAt(raw, k);
  }

  /** Reading nothing gives nothing. */
  lemma EmptyInputEmptyOutput()
    ensures InternTable([]) == []
  {
  }

  // ---- Two worked rows ----

  lemma MarketingInternTitle()
    ensures Contains(Lower("Marketing Intern"), "intern")
  {
    var s := "Marketing Intern";
    var t := Lower(s);
    assert t[10..16] == "intern" by {
      assert s[10..16] == "Intern";
      forall i | 10 <= i < 16 ensures t[i] == "intern"[i - 10] {
        assert t[i] == LowerChar(s[i]);
      }
    }
    assert OccursAt(t, "intern", 10);
    ContainsIff(t, "intern");
  }

  lemma SoftwareEngineerTitle()
    ensures !Contains(Lower("Software Engineer"), "intern")
  {
    var s := "Software Engineer";
    var t := Lower(s);
    ContainsIff(t, "intern");
    forall i | 0 <= i <= |t| - 6 ensures !OccursAt(t, "intern", i) {
      assert t[i] == LowerChar(s[i]);
      assert t[i..i + 6][0] == t[i];
      if i < 4 {
        assert i == 0 || i == 1 || i == 2 || i == 3;
      } else if i < 8 {
        assert i == 4 || i == 5 || i == 6 || i == 7;
      } else {
        assert i == 8 || i == 9 || i == 10 || i == 11;
      }
    }
  }

  /** A "Marketing Intern" row with salary range `$X-$Y` and an empty company profile is kept,
      gets the salary (X+Y)/2 and is labelled likely fake. */
  lemma MarketingInternScenario(p: Posting, x: nat, y: nat)
    requires p.title == "Marketing Intern"
    requires p.salaryRange == Some("$" + Numbers.NatToString(x) + "-$" + Numbers.NatToString(y))
    requires p.companyProfile == Some("") && p.requirements == Some("valid")
    requires p.requiredEducation == Some("Bachelor's") && p.fraudulent == 0
    ensures |InternTable([p])| == 1
    ensures InternTable([p])[0].avgSalary == Some((x + y) as real / 2.0)
    ensures InternTable([p])[0].likelyFake == 1
  {
    MarketingInternTitle();
    assert [p][..0] == [];
    assert InternIndices([p]) == [0];
    DollarRange(x, y);
    ImputesSalary([p], 0);
    LabelsLikelyFake([p], 0);
  }

  /** A row titled "Software Engineer" does not reach the output. */
  lemma SoftwareEngineerScenario(p: Posting)
    requires p.title == "Software Engineer"
    ensures InternTable([p]) == []
  {
    SoftwareEngineerTitle();
    assert [p][..0] == [];
    assert InternIndices([p]) == [];
    SelectsInternships([p]);
  }
}
