/** The per-value helpers of the survey preprocessing script: the salary
    filter and bracket, and the cleaners that map a free-text survey answer
    to a category label. A pandas cell is `None` when it is missing (NaN). */
module Preprocess {
  import opened Wrappers

  // ---------------------------------------------------------------------
  // Salary
  // ---------------------------------------------------------------------

  /** The realistic-salary filter: at least 10000 and at most 500000 USD.
      A missing or non-numeric value (NaN after `to_numeric`) fails both
      comparisons. */
  predicate KeepSalary(comp: Option<real>)
  {
    comp.Some? && 10000.0 <= comp.value && comp.value <= 500000.0
  }

  /** The rows the filter keeps, in their original order. */
  function RealisticSalaries(comps: seq<Option<real>>): (r: seq<real>)
    ensures |r| <= |comps|
    ensures forall i :: 0 <= i < |r| ==> 10000.0 <= r[i] <= 500000.0
    ensures forall x :: x in r <==> KeepSalary(Some(x)) && Some(x) in comps
    decreases |comps|
  {
    if |comps| == 0 then []
    else
      var rest := RealisticSalaries(comps[1..]);
      assert forall c :: c in comps <==> c == comps[0] || c in comps[1..];
      if KeepSalary(comps[0]) then [comps[0].value] + rest else rest
  }

  /** One row: kept, as its value, exactly when it passes the bounds. */
  lemma RealisticSalariesSingle(c: Option<real>)
    ensures RealisticSalaries([c]) == if KeepSalary(c) then [c.value] else []
  {
    assert [c][1..] == [];
  }

  /** Filtering splits over concatenation; with RealisticSalariesSingle this
      says the filter keeps the surviving rows in their order and with their
      repeats. */
  lemma {:induction false} RealisticSalariesAppend(a: seq<Option<real>>, b: seq<Option<real>>)
    ensures RealisticSalaries(a + b) == RealisticSalaries(a) + RealisticSalaries(b)
    decreases |a|
  {
    if |a| == 0 {
      assert a + b == b;
    } else {
      assert (a + b)[0] == a[0];
      assert (a + b)[1..] == a[1..] + b;
      RealisticSalariesAppend(a[1..], b);
    }
  }

  /** Filtering is idempotent: the kept salaries all pass the filter again. */
  lemma {:induction false} RealisticSalariesIdempotent(comps: seq<Option<real>>)
    ensures RealisticSalaries(Somes(RealisticSalaries(comps))) == RealisticSalaries(comps)
    decreases |comps|
  {
    if |comps| > 0 {
      RealisticSalariesIdempotent(comps[1..]);
      var rest := RealisticSalaries(comps[1..]);
      if KeepSalary(comps[0]) {
        assert Somes([comps[0].value] + rest) == [comps[0]] + Somes(rest);
        assert ([comps[0]] + Somes(rest))[1..] == Somes(rest);
      }
    }
  }

  /** Each salary as a present cell. */
  function Somes(xs: seq<real>): (r: seq<Option<real>>)
    ensures |r| == |xs| && forall i :: 0 <= i < |xs| ==> r[i] == Some(xs[i])
  {
    seq(|xs|, i requires 0 <= i < |xs| => Some(xs[i]))
  }

  /** The five salary brackets, lowest first. */
  datatype Bracket = Under50K | From50K | From75K | From100K | From150K

  /** The label `categorize_salary` returns for each bracket. */
  function Label(b: Bracket): string
  {
    match b
    case Under50K => "<50K"
    case From50K => "50K-75K"
    case From75K => "75K-100K"
    case From100K => "100K-150K"
    case From150K => "150K+"
  }

  /** The bracket's position in label order. */
  function Rank(b: Bracket): nat
  {
    match b
    case Under50K => 0
    case From50K => 1
    case From75K => 2
    case From100K => 3
    case From150K => 4
  }

  /** The bracket boundaries, increasing. */
  const Thresholds: seq<real> := [50000.0, 75000.0, 100000.0, 150000.0]

  /** `categorize_salary(salary)`: the bracket is the half-open interval
      between consecutive thresholds that holds the salary. */
  function CategorizeSalary(salary: real): (b: Bracket)
    ensures Rank(b) == 0 || Thresholds[Rank(b) - 1] <= salary
    ensures Rank(b) == 4 || salary < Thresholds[Rank(b)]
    ensures forall c: Bracket :: Label(c) == Label(b) ==> c == b
  {
    var b :=
      if salary < 50000.0 then Under50K
      else if salary < 75000.0 then From50K
      else if salary < 100000.0 then From75K
      else if salary < 150000.0 then From100K
      else From150K;
    LabelNames(b);
    b
  }

  /** A higher salary never falls into a lower bracket. */
  lemma CategorizeSalaryMonotone(s1: real, s2: real)
    requires s1 <= s2
    ensures Rank(CategorizeSalary(s1)) <= Rank(CategorizeSalary(s2))
  {
  }

  /** No other bracket shares b's label. */
  lemma LabelNames(b: Bracket)
    ensures forall c: Bracket :: Label(c) == Label(b) ==> c == b
  {
    forall c: Bracket | Label(c) == Label(b)
      ensures c == b
    {
      LabelInjective(c, b);
    }
  }

  /** The five labels are distinct. */
  lemma LabelInjective(b1: Bracket, b2: Bracket)
    ensures Label(b1) == Label(b2) <==> b1 == b2
  {
    if b1 != b2 {
      assert Label(b1)[..2] != Label(b2)[..2] || |Label(b1)| != |Label(b2)|;
    }
  }

  /** A kept survey row: its salary and the bracket `apply` gives it. */
  datatype SalaryRow = SalaryRow(comp: real, bracket: Bracket)

  /** `clean_salary_data` on the salary column: the filter, then a bracket
      per kept row. */
  function CleanSalaryData(comps: seq<Option<real>>): (r: seq<SalaryRow>)
    ensures |r| == |RealisticSalaries(comps)|
    ensures forall i :: 0 <= i < |r| ==> r[i].comp == RealisticSalaries(comps)[i]
    ensures forall i :: 0 <= i < |r| ==> Some(r[i].comp) in comps && KeepSalary(Some(r[i].comp))
    ensures forall i :: 0 <= i < |r| ==>
      (Rank(r[i].bracket) == 0 || Thresholds[Rank(r[i].bracket) - 1] <= r[i].comp) &&
      (Rank(r[i].bracket) == 4 || r[i].comp < Thresholds[Rank(r[i].bracket)])
  {
    var kept := RealisticSalaries(comps);
    seq(|kept|, i requires 0 <= i < |kept| => SalaryRow(kept[i], CategorizeSalary(kept[i])))
  }

  // ---------------------------------------------------------------------
  // Text tests
  // ---------------------------------------------------------------------

  /** `str.lower()` on ASCII letters; every other character is kept. */
  function LowerChar(c: char): (d: char)
    ensures 'A' <= c <= 'Z' ==> d as int == c as int + 32
    ensures !('A' <= c <= 'Z') ==> d == c
  {
    if 'A' <= c <= 'Z' then (c as int + 32) as char else c
  }

  function Lower(s: string): (r: string)
    ensures |r| == |s| && forall i :: 0 <= i < |s| ==> r[i] == LowerChar(s[i])
  {
    seq(|s|, i requires 0 <= i < |s| => LowerChar(s[i]))
  }

  /** Lower-casing twice is lower-casing once. */
  lemma LowerIdempotent(s: string)
    ensures Lower(Lower(s)) == Lower(s)
  {
    forall i | 0 <= i < |s|
      ensures LowerChar(LowerChar(s[i])) == LowerChar(s[i])
    {
    }
  }

  /** p occurs in s starting at position i. */
  ghost predicate OccursAt(s: string, p: string, i: int)
  {
    0 <= i && i + |p| <= |s| && s[i..i + |p|] == p
  }

  /** Python's `p in s` on strings. */
  predicate Contains(s: string, p: string)
    decreases |s|
  {
    (|p| <= |s| && s[..|p|] == p) || (|s| > 0 && Contains(s[1..], p))
  }

  /** Contains finds exactly the occurrences of p. */
  lemma {:induction false} ContainsOccurrence(s: string, p: string)
    ensures Contains(s, p) <==> exists i :: OccursAt(s, p, i)
    decreases |s|
  {
    if |s| > 0 {
      ContainsOccurrence(s[1..], p);
      if exists i :: OccursAt(s[1..], p, i) {
        var i :| OccursAt(s[1..], p, i);
        assert s[i + 1..i + 1 + |p|] == s[1..][i..i + |p|];
        assert OccursAt(s, p, i + 1);
      }
      if |p| <= |s| && s[..|p|] == p {
        assert OccursAt(s, p, 0);
      }
      if exists i :: OccursAt(s, p, i) {
        var i :| OccursAt(s, p, i);
        if i > 0 {
          assert s[1..][i - 1..i - 1 + |p|] == s[i..i + |p|];
          assert OccursAt(s[1..], p, i - 1);
        }
      }
    } else if |p| == 0 {
      assert OccursAt(s, p, 0);
    }
  }

  // ---------------------------------------------------------------------
  // First-match classification
  // ---------------------------------------------------------------------

  /** One test of an `if`/`elif` condition: a substring test or an equality. */
  datatype Test = Substring(needle: string) | Equals(text: string)

  /** An `if`/`elif` branch: its tests, joined by `or`, and its label. */
  datatype Rule = Rule(tests: seq<Test>, category: string)

  predicate Passes(t: Test, s: string)
  {
    match t
    case Substring(n) => Contains(s, n)
    case Equals(v) => s == v
  }

  predicate Matches(r: Rule, s: string)
  {
    exists t :: t in r.tests && Passes(t, s)
  }

  /** The branch an `if`/`elif` chain takes when the tests are tried from
      rule `from` onwards: the first rule that matches. */
  function FirstMatch(rules: seq<Rule>, s: string, from: nat): (r: Option<nat>)
    ensures r.None? <==> forall i :: from <= i < |rules| ==> !Matches(rules[i], s)
    ensures r.Some? ==> from <= r.value < |rules| && Matches(rules[r.value], s)
    ensures r.Some? ==> forall j :: from <= j < r.value ==> !Matches(rules[j], s)
    decreases |rules| - from
  {
    if from >= |rules| then None
    else if Matches(rules[from], s) then Some(from)
    else FirstMatch(rules, s, from + 1)
  }

  /** The label of the first matching rule, or the `else` label. */
  function Classify(rules: seq<Rule>, s: string, otherwise: string): string
  {
    match FirstMatch(rules, s, 0)
    case None => otherwise
    case Some(i) => rules[i].category
  }

  /** One `elif` step: rule k is taken if it matches, otherwise the search goes on. */
  lemma FirstMatchStep(rules: seq<Rule>, s: string, k: nat)
    requires k < |rules|
    ensures FirstMatch(rules, s, k) == if Matches(rules[k], s) then Some(k) else FirstMatch(rules, s, k + 1)
  {
  }

  lemma OneTest(a: Test, category: string, s: string)
    ensures Matches(Rule([a], category), s) <==> Passes(a, s)
  {
    assert a in [a];
  }

  lemma TwoTests(a: Test, b: Test, category: string, s: string)
    ensures Matches(Rule([a, b], category), s) <==> Passes(a, s) || Passes(b, s)
  {
    assert a in [a, b] && b in [a, b];
  }

  lemma ThreeTests(a: Test, b: Test, c: Test, category: string, s: string)
    ensures Matches(Rule([a, b, c], category), s) <==> Passes(a, s) || Passes(b, s) || Passes(c, s)
  {
    assert a in [a, b, c] && b in [a, b, c] && c in [a, b, c];
  }

  lemma FiveTests(a: Test, b: Test, c: Test, d: Test, e: Test, category: string, s: string)
    ensures Matches(Rule([a, b, c, d, e], category), s) <==>
      Passes(a, s) || Passes(b, s) || Passes(c, s) || Passes(d, s) || Passes(e, s)
  {
    var ts := [a, b, c, d, e];
    assert a in ts && b in ts && c in ts && d in ts && e in ts;
  }

  /** When rule k is the first that matches, its label is the answer. */
  lemma ClassifyFirst(rules: seq<Rule>, s: string, otherwise: string, k: nat)
    requires k < |rules| && Matches(rules[k], s)
    requires forall j :: 0 <= j < k ==> !Matches(rules[j], s)
    ensures Classify(rules, s, otherwise) == rules[k].category
  {
    var r := FirstMatch(rules, s, 0);
    assert r.Some? && !(r.value < k) && !(k < r.value);
  }

  // ---------------------------------------------------------------------
  // The cleaners
  // ---------------------------------------------------------------------

  const EmploymentRules: seq<Rule> := [
    Rule([Substring("full-time")], "Full-time"),
    Rule([Substring("part-time")], "Part-time"),
    Rule([Substring("contractor"), Substring("freelance")], "Contractor/Freelance"),
    Rule([Substring("student")], "Student")
  ]

  /** `clean_employment(emp_str)`. */
  function CleanEmployment(x: Option<string>): (r: string)
    ensures r == "Unknown" <==> x.None?
  {
    match x
    case None => "Unknown"
    case Some(s) => Classify(EmploymentRules, Lower(s), "Other")
  }

  /** The `if`/`elif` chain of clean_employment, applied to the lower-cased text. */
  lemma CleanEmploymentChain(s: string)
    ensures var t, r := Lower(s), CleanEmployment(Some(s));
      && (r == "Full-time" <==> Contains(t, "full-time"))
      && (r == "Part-time" <==> !Contains(t, "full-time") && Contains(t, "part-time"))
      && (r == "Contractor/Freelance" <==> !Contains(t, "full-time") && !Contains(t, "part-time") &&
                                           (Contains(t, "contractor") || Contains(t, "freelance")))
      && (r == "Student" <==> !Contains(t, "full-time") && !Contains(t, "part-time") &&
                              !Contains(t, "contractor") && !Contains(t, "freelance") && Contains(t, "student"))
      && (r == "Other" <==> !Contains(t, "full-time") && !Contains(t, "part-time") &&
                            !Contains(t, "contractor") && !Contains(t, "freelance") && !Contains(t, "student"))
  {
    var t := Lower(s);
    OneTest(Substring("full-time"), "Full-time", t);
    OneTest(Substring("part-time"), "Part-time", t);
    TwoTests(Substring("contractor"), Substring("freelance"), "Contractor/Freelance", t);
    OneTest(Substring("student"), "Student", t);
  }

  /** Letter case never changes the employment category. */
  lemma CleanEmploymentCaseInsensitive(s: string)
    ensures CleanEmployment(Some(Lower(s))) == CleanEmployment(Some(s))
  {
    LowerIdempotent(s);
  }

  const RemoteRules: seq<Rule> := [
    Rule([Substring("fully remote")], "Fully Remote"),
    Rule([Substring("hybrid")], "Hybrid")
  ]

  /** `clean_remote(remote_str)`. */
  function CleanRemote(x: Option<string>): (r: string)
    ensures r == "Unknown" <==> x.None?
  {
    match x
    case None => "Unknown"
    case Some(s) => Classify(RemoteRules, Lower(s), "In-person")
  }

  /** "fully remote" wins over "hybrid"; anything else is in person. */
  lemma CleanRemoteChain(s: string)
    ensures var t, r := Lower(s), CleanRemote(Some(s));
      && (r == "Fully Remote" <==> Contains(t, "fully remote"))
      && (r == "Hybrid" <==> !Contains(t, "fully remote") && Contains(t, "hybrid"))
      && (r == "In-person" <==> !Contains(t, "fully remote") && !Contains(t, "hybrid"))
  {
    var t := Lower(s);
    OneTest(Substring("fully remote"), "Fully Remote", t);
    OneTest(Substring("hybrid"), "Hybrid", t);
  }

  const YearsCodeRules: seq<Rule> := [
    Rule([Substring("less than 1 year"), Equals("0")], "<1 year"),
    Rule([Equals("1"), Equals("2")], "1-2 years"),
    Rule([Equals("3"), Equals("4"), Equals("5")], "3-5 years"),
    Rule([Equals("6"), Equals("7"), Equals("8"), Equals("9"), Equals("10")], "6-10 years"),
    Rule([Equals("11"), Equals("12"), Equals("13"), Equals("14"), Equals("15")], "11-15 years")
  ]

  /** `clean_years_code(years_str)`. */
  function CleanYearsCode(x: Option<string>): (r: string)
    ensures r == "Unknown" <==> x.None?
  {
    match x
    case None => "Unknown"
    case Some(s) => Classify(YearsCodeRules, Lower(s), "15+ years")
  }

  /** The `if`/`elif` chain of clean_years_code, written out: the exact
      answers "0" to "15" land in their buckets, "less than 1 year" anywhere
      means under a year, and every other answer -- "more than 50 years" as
      much as "16" or "" -- counts as over 15. */
  function YearsCodeChain(t: string): string
  {
    if Contains(t, "less than 1 year") || t == "0" then "<1 year"
    else if t == "1" || t == "2" then "1-2 years"
    else if t == "3" || t == "4" || t == "5" then "3-5 years"
    else if t == "6" || t == "7" || t == "8" || t == "9" || t == "10" then "6-10 years"
    else if t == "11" || t == "12" || t == "13" || t == "14" || t == "15" then "11-15 years"
    else "15+ years"
  }

  lemma CleanYearsCodeChain(s: string)
    ensures CleanYearsCode(Some(s)) == YearsCodeChain(Lower(s))
  {
    YearsCodeClassify(Lower(s));
  }

  lemma YearsCodeClassify(t: string)
    ensures Classify(YearsCodeRules, t, "15+ years") == YearsCodeChain(t)
  {
    YearsCodeHead(t);
    YearsCodeTail(t);
  }

  /** The first three branches of clean_years_code. */
  lemma YearsCodeHead(t: string)
    ensures FirstMatch(YearsCodeRules, t, 0) ==
      if Contains(t, "less than 1 year") || t == "0" then Some(0)
      else if t == "1" || t == "2" then Some(1)
      else if t == "3" || t == "4" || t == "5" then Some(2)
      else FirstMatch(YearsCodeRules, t, 3)
  {
    var R := YearsCodeRules;
    TwoTests(Substring("less than 1 year"), Equals("0"), "<1 year", t);
    TwoTests(Equals("1"), Equals("2"), "1-2 years", t);
    ThreeTests(Equals("3"), Equals("4"), Equals("5"), "3-5 years", t);
    FirstMatchStep(R, t, 0);
    FirstMatchStep(R, t, 1);
    FirstMatchStep(R, t, 2);
  }

  /** The last two branches of clean_years_code and its `else`. */
  lemma YearsCodeTail(t: string)
    ensures FirstMatch(YearsCodeRules, t, 3) ==
      if t == "6" || t == "7" || t == "8" || t == "9" || t == "10" then Some(3)
      else if t == "11" || t == "12" || t == "13" || t == "14" || t == "15" then Some(4)
      else None
  {
    var R := YearsCodeRules;
    FiveTests(Equals("6"), Equals("7"), Equals("8"), Equals("9"), Equals("10"), "6-10 years", t);
    FiveTests(Equals("11"), Equals("12"), Equals("13"), Equals("14"), Equals("15"), "11-15 years", t);
    FirstMatchStep(R, t, 3);
    FirstMatchStep(R, t, 4);
  }

  const DevTypeRules: seq<Rule> := [
    Rule([Substring("full-stack")], "Full-stack"),
    Rule([Substring("back-end")], "Backend"),
    Rule([Substring("front-end")], "Frontend"),
    Rule([Substring("mobile")], "Mobile"),
    Rule([Substring("data scientist"), Substring("data")], "Data Science"),
    Rule([Substring("devops"), Substring("sre")], "DevOps/SRE")
  ]

  /** `clean_dev_type(dev_type_str)`. */
  function CleanDevType(x: Option<string>): (r: string)
    ensures r == "Unknown" <==> x.None?
  {
    match x
    case None => "Unknown"
    case Some(s) => Classify(DevTypeRules, Lower(s), "Other")
  }

  /** The `if`/`elif` chain of clean_dev_type, written out. */
  function DevTypeChain(t: string): string
  {
    if Contains(t, "full-stack") then "Full-stack"
    else if Contains(t, "back-end") then "Backend"
    else if Contains(t, "front-end") then "Frontend"
    else if Contains(t, "mobile") then "Mobile"
    else if Contains(t, "data scientist") || Contains(t, "data") then "Data Science"
    else if Contains(t, "devops") || Contains(t, "sre") then "DevOps/SRE"
    else "Other"
  }

  lemma CleanDevTypeChain(s: string)
    ensures CleanDevType(Some(s)) == DevTypeChain(Lower(s))
  {
    var t := Lower(s);
    FirstMatchStep(DevTypeRules, t, 0);
    FirstMatchStep(DevTypeRules, t, 1);
    FirstMatchStep(DevTypeRules, t, 2);
    FirstMatchStep(DevTypeRules, t, 3);
    FirstMatchStep(DevTypeRules, t, 4);
    FirstMatchStep(DevTypeRules, t, 5);
    OneTest(Substring("full-stack"), "Full-stack", t);
    OneTest(Substring("back-end"), "Backend", t);
    OneTest(Substring("front-end"), "Frontend", t);
    OneTest(Substring("mobile"), "Mobile", t);
    TwoTests(Substring("data scientist"), Substring("data"), "Data Science", t);
    TwoTests(Substring("devops"), Substring("sre"), "DevOps/SRE", t);
  }

  /** A text that contains p contains every prefix of p. */
  lemma ContainsWithin(s: string, q: string, p: string)
    requires |q| <= |p| && p[..|q|] == q
    ensures Contains(s, p) ==> Contains(s, q)
  {
    ContainsOccurrence(s, p);
    ContainsOccurrence(s, q);
    if Contains(s, p) {
      var i :| OccursAt(s, p, i);
      assert s[i..i + |q|] == s[i..i + |p|][..|q|];
      assert OccursAt(s, q, i);
    }
  }

  /** The "data scientist" test of clean_dev_type is subsumed by the "data"
      test beside it: the two together accept exactly the texts holding "data". */
  lemma DataScientistSubsumed(t: string)
    ensures Contains(t, "data scientist") || Contains(t, "data") <==> Contains(t, "data")
  {
    assert "data scientist" == "data" + " scientist";
    ContainsWithin(t, "data", "data scientist");
  }

  const OrgSizeRules: seq<Rule> := [
    Rule([Substring("just me"), Substring("2 to 9")], "Small (1-9)"),
    Rule([Substring("10 to 19")], "Medium (10-19)"),
    Rule([Substring("20 to 99")], "Medium (20-99)"),
    Rule([Substring("100 to 499")], "Large (100-499)"),
    Rule([Substring("500 to 999")], "Large (500-999)"),
    Rule([Substring("1,000 to 4,999")], "Enterprise (1K-5K)"),
    Rule([Substring("5,000 to 9,999"), Substring("10,000 or more")], "Enterprise (5K+)")
  ]

  /** `clean_org_size(org_str)`: missing and unmatched answers are both "Unknown". */
  function CleanOrgSize(x: Option<string>): (r: string)
    ensures x.None? ==> r == "Unknown"
  {
    match x
    case None => "Unknown"
    case Some(s) => Classify(OrgSizeRules, Lower(s), "Unknown")
  }

  /** The `if`/`elif` chain of clean_org_size, written out. */
  function OrgSizeChain(t: string): string
  {
    if Contains(t, "just me") || Contains(t, "2 to 9") then "Small (1-9)"
    else if Contains(t, "10 to 19") then "Medium (10-19)"
    else if Contains(t, "20 to 99") then "Medium (20-99)"
    else if Contains(t, "100 to 499") then "Large (100-499)"
    else if Contains(t, "500 to 999") then "Large (500-999)"
    else if Contains(t, "1,000 to 4,999") then "Enterprise (1K-5K)"
    else if Contains(t, "5,000 to 9,999") || Contains(t, "10,000 or more") then "Enterprise (5K+)"
    else "Unknown"
  }

  lemma CleanOrgSizeChain(s: string)
    ensures CleanOrgSize(Some(s)) == OrgSizeChain(Lower(s))
  {
    var t := Lower(s);
    FirstMatchStep(OrgSizeRules, t, 0);
    FirstMatchStep(OrgSizeRules, t, 1);
    FirstMatchStep(OrgSizeRules, t, 2);
    FirstMatchStep(OrgSizeRules, t, 3);
    FirstMatchStep(OrgSizeRules, t, 4);
    FirstMatchStep(OrgSizeRules, t, 5);
    FirstMatchStep(OrgSizeRules, t, 6);
    TwoTests(Substring("just me"), Substring("2 to 9"), "Small (1-9)", t);
    OneTest(Substring("10 to 19"), "Medium (10-19)", t);
    OneTest(Substring("20 to 99"), "Medium (20-99)", t);
    OneTest(Substring("100 to 499"), "Large (100-499)", t);
    OneTest(Substring("500 to 999"), "Large (500-999)", t);
    OneTest(Substring("1,000 to 4,999"), "Enterprise (1K-5K)", t);
    TwoTests(Substring("5,000 to 9,999"), Substring("10,000 or more"), "Enterprise (5K+)", t);
  }

  // ---------------------------------------------------------------------
  // Country
  // ---------------------------------------------------------------------

  /** The two long official names, each written as two pieces so that the
      verifier can see which letters they hold. */
  const UnitedStates: string := "United " + "States of America"
  const UnitedKingdom: string := "United Kingdom of " + "Great Britain and Northern Ireland"

  /** 'S' occurs in the United States' name but nowhere in the United Kingdom's. */
  lemma CapitalS()
    ensures 'S' in UnitedStates && 'S' !in UnitedKingdom
  {
    assert 'S' in "States of America";
  }

  /** The ten countries kept by name; every other country becomes "Other". */
  const TopCountries: seq<string> := [
    UnitedStates, "Germany", UnitedKingdom, "India", "Canada",
    "France", "Netherlands", "Australia", "Brazil", "Poland"
  ]

  /** Python's `s.replace(pat, rep)` for a non-empty pattern: occurrences are
      replaced left to right, without overlapping. */
  function Replace(s: string, pat: string, rep: string): string
    requires |pat| > 0
    decreases |s|
  {
    if |s| < |pat| then s
    else if s[..|pat|] == pat then rep + Replace(s[|pat|..], pat, rep)
    else [s[0]] + Replace(s[1..], pat, rep)
  }

  /** A text shorter than the pattern is left alone. */
  lemma ReplaceShort(s: string, pat: string, rep: string)
    requires |pat| > 0 && |s| < |pat|
    ensures Replace(s, pat, rep) == s
  {
  }

  /** The pattern itself becomes the replacement. */
  lemma ReplaceWhole(pat: string, rep: string)
    requires |pat| > 0
    ensures Replace(pat, pat, rep) == rep
  {
    assert pat[..|pat|] == pat;
    assert rep + [] == rep;
  }

  /** A text lacking some character of the pattern has no occurrence of it,
      so it is left alone. */
  lemma {:induction false} ReplaceMissingChar(s: string, pat: string, rep: string, c: char)
    requires |pat| > 0 && c in pat && c !in s
    ensures Replace(s, pat, rep) == s
    decreases |s|
  {
    if |s| >= |pat| {
      var i :| 0 <= i < |pat| && pat[i] == c;
      assert s[..|pat|][i] != pat[i];
      assert c !in s[1..];
      ReplaceMissingChar(s[1..], pat, rep, c);
      assert [s[0]] + s[1..] == s;
    }
  }

  /** `clean_country(country_str)`. */
  function CleanCountry(x: Option<string>): (r: string)
    ensures r != "Other" ==> x.Some? && x.value in TopCountries
  {
    match x
    case None => "Other"
    case Some(c) =>
      if c in TopCountries then
        Replace(Replace(c, UnitedStates, "United States"), UnitedKingdom, "United Kingdom")
      else "Other"
  }

  /** The ten top countries keep their names, the two long official names
      shortened; every other answer is "Other". */
  lemma CleanCountryNames(c: string)
    ensures CleanCountry(Some(c)) ==
      if c == UnitedStates then "United States"
      else if c == UnitedKingdom then "United Kingdom"
      else if c in TopCountries then c
      else "Other"
  {
    if c == UnitedStates {
      ReplaceWhole(UnitedStates, "United States");
      ReplaceShort("United States", UnitedKingdom, "United Kingdom");
    } else if c == UnitedKingdom {
      CapitalS();
      ReplaceMissingChar(UnitedKingdom, UnitedStates, "United States", 'S');
      ReplaceWhole(UnitedKingdom, "United Kingdom");
    } else if c in TopCountries {
      assert |c| < |UnitedStates|;
      ReplaceShort(c, UnitedStates, "United States");
      ReplaceShort(c, UnitedKingdom, "United Kingdom");
    }
  }
}
