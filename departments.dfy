/**
 * The department table of the web front end (`constants/departments.js`): the
 * departments with their course length, the year labels, and the year options
 * a department's form offers.
 */
module Departments {
  import opened Wrappers
  import opened Text

  /** Undergraduate or postgraduate. */
  datatype Degree = UG | PG

  datatype Department = Department(value: string, labelText: string, years: nat, degree: Degree)

  /** `DEPARTMENTS`: sixteen four-year undergraduate departments, then ten two-year postgraduate ones. */
  const Departments: seq<Department> := [
    Department("CSE", "Computer Science and Engineering (CSE)", 4, UG),
    Department("IT", "Information Technology (IT)", 4, UG),
    Department("ECE", "Electronics and Communication Engineering (ECE)", 4, UG),
    Department("EEE", "Electrical and Electronics Engineering (EEE)", 4, UG),
    Department("MECH", "Mechanical Engineering (MECH)", 4, UG),
    Department("CIVIL", "Civil Engineering (CIVIL)", 4, UG),
    Department("CHEM", "Chemical Engineering (CHEM)", 4, UG),
    Department("AERO", "Aeronautical Engineering (AERO)", 4, UG),
    Department("AUTO", "Automobile Engineering (AUTO)", 4, UG),
    Department("BIOMED", "Biomedical Engineering (BIOMED)", 4, UG),
    Department("BIOTECH", "Biotechnology (BIOTECH)", 4, UG),
    Department("AI-DS", "Artificial Intelligence and Data Science (AI-DS)", 4, UG),
    Department("AI-ML", "Artificial Intelligence and Machine Learning (AI-ML)", 4, UG),
    Department("CYBER", "Cyber Security (CYBER)", 4, UG),
    Department("IOT", "Internet of Things (IoT)", 4, UG),
    Department("ROBOTICS", "Robotics and Automation (ROBOTICS)", 4, UG),
    Department("M.TECH-CSE", "M.Tech Computer Science and Engineering", 2, PG),
    Department("M.TECH-VLSI", "M.Tech VLSI Design", 2, PG),
    Department("M.TECH-PS", "M.Tech Power Systems", 2, PG),
    Department("M.TECH-SE", "M.Tech Software Engineering", 2, PG),
    Department("M.TECH-CAD", "M.Tech CAD/CAM", 2, PG),
    Department("M.TECH-TE", "M.Tech Thermal Engineering", 2, PG),
    Department("M.TECH-SP", "M.Tech Signal Processing", 2, PG),
    Department("M.TECH-CN", "M.Tech Computer Networks", 2, PG),
    Department("M.TECH-ES", "M.Tech Embedded Systems", 2, PG),
    Department("MCA", "Master of Computer Applications (MCA)", 2, PG)
  ]

  /** `ALL_YEARS`: the four year labels used for filtering. */
  const AllYears: seq<string> := ["First Year", "Second Year", "Third Year", "Fourth Year"]

  /** Every undergraduate department runs four years and every postgraduate one two. */
  predicate DegreeLengths(ds: seq<Department>)
  {
    forall i :: 0 <= i < |ds| ==> ds[i].years == (if ds[i].degree == UG then 4 else 2)
  }

  /** The table keeps to the degree lengths: sixteen undergraduate entries, then ten postgraduate ones. */
  lemma DepartmentTable()
    ensures |Departments| == 26 && DegreeLengths(Departments)
    ensures forall i :: 0 <= i < 16 ==> Departments[i].degree == UG
    ensures forall i :: 16 <= i < 26 ==> Departments[i].degree == PG
  {
  }

  /** `DEPARTMENTS.find(d => d.value === v)`: the first department with that value. */
  function Find(ds: seq<Department>, v: string): (r: Option<Department>)
    ensures r.None? <==> forall i :: 0 <= i < |ds| ==> ds[i].value != v
    ensures r.Some? ==> exists i :: 0 <= i < |ds| && ds[i] == r.value && r.value.value == v
                          && forall j :: 0 <= j < i ==> ds[j].value != v
  {
    if ds == [] then None
    else if ds[0].value == v then
      assert ds[0] == ds[0];
      Some(ds[0])
    else
      var rest := Find(ds[1..], v);
      if rest.Some? then
        var i :| 0 <= i < |ds[1..]| && ds[1..][i] == rest.value && rest.value.value == v
                  && forall j :: 0 <= j < i ==> ds[1..][j].value != v;
        assert ds[i + 1] == rest.value;
        rest
      else rest
  }

  /** `getYearLabel`: "First Year" to "Fourth Year" for 1 to 4, "Year n" for anything else. */
  function GetYearLabel(n: int): (s: string)
  {
    if 1 <= n <= 4 then AllYears[n - 1] else "Year " + IntToString(n)
  }

  /** The ordinal labels are exactly the four filter years, in order. */
  lemma OrdinalLabels()
    ensures forall n :: 1 <= n <= 4 ==> GetYearLabel(n) == AllYears[n - 1]
    ensures GetYearLabel(5) == "Year 5" && GetYearLabel(0) == "Year 0"
  {
    assert NatToString(5) == "5";
    assert NatToString(0) == "0";
  }

  /** Different year numbers get different labels, so the options of one department never repeat. */
  lemma YearLabelInjective(a: int, b: int)
    requires GetYearLabel(a) == GetYearLabel(b)
    ensures a == b
  {
    var la, lb := GetYearLabel(a), GetYearLabel(b);
    assert (1 <= a <= 4) == (la[0] != 'Y');
    assert (1 <= b <= 4) == (lb[0] != 'Y');
    if 1 <= a <= 4 {
      assert AllYears[a - 1][..2] == la[..2] == lb[..2] == AllYears[b - 1][..2];
    } else {
      assert la[5..] == IntToString(a) && lb[5..] == IntToString(b);
      IntToStringInjective(a, b);
    }
  }

  /** Different integers print differently. */
  lemma IntToStringInjective(a: int, b: int)
    requires IntToString(a) == IntToString(b)
    ensures a == b
  {
    var s, t := IntToString(a), IntToString(b);
    assert (a >= 0) == (s[0] != '-');
    assert (b >= 0) == (t[0] != '-');
    if a >= 0 {
      NatToStringInjective(a, b);
    } else {
      assert s[1..] == NatToString(-a) && t[1..] == NatToString(-b);
      NatToStringInjective(-a, -b);
    }
  }

  datatype YearOption = YearOption(value: string, labelText: string)

  /**
   * `getYearOptions`: nothing for an unknown department, otherwise one option per
   * year of the course, value and label both the year's label.
   */
  method GetYearOptions(departmentValue: string) returns (options: seq<YearOption>)
    ensures Find(Departments, departmentValue).None? ==> options == []
    ensures Find(Departments, departmentValue).Some? ==>
      |options| == Find(Departments, departmentValue).value.years
    ensures forall k :: 0 <= k < |options| ==>
      options[k].value == options[k].labelText == GetYearLabel(k + 1)
    ensures forall i, j :: 0 <= i < j < |options| ==> options[i].value != options[j].value
  {
    var dept := Find(Departments, departmentValue);
    if dept.None? {
      return [];
    }
    options := YearOptions(dept.value.years);
  }

  /** The loop of `getYearOptions`: one option per year from 1 to `years`. */
  method YearOptions(years: nat) returns (options: seq<YearOption>)
    ensures |options| == years
    ensures forall k :: 0 <= k < |options| ==>
      options[k].value == options[k].labelText == GetYearLabel(k + 1)
    ensures forall i, j :: 0 <= i < j < |options| ==> options[i].value != options[j].value
  {
    options := [];
    var i := 1;
    while i <= years
      invariant 1 <= i <= years + 1
      invariant |options| == i - 1
      invariant forall k :: 0 <= k < |options| ==> options[k].value == options[k].labelText == GetYearLabel(k + 1)
    {
      options := options + [YearOption(GetYearLabel(i), GetYearLabel(i))];
      i := i + 1;
    }
    OptionsDistinct(options);
  }

  /** Options labelled by consecutive year numbers never repeat a value. */
  lemma OptionsDistinct(options: seq<YearOption>)
    requires forall k :: 0 <= k < |options| ==> options[k].value == GetYearLabel(k + 1)
    ensures forall i, j :: 0 <= i < j < |options| ==> options[i].value != options[j].value
  {
    forall i, j | 0 <= i < j < |options|
      ensures options[i].value != options[j].value
    {
      if options[i].value == options[j].value {
        YearLabelInjective(i + 1, j + 1);
      }
    }
  }

  /** An undergraduate department offers the four filter years; a postgraduate one the first two. */
  lemma OptionsByDegree(d: Department, options: seq<YearOption>)
    requires d.years == (if d.degree == UG then 4 else 2)
    requires |options| == d.years
    requires forall k :: 0 <= k < |options| ==> options[k].value == GetYearLabel(k + 1)
    ensures d.degree == UG ==> forall k :: 0 <= k < 4 ==> options[k].value == AllYears[k]
    ensures d.degree == PG ==> forall k :: 0 <= k < 2 ==> options[k].value == AllYears[k]
  {
    OrdinalLabels();
  }
}
