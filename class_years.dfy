/**
 * The class-year helpers of the front end's API types (`types/api.ts`): the
 * fixed year lists per degree type and the year list built from a
 * department's course length.
 */
module ClassYears {
  import opened Departments

  /** `CLASS_YEARS_UG`. */
  const ClassYearsUG: seq<string> := ["First Year", "Second Year", "Third Year", "Fourth Year"]

  /** `CLASS_YEARS_PG`. */
  const ClassYearsPG: seq<string> := ["First Year", "Second Year"]

  /** `getClassYears`: the undergraduate list for UG, the postgraduate list otherwise. */
  function GetClassYears(degreeType: Degree): (years: seq<string>)
    ensures degreeType == UG ==> |years| == 4
    ensures degreeType == PG ==> |years| == 2
    ensures years == ClassYearsUG[..|years|]
  {
    if degreeType == UG then ClassYearsUG else ClassYearsPG
  }

  /** The postgraduate list is the first two years of the undergraduate one, and both agree with the filter years. */
  lemma ClassYearListsAgree()
    ensures ClassYearsPG == ClassYearsUG[..2]
    ensures ClassYearsUG == AllYears
  {
  }

  /** `yearNames[i - 1]`: an ordinal for 1 to 5; JavaScript reads `undefined` outside the array. */
  function YearName(i: int): (name: string)
    ensures (1 <= i <= 5) == (name != "undefined")
  {
    var yearNames := ["First", "Second", "Third", "Fourth", "Fifth"];
    if 1 <= i <= 5 then yearNames[i - 1] else "undefined"
  }

  /**
   * `getClassYearsForDepartment`: one entry per year of the course, entry i
   * being the i-th ordinal followed by " Year".
   */
  method GetClassYearsForDepartment(durationYears: int) returns (years: seq<string>)
    ensures |years| == if durationYears < 0 then 0 else durationYears
    ensures forall k :: 0 <= k < |years| ==> years[k] == YearName(k + 1) + " Year"
  {
    years := [];
    var i := 1;
    while i <= durationYears
      invariant 1 <= i <= (if durationYears < 0 then 0 else durationYears) + 1
      invariant |years| == i - 1
      invariant forall k :: 0 <= k < |years| ==> years[k] == YearName(k + 1) + " Year"
    {
      years := years + [YearName(i) + " Year"];
      i := i + 1;
    }
  }

  /**
   * Up to four years the list is the undergraduate list cut to that length, and
   * each entry is the department form's label for that year; a fifth year is
   * "Fifth Year", and any later year reads "undefined Year".
   */
  lemma DepartmentYearsAgree(years: seq<string>)
    requires forall k :: 0 <= k < |years| ==> years[k] == YearName(k + 1) + " Year"
    ensures |years| <= 4 ==> years == ClassYearsUG[..|years|]
    ensures forall k :: 0 <= k < |years| && k < 4 ==> years[k] == GetYearLabel(k + 1)
    ensures |years| >= 5 ==> years[4] == "Fifth Year" && GetYearLabel(5) == "Year 5"
    ensures forall k :: 5 <= k < |years| ==> years[k] == "undefined Year"
  {
    OrdinalLabels();
    forall k | 0 <= k < |years| && k < 4
      ensures years[k] == ClassYearsUG[k] == GetYearLabel(k + 1)
    {
      if k == 0 {
        assert years[k] == "First" + " Year";
      } else if k == 1 {
        assert years[k] == "Second" + " Year";
      } else if k == 2 {
        assert years[k] == "Third" + " Year";
      } else {
        assert years[k] == "Fourth" + " Year";
      }
    }
    if |years| >= 5 {
      assert years[4] == "Fifth" + " Year";
    }
    forall k | 5 <= k < |years|
      ensures years[k] == "undefined Year"
    {
      assert years[k] == "undefined" + " Year";
    }
  }
}
