/** The dashboard: the directory search, the three KPI counts and the name shown for a student. */
module DashboardClient {
  import opened Common
  import opened Text

  /** `StudentSummary`: one directory row as the dashboard page hands it over. */
  datatype StudentSummary = StudentSummary(id: string, sNumber: string, legalName: string,
                                           aliasName: Option<string>, useAliasFlag: bool,
                                           status: string, grade: int, className: string)

  /** The search: the legal name or a non-empty alias contains the query ignoring case, or the
      registration number contains it as typed. */
  predicate MatchesQuery(s: StudentSummary, query: string)
    ensures query == "" ==> MatchesQuery(s, query)
    ensures Lower(query) == Lower(s.legalName) ==> MatchesQuery(s, query)
    ensures query == s.sNumber ==> MatchesQuery(s, query)
  {
    ContainsEmpty(Lower(s.legalName));
    ContainsItself(Lower(s.legalName));
    ContainsItself(s.sNumber);
    || Contains(Lower(s.legalName), Lower(query))
    || (s.aliasName.Some? && s.aliasName.value != "" && Contains(Lower(s.aliasName.value), Lower(query)))
    || Contains(s.sNumber, query)
  }

  /** `filteredStudents`: the matching students, in the order given. */
  function FilteredStudents(students: seq<StudentSummary>, query: string): (r: seq<StudentSummary>)
    ensures forall s :: s in r <==> s in students && MatchesQuery(s, query)
    ensures IsSubsequence(r, students)
    ensures forall s :: s in students ==> multiset(r)[s] == if MatchesQuery(s, query) then multiset(students)[s] else 0
  {
    FilterIsSubsequence(students, (s: StudentSummary) => MatchesQuery(s, query));
    Filter(students, (s: StudentSummary) => MatchesQuery(s, query))
  }

  /** Searching the search result again with the same query changes nothing. */
  lemma FilterTwiceIsFilterOnce(students: seq<StudentSummary>, query: string)
    ensures FilteredStudents(FilteredStudents(students, query), query) == FilteredStudents(students, query)
  {
    FilterIdempotent(students, (s: StudentSummary) => MatchesQuery(s, query));
  }

  /** The empty query keeps every student. */
  lemma EmptyQueryKeepsAll(students: seq<StudentSummary>)
    ensures FilteredStudents(students, "") == students
  {
    forall s | s in students
      ensures MatchesQuery(s, "")
    {
      ContainsEmpty(Lower(s.legalName));
    }
    FilterKeepsAll(students, (s: StudentSummary) => MatchesQuery(s, ""));
  }

  /** The three KPI cards: active students, students in warning, and third-graders. */
  datatype Kpis = Kpis(active: nat, warning: nat, graduation: nat)

  /** `students.filter(s => s.status === status)`. */
  function WithStatus(students: seq<StudentSummary>, status: string): seq<StudentSummary>
  {
    Filter(students, (s: StudentSummary) => s.status == status)
  }

  /** `students.filter(s => s.grade === grade)`. */
  function InGrade(students: seq<StudentSummary>, grade: int): seq<StudentSummary>
  {
    Filter(students, (s: StudentSummary) => s.grade == grade)
  }

  lemma WithStatusCount(students: seq<StudentSummary>, status: string)
    ensures |WithStatus(students, status)| == |set i | 0 <= i < |students| && students[i].status == status|
  {
    var p := (s: StudentSummary) => s.status == status;
    FilterCountsPositions(students, p);
    assert Positions(students, p) == set i | 0 <= i < |students| && students[i].status == status;
  }

  lemma InGradeCount(students: seq<StudentSummary>, grade: int)
    ensures |InGrade(students, grade)| == |set i | 0 <= i < |students| && students[i].grade == grade|
  {
    var p := (s: StudentSummary) => s.grade == grade;
    FilterCountsPositions(students, p);
    assert Positions(students, p) == set i | 0 <= i < |students| && students[i].grade == grade;
  }

  /** The cards count the students whose status is ACTIVE, whose status is WARNING, and who are in
      grade 3; no student is in both of the first two. */
  function CountKpis(students: seq<StudentSummary>): (k: Kpis)
    ensures k.active == |set i | 0 <= i < |students| && students[i].status == "ACTIVE"|
    ensures k.warning == |set i | 0 <= i < |students| && students[i].status == "WARNING"|
    ensures k.graduation == |set i | 0 <= i < |students| && students[i].grade == 3|
    ensures k.active <= |students| && k.warning <= |students| && k.graduation <= |students|
    ensures k.active + k.warning <= |students|
  {
    WithStatusCount(students, "ACTIVE");
    WithStatusCount(students, "WARNING");
    InGradeCount(students, 3);
    FilterDisjointCounts(students, (s: StudentSummary) => s.status == "ACTIVE", (s: StudentSummary) => s.status == "WARNING");
    Kpis(|WithStatus(students, "ACTIVE")|, |WithStatus(students, "WARNING")|, |InGrade(students, 3)|)
  }

  /** The name cell: the alias with the legal name beneath it, or the legal name alone. */
  datatype NameCell = AliasAndLegal(alias: string, legal: string) | LegalOnly(legal: string)

  function DisplayName(s: StudentSummary): (c: NameCell)
    ensures c.AliasAndLegal? <==> s.useAliasFlag && s.aliasName.Some? && s.aliasName.value != ""
    ensures c.AliasAndLegal? ==> c == AliasAndLegal(s.aliasName.value, s.legalName)
    ensures c.LegalOnly? ==> c == LegalOnly(s.legalName)
  {
    if s.useAliasFlag && OrText(s.aliasName, "") != "" then AliasAndLegal(s.aliasName.value, s.legalName)
    else LegalOnly(s.legalName)
  }

  /** One row of the directory table. */
  datatype DirectoryRow = DirectoryRow(id: string, sNumber: string, name: NameCell, grade: int,
                                       className: string, status: string)

  function RowOf(s: StudentSummary): DirectoryRow
  {
    DirectoryRow(s.id, s.sNumber, DisplayName(s), s.grade, s.className, s.status)
  }

  /** What the dashboard shows for a list of students and a query. */
  datatype View = View(kpis: Kpis, rows: seq<DirectoryRow>)

  function Dashboard(students: seq<StudentSummary>, query: string): (v: View)
    ensures v.kpis == CountKpis(students)
    ensures |v.rows| == |FilteredStudents(students, query)|
    ensures forall i :: 0 <= i < |v.rows| ==> v.rows[i] == RowOf(FilteredStudents(students, query)[i])
    ensures forall i :: 0 <= i < |v.rows| ==> exists s :: s in students && MatchesQuery(s, query) && v.rows[i] == RowOf(s)
  {
    var shown := FilteredStudents(students, query);
    var rows := Map(shown, RowOf);
    forall i | 0 <= i < |rows|
      ensures exists s :: s in students && MatchesQuery(s, query) && rows[i] == RowOf(s)
    {
      assert shown[i] in shown;
    }
    View(CountKpis(students), rows)
  }

  /** The cards count every student, not only those the search shows. */
  lemma KpisIgnoreQuery(students: seq<StudentSummary>, q1: string, q2: string)
    ensures Dashboard(students, q1).kpis == Dashboard(students, q2).kpis == CountKpis(students)
  {
  }
}
