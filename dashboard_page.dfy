/** `getStudents` of the dashboard page: every student in order of registration number, with the
    status of an open interval and the placement of the latest enrollment. */
module DashboardPage {
  import opened Common
  import opened Text
  import opened Records
  import opened DashboardClient

  /** The projection of one student. `||` turns a missing open interval or an empty status into
      "UNKNOWN", a missing enrollment into grade 0, and a missing enrollment or empty class into "-". */
  function Summarize(t: Tables, s: Student): (r: StudentSummary)
    ensures r.id == s.id && r.sNumber == s.sNumber && r.legalName == s.legalName
    ensures r.aliasName == s.aliasName && r.useAliasFlag == s.useAliasFlag
    ensures (forall iv :: iv in t.intervals ==> !IsOpenOf(iv, s.id)) ==> r.status == "UNKNOWN"
    ensures (exists iv :: iv in t.intervals && IsOpenOf(iv, s.id)) ==>
      exists iv :: iv in t.intervals && IsOpenOf(iv, s.id)
        && r.status == (if iv.status == "" then "UNKNOWN" else iv.status)
    ensures (forall e :: e in t.enrollments ==> e.studentId != s.id) ==> r.grade == 0 && r.className == "-"
    ensures (exists e :: e in t.enrollments && e.studentId == s.id) ==>
      exists e :: IsLatestOf(t.enrollments, s.id, e)
        && r.grade == e.grade && r.className == (if e.className == "" then "-" else e.className)
  {
    var open := OpenInterval(t, s.id);
    var latest := LatestEnrollment(t.enrollments, s.id);
    StudentSummary(s.id, s.sNumber, s.legalName, s.aliasName, s.useAliasFlag || false,
                   OrText(if open.Some? then Some(open.value.status) else None, "UNKNOWN"),
                   OrNumber(if latest.Some? then Some(latest.value.grade) else None, 0),
                   OrText(if latest.Some? then Some(latest.value.className) else None, "-"))
  }

  /** `MOCK_STUDENTS`, the list shown when the query throws. */
  const MockStudents: seq<StudentSummary> := [
    StudentSummary("1", "2025001", "Yamada Taro", None, false, "ACTIVE", 1, "A"),
    StudentSummary("2", "2025002", "Suzuki Hanako", Some("Hana"), true, "ACTIVE", 1, "B"),
    StudentSummary("3", "2025003", "Tanaka Ken", None, false, "WARNING", 2, "A"),
    StudentSummary("4", "2025004", "Sato Yumi", None, false, "LEAVE", 3, "C"),
    StudentSummary("5", "2025005", "Ito Takashi", None, false, "ACTIVE", 1, "A")
  ]

  /** `getStudents`; `fetched` is `None` when the query throws. */
  function GetStudents(fetched: Option<Tables>): (r: seq<StudentSummary>)
    ensures fetched.None? ==> r == MockStudents
    ensures fetched.Some? ==>
      var t := fetched.value;
      && |r| == |t.students|
      && (forall i :: 0 <= i < |r| - 1 ==> LexLeq(r[i].sNumber, r[i + 1].sNumber))
      && (forall x :: x in r ==> exists s :: s in t.students && x == Summarize(t, s))
      && (forall s :: s in t.students ==> Summarize(t, s) in r)
    ensures fetched.Some? ==>
      var t := fetched.value;
      exists ss :: SortedBySNumber(ss) && multiset(ss) == multiset(t.students)
        && |ss| == |r| && forall i :: 0 <= i < |r| ==> r[i] == Summarize(t, ss[i])
  {
    match fetched
    case None => MockStudents
    case Some(t) =>
      var sorted := SortBySNumber(t.students);
      SortKeepsMembers(t.students);
      assert |sorted| == |multiset(sorted)| == |t.students|;
      var r := Map(sorted, (s: Student) => Summarize(t, s));
      assert forall i :: 0 <= i < |r| ==> r[i] == Summarize(t, sorted[i]);
      r
  }

  /** Suzuki Hanako is shown under the alias "Hana"; Yamada Taro, with no alias, by legal name. */
  lemma MockDisplayNames()
    ensures DisplayName(MockStudents[1]) == AliasAndLegal("Hana", "Suzuki Hanako")
    ensures DisplayName(MockStudents[0]) == LegalOnly("Yamada Taro")
  {
  }
}
