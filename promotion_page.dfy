/** `getStudentsForPromotion`: the students who currently have an open ACTIVE status, in order of
    registration number, each with the placement of their latest enrollment. */
module PromotionPage {
  import opened Common
  import opened Text
  import opened Records
  import opened PromotionClient

  /** `statusHistory: { some: { status: 'ACTIVE', endDate: null } }`. */
  predicate HasOpenActive(t: Tables, id: string)
    ensures HasOpenActive(t, id) ==> OpenInterval(t, id).Some?
  {
    exists iv :: iv in t.intervals && IsOpenOf(iv, id) && iv.status == ACTIVE
  }

  /** The students the `where` keeps, in table order. */
  function Eligible(t: Tables): seq<Student>
  {
    Filter(t.students, (s: Student) => HasOpenActive(t, s.id))
  }

  /** The projection of one student. `||` turns a missing enrollment, a grade of 0 and an empty
      class into the defaults 1 and "?"; the number defaults to 0. */
  function BaseOf(t: Tables, s: Student): (r: StudentBase)
    ensures r.id == s.id && r.sNumber == s.sNumber && r.legalName == s.legalName
    ensures (forall e :: e in t.enrollments ==> e.studentId != s.id) ==>
      r.currentGrade == 1 && r.currentClass == "?" && r.currentNo == 0
    ensures (exists e :: e in t.enrollments && e.studentId == s.id) ==>
      exists e :: IsLatestOf(t.enrollments, s.id, e)
        && r.currentGrade == (if e.grade == 0 then 1 else e.grade)
        && r.currentClass == (if e.className == "" then "?" else e.className)
        && r.currentNo == e.attendanceNumber
  {
    var latest := LatestEnrollment(t.enrollments, s.id);
    StudentBase(s.id, s.sNumber, s.legalName,
                OrNumber(if latest.Some? then Some(latest.value.grade) else None, 1),
                OrText(if latest.Some? then Some(latest.value.className) else None, "?"),
                OrNumber(if latest.Some? then Some(latest.value.attendanceNumber) else None, 0))
  }

  /** The list shown when the query throws. */
  const MockStudentsForPromotion: seq<StudentBase> := [
    StudentBase("1", "2025001", "Yamada Taro", 1, "A", 1),
    StudentBase("2", "2025002", "Suzuki Hanako", 1, "B", 15),
    StudentBase("3", "2025003", "Tanaka Ken", 2, "A", 5),
    StudentBase("4", "2025004", "Sato Yumi", 2, "C", 20)
  ]

  /** The query's result: the eligible students sorted by registration number, each projected. */
  function PromotionBases(t: Tables): (r: seq<StudentBase>)
    ensures forall i :: 0 <= i < |r| - 1 ==> LexLeq(r[i].sNumber, r[i + 1].sNumber)
    ensures forall x :: x in r ==> exists s :: s in t.students && HasOpenActive(t, s.id) && x == BaseOf(t, s)
    ensures forall s :: s in t.students && HasOpenActive(t, s.id) ==> BaseOf(t, s) in r
    ensures |r| == |Eligible(t)|
    ensures exists ss ::
      && SortedBySNumber(ss) && multiset(ss) == multiset(Eligible(t))
      && |ss| == |r| && forall i :: 0 <= i < |r| ==> r[i] == BaseOf(t, ss[i])
  {
    var eligible := Eligible(t);
    var sorted := SortBySNumber(eligible);
    SortKeepsMembers(eligible);
    assert |sorted| == |multiset(sorted)| == |eligible|;
    var r := Map(sorted, (s: Student) => BaseOf(t, s));
    assert forall i :: 0 <= i < |r| ==> r[i] == BaseOf(t, sorted[i]);
    r
  }

  /** `getStudentsForPromotion`; `fetched` is `None` when the query throws. */
  function StudentsForPromotion(fetched: Option<Tables>): (r: seq<StudentBase>)
    ensures fetched.None? ==> r == MockStudentsForPromotion
    ensures fetched.Some? ==> r == PromotionBases(fetched.value)
  {
    match fetched
    case None => MockStudentsForPromotion
    case Some(t) => PromotionBases(t)
  }
}
