/** The persisted records (students, enrollments, status intervals), the store that holds them,
    and the queries the pages and routes share: latest enrollment, open status interval, and
    ordering by registration number. */
module Records {
  import opened Common
  import opened Text

  /** A point in time (`new Date()`), left abstract. */
  type Timestamp = int

  const ACTIVE: string := "ACTIVE"

  /** A student: the identity root. `sNumber` is the registration number. */
  datatype Student = Student(id: string, sNumber: string, legalName: string, aliasName: Option<string>,
                             useAliasFlag: bool, birthday: Timestamp, gender: string)

  /** One yearly placement of a student. The source's column `class` is `className` here. */
  datatype Enrollment = Enrollment(studentId: string, fiscalYear: int, grade: int, className: string,
                                   attendanceNumber: int, status: string)

  /** A status that holds from `startDate` until `endDate`; open while `endDate` is missing. */
  datatype StatusInterval = StatusInterval(studentId: string, status: string, startDate: Timestamp,
                                           endDate: Option<Timestamp>)

  /** The contents of the database: one sequence per table, in insertion order. */
  datatype Tables = Tables(students: seq<Student>, enrollments: seq<Enrollment>, intervals: seq<StatusInterval>)

  /** One `create` issued to the database. */
  datatype Row = StudentRow(student: Student) | EnrollmentRow(enrollment: Enrollment) | IntervalRow(interval: StatusInterval)

  function Insert(t: Tables, row: Row): Tables
  {
    match row
    case StudentRow(s) => t.(students := t.students + [s])
    case EnrollmentRow(e) => t.(enrollments := t.enrollments + [e])
    case IntervalRow(i) => t.(intervals := t.intervals + [i])
  }

  /** The tables after creating `rows` in order. */
  function InsertAll(t: Tables, rows: seq<Row>): Tables
    decreases |rows|
  {
    if rows == [] then t else Insert(InsertAll(t, rows[..|rows| - 1]), rows[|rows| - 1])
  }

  /** The database accepts every row of `rows` in turn, each one seeing the rows created before it. */
  predicate Admits(accepts: (Tables, Row) -> bool, t: Tables, rows: seq<Row>)
    decreases |rows|
  {
    rows == [] ||
    (Admits(accepts, t, rows[..|rows| - 1]) && accepts(InsertAll(t, rows[..|rows| - 1]), rows[|rows| - 1]))
  }

  function Size(t: Tables): nat
  {
    |t.students| + |t.enrollments| + |t.intervals|
  }

  /** `u` holds everything `t` holds, in the same positions. */
  predicate Extends(t: Tables, u: Tables)
  {
    t.students <= u.students && t.enrollments <= u.enrollments && t.intervals <= u.intervals
  }

  /** Creating rows only appends: nothing stored is changed or removed, and each row adds one record. */
  lemma {:induction false} InsertAllAppends(t: Tables, rows: seq<Row>)
    ensures Extends(t, InsertAll(t, rows))
    ensures Size(InsertAll(t, rows)) == Size(t) + |rows|
    decreases |rows|
  {
    if rows != [] {
      InsertAllAppends(t, rows[..|rows| - 1]);
    }
  }

  lemma {:induction false} AdmitsPrefix(accepts: (Tables, Row) -> bool, t: Tables, rows: seq<Row>, k: nat)
    requires k <= |rows| && Admits(accepts, t, rows)
    ensures Admits(accepts, t, rows[..k])
    decreases |rows|
  {
    if k < |rows| {
      AdmitsPrefix(accepts, t, rows[..|rows| - 1], k);
      assert rows[..|rows| - 1][..k] == rows[..k];
    } else {
      assert rows[..k] == rows;
    }
  }

  /** A batch the database admits starts with a row it accepts in the state before the batch. */
  lemma AdmitsFirst(accepts: (Tables, Row) -> bool, t: Tables, rows: seq<Row>)
    requires rows != [] && Admits(accepts, t, rows)
    ensures accepts(t, rows[0])
  {
    AdmitsPrefix(accepts, t, rows, 1);
    assert rows[..1][..0] == [];
  }

  function EnrollmentRows(es: seq<Enrollment>): (r: seq<Row>)
    ensures |r| == |es|
    ensures forall i :: 0 <= i < |es| ==> r[i] == EnrollmentRow(es[i])
  {
    seq(|es|, i requires 0 <= i < |es| => EnrollmentRow(es[i]))
  }

  /** Creating enrollments appends them to the enrollment table and leaves the other tables alone. */
  lemma {:induction false} InsertEnrollments(t: Tables, es: seq<Enrollment>)
    ensures InsertAll(t, EnrollmentRows(es)) == t.(enrollments := t.enrollments + es)
    decreases |es|
  {
    if es != [] {
      var n := |es|;
      assert EnrollmentRows(es)[..n - 1] == EnrollmentRows(es[..n - 1]);
      InsertEnrollments(t, es[..n - 1]);
      assert es[..n - 1] + [es[n - 1]] == es;
    }
  }

  /** The Prisma client over one database. Its rule for refusing a create (a unique key, a foreign
      key, a missing column) is not part of the model: it is the opaque `accepts`. */
  class Store {
    var students: seq<Student>
    var enrollments: seq<Enrollment>
    var intervals: seq<StatusInterval>
    const accepts: (Tables, Row) -> bool

    function Contents(): Tables
      reads this
    {
      Tables(students, enrollments, intervals)
    }

    constructor (accepts: (Tables, Row) -> bool)
      ensures Contents() == Tables([], [], []) && this.accepts == accepts
    {
      students, enrollments, intervals := [], [], [];
      this.accepts := accepts;
    }

    /** `prisma.$transaction`: every row is created, or none is. */
    method Transaction(rows: seq<Row>) returns (committed: bool)
      modifies this
      ensures committed == Admits(accepts, old(Contents()), rows)
      ensures Contents() == if committed then InsertAll(old(Contents()), rows) else old(Contents())
    {
      var staged := Contents();
      var i := 0;
      while i < |rows|
        invariant 0 <= i <= |rows|
        invariant Admits(accepts, Contents(), rows[..i])
        invariant staged == InsertAll(Contents(), rows[..i])
      {
        assert rows[..i + 1][..i] == rows[..i];
        if !accepts(staged, rows[i]) {
          if Admits(accepts, Contents(), rows) {
            AdmitsPrefix(accepts, Contents(), rows, i + 1);
          }
          return false;
        }
        staged := Insert(staged, rows[i]);
        i := i + 1;
      }
      assert rows[..i] == rows;
      students, enrollments, intervals := staged.students, staged.enrollments, staged.intervals;
      committed := true;
    }
  }

  // ---------------------------------------------------------------------------
  // Queries shared by the pages and routes

  /** `e` is one of `id`'s enrollments with the greatest fiscal year. */
  predicate IsLatestOf(es: seq<Enrollment>, id: string, e: Enrollment)
  {
    e in es && e.studentId == id && forall x :: x in es && x.studentId == id ==> x.fiscalYear <= e.fiscalYear
  }

  /** `enrollments: { orderBy: { fiscalYear: 'desc' }, take: 1 }`; among records of the same year the
      earliest stored is taken. */
  function LatestEnrollment(es: seq<Enrollment>, id: string): (r: Option<Enrollment>)
    ensures r.None? <==> forall x :: x in es ==> x.studentId != id
    ensures r.Some? ==> IsLatestOf(es, id, r.value)
    decreases |es|
  {
    if es == [] then None
    else
      var init, e := es[..|es| - 1], es[|es| - 1];
      assert es == init + [e];
      var rest := LatestEnrollment(init, id);
      if e.studentId != id then rest
      else if rest.Some? && e.fiscalYear <= rest.value.fiscalYear then rest
      else Some(e)
  }

  predicate IsOpenOf(iv: StatusInterval, id: string)
  {
    iv.studentId == id && iv.endDate.None?
  }

  /** `statusHistory: { where: { endDate: null }, take: 1 }` for one student. */
  function OpenInterval(t: Tables, id: string): (r: Option<StatusInterval>)
    ensures r.None? <==> forall iv :: iv in t.intervals ==> !IsOpenOf(iv, id)
    ensures r.Some? ==> r.value in t.intervals && IsOpenOf(r.value, id)
  {
    First(t.intervals, (iv: StatusInterval) => IsOpenOf(iv, id))
  }

  function StudentsWithId(t: Tables, id: string): seq<Student>
  {
    Filter(t.students, (s: Student) => s.id == id)
  }

  function EnrollmentsOf(t: Tables, id: string): seq<Enrollment>
  {
    Filter(t.enrollments, (e: Enrollment) => e.studentId == id)
  }

  function OpenIntervalsOf(t: Tables, id: string): seq<StatusInterval>
  {
    Filter(t.intervals, (iv: StatusInterval) => IsOpenOf(iv, id))
  }

  /** No record of any table refers to `id`. */
  predicate Unused(t: Tables, id: string)
  {
    (forall s :: s in t.students ==> s.id != id)
    && (forall e :: e in t.enrollments ==> e.studentId != id)
    && (forall iv :: iv in t.intervals ==> iv.studentId != id)
  }

  // ---------------------------------------------------------------------------
  // orderBy: { sNumber: 'asc' }

  predicate SortedBySNumber(ss: seq<Student>)
  {
    forall i :: 0 <= i < |ss| - 1 ==> LexLeq(ss[i].sNumber, ss[i + 1].sNumber)
  }

  function InsertBySNumber(s: Student, ss: seq<Student>): (r: seq<Student>)
    requires SortedBySNumber(ss)
    ensures SortedBySNumber(r)
    ensures multiset(r) == multiset(ss) + multiset{s}
    ensures r[0] == s || (ss != [] && r[0] == ss[0])
  {
    if ss == [] then [s]
    else if LexLeq(s.sNumber, ss[0].sNumber) then [s] + ss
    else
      LexLeqTotal(s.sNumber, ss[0].sNumber);
      assert ss == [ss[0]] + ss[1..];
      [ss[0]] + InsertBySNumber(s, ss[1..])
  }

  /** The students in ascending order of registration number. */
  function SortBySNumber(ss: seq<Student>): (r: seq<Student>)
    ensures SortedBySNumber(r)
    ensures multiset(r) == multiset(ss)
  {
    if ss == [] then []
    else
      assert ss == [ss[0]] + ss[1..];
      InsertBySNumber(ss[0], SortBySNumber(ss[1..]))
  }

  /** Sorting keeps exactly the students it was given. */
  lemma SortKeepsMembers(ss: seq<Student>)
    ensures forall s :: s in SortBySNumber(ss) <==> s in ss
  {
    var r := SortBySNumber(ss);
    forall s
      ensures s in r <==> s in ss
    {
      assert s in r <==> s in multiset(r);
      assert s in ss <==> s in multiset(ss);
    }
  }

  /** Adjacent order gives order between any two positions. */
  lemma {:induction false} SortedAllPairs(ss: seq<Student>, i: int, j: int)
    requires SortedBySNumber(ss) && 0 <= i <= j < |ss|
    ensures LexLeq(ss[i].sNumber, ss[j].sNumber)
    decreases j - i
  {
    if i == j {
      LexLeqReflexive(ss[i].sNumber);
    } else {
      SortedAllPairs(ss, i + 1, j);
      LexLeqTransitive(ss[i].sNumber, ss[i + 1].sNumber, ss[j].sNumber);
    }
  }

}
