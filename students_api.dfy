/** `/api/students`: GET searches the directory; POST creates a student together with a first
    enrollment and a first open status interval. */
module StudentsApi {
  import opened Common
  import opened Text
  import opened Records

  /** The fiscal year both handlers use. */
  const FISCAL_YEAR: int := 2025

  const FETCH_FAILED: string := "Failed to fetch students"
  const CREATE_FAILED: string := "Failed to create student"

  // ---------------------------------------------------------------------------
  // GET

  /** The `where` the handler builds: no condition when `q` is absent or empty; otherwise `q`
      occurs in the legal name, in the alias (when there is one) or in the registration number. */
  predicate SearchMatches(q: Option<string>, s: Student)
    ensures q.None? || q == Some("") ==> SearchMatches(q, s)
    ensures q == Some(s.legalName) || q == Some(s.sNumber) || (s.aliasName.Some? && q == s.aliasName) ==> SearchMatches(q, s)
  {
    ContainsItself(s.legalName);
    ContainsItself(s.sNumber);
    var alias := if s.aliasName.Some? then s.aliasName.value else "";
    ContainsItself(alias);
    || q.None? || q.value == ""
    || Contains(s.legalName, q.value)
    || (s.aliasName.Some? && Contains(s.aliasName.value, q.value))
    || Contains(s.sNumber, q.value)
  }

  /** A student with the relations the handler includes. */
  datatype Listing = Listing(student: Student, enrollments: seq<Enrollment>, statusHistory: seq<StatusInterval>)

  predicate InFiscalYear(e: Enrollment, id: string)
  {
    e.studentId == id && e.fiscalYear == FISCAL_YEAR
  }

  /** `include`: at most one enrollment, of fiscal year 2025 (whatever the latest year is), and at
      most one open status interval. */
  function ListingOf(t: Tables, s: Student): (l: Listing)
    ensures l.student == s
    ensures |l.enrollments| <= 1 && |l.statusHistory| <= 1
    ensures forall e :: e in l.enrollments ==> e in t.enrollments && InFiscalYear(e, s.id)
    ensures l.enrollments == [] <==> forall e :: e in t.enrollments ==> !InFiscalYear(e, s.id)
    ensures forall iv :: iv in l.statusHistory ==> iv in t.intervals && IsOpenOf(iv, s.id)
    ensures l.statusHistory == [] <==> forall iv :: iv in t.intervals ==> !IsOpenOf(iv, s.id)
  {
    Listing(s, AsList(First(t.enrollments, (e: Enrollment) => InFiscalYear(e, s.id))),
            AsList(OpenInterval(t, s.id)))
  }

  /** The students `where` keeps, in table order. */
  function Found(t: Tables, q: Option<string>): seq<Student>
  {
    Filter(t.students, (s: Student) => SearchMatches(q, s))
  }

  /** The students `where` keeps, ordered by registration number, with their relations. */
  function Listings(t: Tables, q: Option<string>): (ls: seq<Listing>)
    ensures forall i :: 0 <= i < |ls| - 1 ==> LexLeq(ls[i].student.sNumber, ls[i + 1].student.sNumber)
    ensures forall l :: l in ls ==> exists s :: s in t.students && SearchMatches(q, s) && l == ListingOf(t, s)
    ensures forall s :: s in t.students && SearchMatches(q, s) ==> ListingOf(t, s) in ls
    ensures |ls| == |Found(t, q)|
    ensures exists ss ::
      && SortedBySNumber(ss) && multiset(ss) == multiset(Found(t, q))
      && |ss| == |ls| && forall i :: 0 <= i < |ls| ==> ls[i] == ListingOf(t, ss[i])
  {
    var found := Found(t, q);
    var sorted := SortBySNumber(found);
    SortKeepsMembers(found);
    assert |sorted| == |multiset(sorted)| == |found|;
    var ls := Map(sorted, (s: Student) => ListingOf(t, s));
    assert forall i :: 0 <= i < |ls| ==> ls[i] == ListingOf(t, sorted[i]);
    ls
  }

  /** The GET handler; `fetched` is `None` when the query throws. */
  function ListStudents(fetched: Option<Tables>, q: Option<string>): (r: Reply<seq<Listing>>)
    ensures fetched.None? ==> r == Fail(500, FETCH_FAILED)
    ensures fetched.Some? ==> r == Ok(Listings(fetched.value, q))
  {
    match fetched
    case None => Fail(500, FETCH_FAILED)
    case Some(t) => Ok(Listings(t, q))
  }

  /** Without a search term every student is listed. */
  lemma NoQueryListsEveryone(t: Tables, q: Option<string>)
    requires q.None? || q == Some("")
    ensures |ListStudents(Some(t), q).value| == |t.students|
    ensures forall s :: s in t.students ==> ListingOf(t, s) in ListStudents(Some(t), q).value
  {
    FilterKeepsAll(t.students, (s: Student) => SearchMatches(q, s));
  }

  /** The listed enrollment is the one of 2025, not the latest: a student with enrollments for
      2025 and 2026 is listed with the 2025 one. */
  lemma ListedEnrollmentNeedNotBeLatest(s: Student, e25: Enrollment, e26: Enrollment)
    requires e25.studentId == s.id && e25.fiscalYear == 2025
    requires e26.studentId == s.id && e26.fiscalYear == 2026
    ensures var t := Tables([s], [e25, e26], []);
            ListingOf(t, s).enrollments == [e25] && LatestEnrollment(t.enrollments, s.id) == Some(e26)
  {
    var es := [e25, e26];
    assert es[..1] == [e25];
    assert [e25][..0] == [];
  }

  // ---------------------------------------------------------------------------
  // POST

  /** The request body as the handler reads it; `aliasName` and `useAliasFlag` may be absent. */
  datatype NewStudentRequest = NewStudentRequest(sNumber: string, legalName: string, aliasName: Option<string>,
                                                 useAliasFlag: Option<bool>, birthday: Timestamp, gender: string,
                                                 grade: int, className: string, attendanceNumber: int)

  /** The student record; `id` is the key the database generates. */
  function NewStudent(b: NewStudentRequest, id: string): (s: Student)
    ensures s.id == id && s.sNumber == b.sNumber && s.legalName == b.legalName && s.aliasName == b.aliasName
    ensures s.birthday == b.birthday && s.gender == b.gender
    ensures s.useAliasFlag <==> b.useAliasFlag == Some(true)
  {
    Student(id, b.sNumber, b.legalName, b.aliasName, b.useAliasFlag == Some(true), b.birthday, b.gender)
  }

  function FirstEnrollment(b: NewStudentRequest, id: string): Enrollment
  {
    Enrollment(id, FISCAL_YEAR, b.grade, b.className, b.attendanceNumber, ACTIVE)
  }

  function FirstInterval(id: string, now: Timestamp): StatusInterval
  {
    StatusInterval(id, ACTIVE, now, None)
  }

  /** The nested create: the student first, then its enrollment, then its status interval. */
  function CreationRows(b: NewStudentRequest, id: string, now: Timestamp): seq<Row>
  {
    [StudentRow(NewStudent(b, id)), EnrollmentRow(FirstEnrollment(b, id)), IntervalRow(FirstInterval(id, now))]
  }

  /** The three rows land at the end of their own tables. */
  lemma CreationAppends(t: Tables, b: NewStudentRequest, id: string, now: Timestamp)
    ensures InsertAll(t, CreationRows(b, id, now))
         == Tables(t.students + [NewStudent(b, id)], t.enrollments + [FirstEnrollment(b, id)],
                   t.intervals + [FirstInterval(id, now)])
  {
    var rows := CreationRows(b, id, now);
    assert rows[..2][..1] == rows[..1] && rows[..1][..0] == [];
    var t1 := Insert(t, rows[0]);
    assert InsertAll(t, rows[..1]) == t1;
    var t2 := Insert(t1, rows[1]);
    assert InsertAll(t, rows[..2]) == t2;
    assert InsertAll(t, rows) == Insert(t2, rows[2]);
  }

  /** The POST handler. `body` is `None` when `request.json()` throws, and when the body is JSON
      `null`, so that reading its first field throws; `id` is the key the database
      generates and `now` is `new Date()`. All three records are created, or none. */
  method PostStudent(db: Store, body: Option<NewStudentRequest>, id: string, now: Timestamp) returns (reply: Reply<Student>)
    modifies db
    ensures body.None? ==> reply == Fail(500, CREATE_FAILED) && db.Contents() == old(db.Contents())
    ensures body.Some? ==>
      var t := old(db.Contents());
      if Admits(db.accepts, t, CreationRows(body.value, id, now)) then
        reply == Ok(NewStudent(body.value, id))
        && db.Contents() == Tables(t.students + [NewStudent(body.value, id)],
                                   t.enrollments + [FirstEnrollment(body.value, id)],
                                   t.intervals + [FirstInterval(id, now)])
      else
        reply == Fail(500, CREATE_FAILED) && db.Contents() == t
  {
    if body.None? {
      return Fail(500, CREATE_FAILED);
    }
    var rows := CreationRows(body.value, id, now);
    CreationAppends(db.Contents(), body.value, id, now);
    var committed := db.Transaction(rows);
    if !committed {
      return Fail(500, CREATE_FAILED);
    }
    reply := Ok(NewStudent(body.value, id));
  }

  /** A student created under a fresh key has exactly one record, one enrollment (2025, ACTIVE,
      with the grade, class and number of the request) and one open interval (ACTIVE, from `now`). */
  lemma CreatedStudentHasOnePlacement(t: Tables, b: NewStudentRequest, id: string, now: Timestamp)
    requires Unused(t, id)
    ensures var u := Tables(t.students + [NewStudent(b, id)], t.enrollments + [FirstEnrollment(b, id)],
                            t.intervals + [FirstInterval(id, now)]);
      && StudentsWithId(u, id) == [NewStudent(b, id)]
      && EnrollmentsOf(u, id) == [Enrollment(id, 2025, b.grade, b.className, b.attendanceNumber, ACTIVE)]
      && OpenIntervalsOf(u, id) == [StatusInterval(id, ACTIVE, now, None)]
  {
    FilterKeepsNone(t.students, (s: Student) => s.id == id);
    FilterAppend(t.students, [NewStudent(b, id)], (s: Student) => s.id == id);
    FilterKeepsNone(t.enrollments, (e: Enrollment) => e.studentId == id);
    FilterAppend(t.enrollments, [FirstEnrollment(b, id)], (e: Enrollment) => e.studentId == id);
    FilterKeepsNone(t.intervals, (iv: StatusInterval) => IsOpenOf(iv, id));
    FilterAppend(t.intervals, [FirstInterval(id, now)], (iv: StatusInterval) => IsOpenOf(iv, id));
  }

  /** Creating a student and then searching without a term lists it with its 2025 enrollment and
      its open interval. */
  lemma CreatedStudentIsListed(t: Tables, b: NewStudentRequest, id: string, now: Timestamp)
    requires Unused(t, id)
    ensures var u := Tables(t.students + [NewStudent(b, id)], t.enrollments + [FirstEnrollment(b, id)],
                            t.intervals + [FirstInterval(id, now)]);
      Listing(NewStudent(b, id), [FirstEnrollment(b, id)], [FirstInterval(id, now)]) in ListStudents(Some(u), None).value
  {
    var s := NewStudent(b, id);
    var u := Tables(t.students + [s], t.enrollments + [FirstEnrollment(b, id)], t.intervals + [FirstInterval(id, now)]);
    FirstAfterNone(t.enrollments, [FirstEnrollment(b, id)], (e: Enrollment) => InFiscalYear(e, id));
    FirstAfterNone(t.intervals, [FirstInterval(id, now)], (iv: StatusInterval) => IsOpenOf(iv, id));
    assert ListingOf(u, s) == Listing(s, [FirstEnrollment(b, id)], [FirstInterval(id, now)]);
    assert s in u.students && SearchMatches(None, s);
  }
}
