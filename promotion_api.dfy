/** `POST /api/promotion`: validate the body, turn every promotion directive into an enrollment for
    the target fiscal year, and create the whole batch in one transaction. */
module PromotionApi {
  import opened Common
  import opened Records

  /** One element of `promotions`. */
  datatype Directive = Directive(studentId: string, grade: int, className: string, attendanceNumber: int)

  /** The `promotions` member of the request body: absent (or any other falsy value), present but
      not an array, or an array of directives. */
  datatype PromotionsField = Missing | NotAnArray | Directives(items: seq<Directive>)

  datatype PromotionRequest = PromotionRequest(promotions: PromotionsField, targetFiscalYear: int)

  const INVALID_DATA: string := "Invalid data"
  const PROMOTION_FAILED: string := "Failed to process promotions"

  function NewEnrollment(d: Directive, year: int): Enrollment
  {
    Enrollment(d.studentId, year, d.grade, d.className, d.attendanceNumber, ACTIVE)
  }

  /** `promotions.map(...)`: one ACTIVE enrollment per directive, for the target year, with the
      directive's student, grade, class and number stored as given. */
  function NewEnrollments(ds: seq<Directive>, year: int): (r: seq<Enrollment>)
    ensures |r| == |ds|
    ensures forall i :: 0 <= i < |ds| ==>
      && r[i].studentId == ds[i].studentId && r[i].fiscalYear == year && r[i].status == ACTIVE
      && r[i].grade == ds[i].grade && r[i].className == ds[i].className
      && r[i].attendanceNumber == ds[i].attendanceNumber
  {
    seq(|ds|, i requires 0 <= i < |ds| => NewEnrollment(ds[i], year))
  }

  /** The handler. `body` is `None` when `request.json()` throws, and when the body is JSON `null`,
      whose destructuring throws. On success the reply carries the count; every failure leaves the
      store as it was. An unreachable database is a store whose `accepts` refuses the first row. */
  method PostPromotion(db: Store, body: Option<PromotionRequest>) returns (reply: Reply<nat>)
    modifies db
    ensures body.None? ==> reply == Fail(500, PROMOTION_FAILED) && db.Contents() == old(db.Contents())
    ensures body.Some? && !body.value.promotions.Directives? ==>
      reply == Fail(400, INVALID_DATA) && db.Contents() == old(db.Contents())
    ensures body.Some? && body.value.promotions.Directives? ==>
      var items := body.value.promotions.items;
      var batch := NewEnrollments(items, body.value.targetFiscalYear);
      if Admits(db.accepts, old(db.Contents()), EnrollmentRows(batch)) then
        reply == Ok(|items|)
        && db.Contents() == old(db.Contents()).(enrollments := old(db.Contents()).enrollments + batch)
      else
        reply == Fail(500, PROMOTION_FAILED) && db.Contents() == old(db.Contents())
  {
    if body.None? {
      return Fail(500, PROMOTION_FAILED);
    }
    var request := body.value;
    if !request.promotions.Directives? {
      return Fail(400, INVALID_DATA);
    }
    var items := request.promotions.items;
    var batch := NewEnrollments(items, request.targetFiscalYear);
    InsertEnrollments(db.Contents(), batch);
    var committed := db.Transaction(EnrollmentRows(batch));
    if !committed {
      return Fail(500, PROMOTION_FAILED);
    }
    reply := Ok(|items|);
  }

  /** An empty array is a valid batch: the transaction has nothing to refuse and adds nothing. */
  lemma EmptyBatchCommitsNothing(accepts: (Tables, Row) -> bool, t: Tables, year: int)
    ensures Admits(accepts, t, EnrollmentRows(NewEnrollments([], year)))
    ensures t.(enrollments := t.enrollments + NewEnrollments([], year)) == t
  {
    assert NewEnrollments([], year) == [];
  }

  /** A committed batch grows the store by one enrollment per directive and keeps every earlier
      record where it was. */
  lemma CommittedBatchAppends(t: Tables, ds: seq<Directive>, year: int)
    ensures var u := t.(enrollments := t.enrollments + NewEnrollments(ds, year));
            Extends(t, u) && Size(u) == Size(t) + |ds|
  {
    var batch := NewEnrollments(ds, year);
    InsertEnrollments(t, batch);
    InsertAllAppends(t, EnrollmentRows(batch));
  }

  /** If the database refuses the directive at position `k` when its turn comes, the whole batch is
      refused, and by `PostPromotion` none of its enrollments is stored. */
  lemma RefusedDirectiveAbortsBatch(accepts: (Tables, Row) -> bool, t: Tables, ds: seq<Directive>, year: int, k: nat)
    requires k < |ds|
    requires var rows := EnrollmentRows(NewEnrollments(ds, year));
             !accepts(InsertAll(t, rows[..k]), rows[k])
    ensures !Admits(accepts, t, EnrollmentRows(NewEnrollments(ds, year)))
  {
    var rows := EnrollmentRows(NewEnrollments(ds, year));
    assert rows[..k + 1][..k] == rows[..k];
    assert !Admits(accepts, t, rows[..k + 1]);
    if Admits(accepts, t, rows) {
      AdmitsPrefix(accepts, t, rows, k + 1);
    }
  }

  /** One rule a database could apply (the source's schema is not part of this model): refuse an
      enrollment whose student already has one for that fiscal year. */
  predicate UniqueYear(t: Tables, row: Row)
  {
    row.EnrollmentRow? ==>
      forall e :: e in t.enrollments ==>
        !(e.studentId == row.enrollment.studentId && e.fiscalYear == row.enrollment.fiscalYear)
  }

  /** Under that rule, sending the same non-empty batch again after it was committed is refused,
      so the batch is never applied twice. */
  lemma ReplayRefusedUnderUniqueYear(t: Tables, ds: seq<Directive>, year: int)
    requires ds != []
    ensures var batch := NewEnrollments(ds, year);
            !Admits(UniqueYear, t.(enrollments := t.enrollments + batch), EnrollmentRows(batch))
  {
    var batch := NewEnrollments(ds, year);
    var u := t.(enrollments := t.enrollments + batch);
    var rows := EnrollmentRows(batch);
    assert u.enrollments[|t.enrollments|] == batch[0];
    assert !UniqueYear(u, rows[0]);
    if Admits(UniqueYear, u, rows) {
      AdmitsFirst(UniqueYear, u, rows);
    }
  }
}
