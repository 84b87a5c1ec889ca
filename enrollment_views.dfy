/** The registration wizard, the review view and the application list
    (enrollment/views.py). Each view is one atomic step; the e-mails the
    views queue are not modelled. */
module EnrollmentViews {
  import opened Common
  import opened Enrollment
  import opened EnrollmentForms

  datatype Page = Step1Page | Step2Page | Step3Page | Step4Page | CompletePage(id: nat) | DetailPage(id: nat)

  datatype Response = Render | Redirect(page: Page) | NotFound | ServerError

  /** The visitor's session; only the registration id it carries is used. */
  class Session {
    var registrationId: Option<nat>

    constructor ()
      ensures registrationId == None
    {
      registrationId := None;
    }
  }

  /** `if not registration_id`: absent, or a falsy 0. */
  predicate NoRegistration(id: Option<nat>) {
    id.None? || id.value == 0
  }

  // ---------------------------------------------------------------------
  // The four steps' forms
  // ---------------------------------------------------------------------

  /** Step 1 fields; `otherFieldsValid` stands for the format checks of the
      e-mail and phone widgets. */
  datatype Step1Form = Step1Form(
    studentName: string, dateOfBirth: Option<Date>, gender: string, nationality: string,
    email: string, phone: string, address: string, otherFieldsValid: bool)

  /** All step 1 fields are required; gender is M or F; then the two
      `clean_*` validators must pass. */
  predicate Step1Valid(f: Step1Form, regs: map<nat, Registration>, today: Date) {
    f.otherFieldsValid && f.studentName != "" && f.dateOfBirth.Some? &&
    (f.gender == "M" || f.gender == "F") && f.nationality != "" && f.email != "" &&
    f.phone != "" && f.address != "" &&
    CleanDateOfBirth(f.dateOfBirth, today).Ok? && CleanEmail(f.email, regs).Ok?
  }

  /** The unsaved instance step 1 builds: the form's fields over the model
      defaults. */
  function NewRegistration(tenant: Option<TenantId>, f: Step1Form): Registration {
    Registration(tenant, f.studentName, f.dateOfBirth, f.gender, f.nationality, f.email, f.phone, f.address,
                 "", "", "", "father", None, "", "Bachelor", "", "new", Pending,
                 None, None, "", "", "", "", None, 0)
  }

  /** A fresh application is pending, unreviewed and incomplete (step 3,
      which picks the programme, is still to come). */
  lemma NewRegistrationIsPending(tenant: Option<TenantId>, f: Step1Form)
    ensures var r := NewRegistration(tenant, f);
      r.status == Pending && r.reviewedAt.None? && r.reviewedBy.None? && !CanEnroll(r) &&
      CompletionPercentage(r) < 100
  {
    MissingFiliereIncomplete(NewRegistration(tenant, f));
  }

  datatype Step2Form = Step2Form(
    parentName: string, parentEmail: string, parentPhone: string, parentRelationship: string,
    otherFieldsValid: bool)

  predicate Step2Valid(f: Step2Form) {
    f.otherFieldsValid && f.parentName != "" && f.parentEmail != "" && f.parentPhone != "" &&
    f.parentRelationship != ""
  }

  function WithStep2(r: Registration, f: Step2Form): Registration {
    r.(parentName := f.parentName, parentEmail := f.parentEmail, parentPhone := f.parentPhone,
       parentRelationship := f.parentRelationship)
  }

  datatype Step3Form = Step3Form(
    enrollmentType: string, filiere: Option<nat>, academicYear: string, level: string,
    previousSchool: string)

  /** The programme must be one of the school's; the two choice fields take
      their declared values; the academic year is required. */
  predicate Step3Valid(f: Step3Form, schoolFilieres: set<nat>) {
    (f.enrollmentType == "new" || f.enrollmentType == "transfer" || f.enrollmentType == "re_enrollment") &&
    (f.filiere.None? || f.filiere.value in schoolFilieres) &&
    f.academicYear != "" && (f.level == "Bachelor" || f.level == "Master")
  }

  function WithStep3(r: Registration, f: Step3Form): Registration {
    r.(enrollmentType := f.enrollmentType, filiere := f.filiere, academicYear := f.academicYear,
       level := f.level, previousSchool := f.previousSchool)
  }

  /** Step 4 has only optional free-text fields. */
  datatype Step4Form = Step4Form(specialNeeds: string, medicalInformation: string)

  function WithStep4(r: Registration, f: Step4Form): Registration {
    r.(specialNeeds := f.specialNeeds, medicalInformation := f.medicalInformation)
  }

  // ---------------------------------------------------------------------
  // The wizard
  // ---------------------------------------------------------------------

  /** `register_step1`: a valid form creates the application under the
      request's school and remembers its id in the session. Without a school
      on the request the insert violates NOT NULL. */
  method RegisterStep1(db: EnrollmentDb, session: Session, requestTenant: Option<TenantId>,
                       isPost: bool, form: Step1Form, today: Date, now: int)
    returns (resp: Response)
    requires db.Valid()
    modifies db, session
    ensures db.Valid()
    ensures db.history == old(db.history) && db.docs == old(db.docs)
    ensures !(isPost && Step1Valid(form, old(db.regs), today)) ==>
      resp == Render && unchanged(db) && unchanged(session)
    ensures isPost && Step1Valid(form, old(db.regs), today) && requestTenant.None? ==>
      resp == ServerError && unchanged(db) && unchanged(session)
    ensures isPost && Step1Valid(form, old(db.regs), today) && requestTenant.Some? ==>
      resp == Redirect(Step2Page) && old(db.nextPk) !in old(db.regs) &&
      db.regs == old(db.regs)[old(db.nextPk) := NewRegistration(requestTenant, form).(submittedAt := now)] &&
      session.registrationId == Some(old(db.nextPk))
  {
    if !isPost || !Step1Valid(form, db.regs, today) {
      return Render;
    }
    var id, ok := db.Save(0, NewRegistration(requestTenant, form), now);
    if !ok {
      return ServerError;
    }
    session.registrationId := Some(id);
    resp := Redirect(Step2Page);
  }

  /** Writes `updated` over the stored application `id` through `save`;
      the status is unchanged, so nothing is stamped. */
  method SaveStep(db: EnrollmentDb, id: nat, updated: Registration, now: int)
    requires db.Valid() && id in db.regs && id != 0
    requires updated.status == db.regs[id].status && updated.tenant == db.regs[id].tenant
    modifies db
    ensures db.Valid()
    ensures db.regs == old(db.regs)[id := updated]
    ensures db.history == old(db.history) && db.docs == old(db.docs) && db.nextPk == old(db.nextPk)
  {
    StampedChangesOnlyReviewedAt(db.regs[id], updated, now);
    var _, _ := db.Save(id, updated, now);
  }

  /** `register_step2`. */
  method RegisterStep2(db: EnrollmentDb, session: Session, isPost: bool, form: Step2Form, now: int)
    returns (resp: Response)
    requires db.Valid()
    modifies db
    ensures db.Valid()
    ensures NoRegistration(session.registrationId) ==> resp == Redirect(Step1Page) && unchanged(db)
    ensures !NoRegistration(session.registrationId) && session.registrationId.value !in old(db.regs) ==>
      resp == NotFound && unchanged(db)
    ensures !NoRegistration(session.registrationId) && session.registrationId.value in old(db.regs) ==>
      var id := session.registrationId.value;
      if isPost && Step2Valid(form) then
        resp == Redirect(Step3Page) && db.regs == old(db.regs)[id := WithStep2(old(db.regs)[id], form)] &&
        db.history == old(db.history) && db.docs == old(db.docs)
      else resp == Render && unchanged(db)
  {
    if NoRegistration(session.registrationId) {
      return Redirect(Step1Page);
    }
    var id := session.registrationId.value;
    if id !in db.regs {
      return NotFound;
    }
    if !isPost || !Step2Valid(form) {
      return Render;
    }
    SaveStep(db, id, WithStep2(db.regs[id], form), now);
    resp := Redirect(Step3Page);
  }

  /** `register_step3`: the programme choices are the application's
      school's programmes. */
  method RegisterStep3(db: EnrollmentDb, session: Session, schoolFilieres: set<nat>, isPost: bool,
                       form: Step3Form, now: int)
    returns (resp: Response)
    requires db.Valid()
    modifies db
    ensures db.Valid()
    ensures NoRegistration(session.registrationId) ==> resp == Redirect(Step1Page) && unchanged(db)
    ensures !NoRegistration(session.registrationId) && session.registrationId.value !in old(db.regs) ==>
      resp == NotFound && unchanged(db)
    ensures !NoRegistration(session.registrationId) && session.registrationId.value in old(db.regs) ==>
      var id := session.registrationId.value;
      if isPost && Step3Valid(form, schoolFilieres) then
        resp == Redirect(Step4Page) && db.regs == old(db.regs)[id := WithStep3(old(db.regs)[id], form)] &&
        db.history == old(db.history) && db.docs == old(db.docs)
      else resp == Render && unchanged(db)
  {
    if NoRegistration(session.registrationId) {
      return Redirect(Step1Page);
    }
    var id := session.registrationId.value;
    if id !in db.regs {
      return NotFound;
    }
    if !isPost || !Step3Valid(form, schoolFilieres) {
      return Render;
    }
    SaveStep(db, id, WithStep3(db.regs[id], form), now);
    resp := Redirect(Step4Page);
  }

  /** `register_step4`: saves the last fields and forgets the id. */
  method RegisterStep4(db: EnrollmentDb, session: Session, isPost: bool, form: Step4Form, now: int)
    returns (resp: Response)
    requires db.Valid()
    modifies db, session
    ensures db.Valid()
    ensures NoRegistration(old(session.registrationId)) ==>
      resp == Redirect(Step1Page) && unchanged(db) && unchanged(session)
    ensures !NoRegistration(old(session.registrationId)) && old(session.registrationId).value !in old(db.regs) ==>
      resp == NotFound && unchanged(db) && unchanged(session)
    ensures !NoRegistration(old(session.registrationId)) && old(session.registrationId).value in old(db.regs) ==>
      var id := old(session.registrationId).value;
      if isPost then
        resp == Redirect(CompletePage(id)) && db.regs == old(db.regs)[id := WithStep4(old(db.regs)[id], form)] &&
        db.history == old(db.history) && db.docs == old(db.docs) && session.registrationId == None
      else resp == Render && unchanged(db) && unchanged(session)
  {
    if NoRegistration(session.registrationId) {
      return Redirect(Step1Page);
    }
    var id := session.registrationId.value;
    if id !in db.regs {
      return NotFound;
    }
    if !isPost {
      return Render;
    }
    SaveStep(db, id, WithStep4(db.regs[id], form), now);
    session.registrationId := None;
    resp := Redirect(CompletePage(id));
  }

  // ---------------------------------------------------------------------
  // Review
  // ---------------------------------------------------------------------

  /** The row `enrollment_review` saves. */
  function Reviewed(r: Registration, d: ReviewData, reviewer: UserId, now: int): Registration {
    r.(status := d.status, reviewNotes := d.reviewNotes, rejectionReason := d.rejectionReason,
       reviewedBy := Some(reviewer), reviewedAt := Some(now))
  }

  /** The history row `enrollment_review` writes: `old_status` is read after
      the review form has copied the submitted status onto the application,
      so both sides hold the new status. */
  function ReviewChangeAsWritten(id: nat, d: ReviewData, reviewer: UserId, now: int): StatusChange {
    StatusChange(id, d.status, d.status, Some(reviewer), d.reviewNotes, now)
  }

  /** The row evidently intended: the stored status, then the new one. */
  function ReviewChange(id: nat, before: Registration, d: ReviewData, reviewer: UserId, now: int): StatusChange {
    StatusChange(id, before.status, d.status, Some(reviewer), d.reviewNotes, now)
  }

  /** As written the history never shows a transition: every review row has
      equal old and new statuses, even when the review changed the status. */
  lemma ReviewChangeAsWrittenShowsNoTransition(id: nat, before: Registration, d: ReviewData, reviewer: UserId, now: int)
    ensures ReviewChangeAsWritten(id, d, reviewer, now).oldStatus == ReviewChangeAsWritten(id, d, reviewer, now).newStatus
    ensures before.status != d.status ==>
      ReviewChangeAsWritten(id, d, reviewer, now) != ReviewChange(id, before, d, reviewer, now)
  {
  }

  /** The intended row records the transition the save makes: its statuses
      are the stored one and the saved one, and they differ exactly when the
      review changed the status. */
  lemma ReviewChangeRecordsTransition(id: nat, before: Registration, d: ReviewData, reviewer: UserId, now: int)
    ensures var c := ReviewChange(id, before, d, reviewer, now);
      c.oldStatus == before.status && c.newStatus == Reviewed(before, d, reviewer, now).status &&
      (c.oldStatus == c.newStatus <==> before.status == d.status)
  {
  }

  /** `enrollment_review`: a valid review is saved and exactly one history
      row is appended, which records the submitted status on both sides (see
      ReviewChangeAsWritten). */
  method EnrollmentReview(db: EnrollmentDb, reviewer: UserId, tenant: TenantId, id: nat, isPost: bool,
                          d: ReviewData, now: int)
    returns (resp: Response)
    requires db.Valid()
    modifies db
    ensures db.Valid()
    ensures !(id in old(db.regs) && old(db.regs)[id].tenant == Some(tenant)) ==> resp == NotFound && unchanged(db)
    ensures id in old(db.regs) && old(db.regs)[id].tenant == Some(tenant) ==>
      if isPost && CleanReview(d).Ok? then
        resp == Redirect(DetailPage(id)) &&
        db.regs == old(db.regs)[id := Reviewed(old(db.regs)[id], d, reviewer, now)] &&
        db.history == old(db.history) + [ReviewChangeAsWritten(id, d, reviewer, now)]
      else resp == Render && unchanged(db)
  {
    if !(id in db.regs && db.regs[id].tenant == Some(tenant)) {
      return NotFound;
    }
    if !isPost || CleanReview(d).Err? {
      return Render;
    }
    var before := db.regs[id];
    var updated := Reviewed(before, d, reviewer, now);
    var oldStatus := updated.status;
    StampedChangesOnlyReviewedAt(before, updated, now);
    var _, _ := db.Save(id, updated, now);
    db.AppendHistory(StatusChange(id, oldStatus, d.status, Some(reviewer), d.reviewNotes, now));
    resp := Redirect(DetailPage(id));
  }

  // ---------------------------------------------------------------------
  // The application list
  // ---------------------------------------------------------------------

  /** The search form's cleaned values; "" and None mean "not given".
      Dates are day numbers; `formValid` false drops every filter. */
  datatype Search = Search(
    formValid: bool,
    studentName: string,
    email: string,
    status: Option<RegStatus>,
    enrollmentType: string,
    academicYear: string,
    filiere: Option<nat>,
    dateFrom: Option<int>,
    dateTo: Option<int>)

  /** `submitted_at__lte=date_to` as written: the date is compared as its
      midnight, so the day `date_to` itself is cut off. */
  predicate BeforeDateToAsWritten(submittedAt: int, dateTo: int) {
    submittedAt <= dateTo * SecondsPerDay
  }

  /** The inclusive reading: anything submitted up to the end of `date_to`. */
  predicate BeforeDateTo(submittedAt: int, dateTo: int) {
    submittedAt < (dateTo + 1) * SecondsPerDay
  }

  /** An application sent at 10:00 on the chosen last day is listed by the
      inclusive reading and dropped as written. */
  lemma DateToCutsOffItsOwnDay(day: int)
    ensures var t := day * SecondsPerDay + 36000;
      !BeforeDateToAsWritten(t, day) && BeforeDateTo(t, day)
  {
  }

  /** The inclusive bound keeps the whole of the chosen day and nothing
      after it. */
  lemma BeforeDateToIsWholeDay(submittedAt: int, dateTo: int)
    ensures BeforeDateTo(submittedAt, dateTo) <==> submittedAt / SecondsPerDay <= dateTo
  {
  }

  /** One row against all the given filters (each one narrows). */
  predicate Matches(r: Registration, s: Search) {
    (s.studentName != "" ==> IContains(r.studentName, s.studentName)) &&
    (s.email != "" ==> IContains(r.email, s.email) || IContains(r.parentEmail, s.email)) &&
    (s.status.Some? ==> r.status == s.status.value) &&
    (s.enrollmentType != "" ==> r.enrollmentType == s.enrollmentType) &&
    (s.academicYear != "" ==> r.academicYear == s.academicYear) &&
    (s.filiere.Some? ==> r.filiere == s.filiere) &&
    (s.dateFrom.Some? ==> r.submittedAt >= s.dateFrom.value * SecondsPerDay) &&
    (s.dateTo.Some? ==> BeforeDateToAsWritten(r.submittedAt, s.dateTo.value))
  }

  /** Dropping any one filter can only let more rows through: the filters
      combine by conjunction. */
  lemma DroppingAFilterWidens(r: Registration, s: Search)
    requires Matches(r, s)
    ensures Matches(r, s.(studentName := "")) && Matches(r, s.(email := "")) &&
            Matches(r, s.(status := None)) && Matches(r, s.(enrollmentType := "")) &&
            Matches(r, s.(academicYear := "")) && Matches(r, s.(filiere := None)) &&
            Matches(r, s.(dateFrom := None)) && Matches(r, s.(dateTo := None))
  {
  }

  datatype Stats = Stats(total: nat, pending: nat, approved: nat, rejected: nat, enrolled: nat)

  /** The `status=` filter over application ids. */
  function StatusIs(regs: map<nat, Registration>, s: RegStatus): nat -> bool {
    k => k in regs && regs[k].status == s
  }

  /** The statistics block over a selection of application ids. */
  function StatsOf(regs: map<nat, Registration>, rows: seq<nat>): Stats {
    Stats(|rows|,
          Count(rows, StatusIs(regs, Pending)),
          Count(rows, StatusIs(regs, Approved)),
          Count(rows, StatusIs(regs, Rejected)),
          Count(rows, StatusIs(regs, Enrolled)))
  }

  /** The four counted statuses plus the uncounted under-review ones make
      up the total, so the four never exceed it. */
  lemma StatsAddUp(regs: map<nat, Registration>, rows: seq<nat>)
    requires forall i :: 0 <= i < |rows| ==> rows[i] in regs
    ensures var st := StatsOf(regs, rows);
      st.pending + st.approved + st.rejected + st.enrolled + Count(rows, StatusIs(regs, UnderReview))
        == st.total
  {
    StatusCountsPartition(regs, rows);
  }

  lemma {:induction false} StatusCountsPartition(regs: map<nat, Registration>, rows: seq<nat>)
    requires forall i :: 0 <= i < |rows| ==> rows[i] in regs
    ensures Count(rows, StatusIs(regs, Pending)) + Count(rows, StatusIs(regs, Approved)) +
            Count(rows, StatusIs(regs, Rejected)) + Count(rows, StatusIs(regs, Enrolled)) +
            Count(rows, StatusIs(regs, UnderReview)) == |rows|
  {
    if rows != [] {
      StatusCountsPartition(regs, rows[1..]);
      CountCons(rows, StatusIs(regs, Pending));
      CountCons(rows, StatusIs(regs, Approved));
      CountCons(rows, StatusIs(regs, Rejected));
      CountCons(rows, StatusIs(regs, Enrolled));
      CountCons(rows, StatusIs(regs, UnderReview));
      var st := regs[rows[0]].status;
      assert StatusIs(regs, st)(rows[0]);
    }
  }

  /** `enrollment_list`: the school's applications, newest first, narrowed
      by every filter given (none when the search form is invalid), with
      the statistics over the result. */
  method EnrollmentList(db: EnrollmentDb, tenant: TenantId, s: Search) returns (rows: seq<nat>, stats: Stats)
    ensures forall k :: k in rows <==>
      k in db.regs && db.regs[k].tenant == Some(tenant) && (s.formValid ==> Matches(db.regs[k], s))
    ensures NoDuplicates(rows)
    ensures forall i :: 0 <= i < |rows| ==> rows[i] in db.regs
    ensures forall i, j :: 0 <= i < j < |rows| ==> db.regs[rows[j]].submittedAt <= db.regs[rows[i]].submittedAt
    ensures stats == StatsOf(db.regs, rows)
    ensures stats.pending + stats.approved + stats.rejected + stats.enrolled <= stats.total
  {
    var regs := db.regs;
    var newestFirst := (k: nat) => if k in regs then -regs[k].submittedAt else 0;
    var school := set k | k in regs && regs[k].tenant == Some(tenant);
    rows := SortedListOf(school, newestFirst);
    if s.formValid {
      rows := Narrow(rows, newestFirst, k => k in regs && Matches(regs[k], s));
    }
    forall i | 0 <= i < |rows| ensures rows[i] in regs && newestFirst(rows[i]) == -regs[rows[i]].submittedAt {
      assert rows[i] in rows;
    }
    stats := StatsOf(regs, rows);
    StatsAddUp(regs, rows);
  }

  /** One `.filter(...)` step on an ordered, duplicate-free selection. */
  method Narrow(rows: seq<nat>, key: nat -> int, keep: nat -> bool) returns (r: seq<nat>)
    requires NoDuplicates(rows) && SortedByKey(rows, key)
    ensures forall k :: k in r <==> k in rows && keep(k)
    ensures NoDuplicates(r) && SortedByKey(r, key)
  {
    r := Filter(rows, keep);
    FilterKeepsNoDuplicates(rows, keep);
    FilterKeepsSorted(rows, keep, key);
  }
}
