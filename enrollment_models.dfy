/** Registration applications (enrollment/models.py): the row shape, the
    `reviewed_at` stamping done by `save`, `can_enroll` and the completion
    percentage. */
module Enrollment {
  import opened Common

  /** A calendar date; only the lexicographic order of (year, month, day)
      is used. */
  datatype Date = Date(year: int, month: int, day: int)

  datatype RegStatus = Pending | UnderReview | Approved | Rejected | Enrolled

  /** The stored value of the `status` column. */
  function StatusName(s: RegStatus): string {
    match s
    case Pending => "pending"
    case UnderReview => "under_review"
    case Approved => "approved"
    case Rejected => "rejected"
    case Enrolled => "enrolled"
  }

  /** One RegistrationForm row. The tenant is optional only in memory:
      saving without one violates the NOT NULL column. String columns hold
      "" when left blank. */
  datatype Registration = Registration(
    tenant: Option<TenantId>,
    studentName: string,
    dateOfBirth: Option<Date>,
    gender: string,
    nationality: string,
    email: string,
    phone: string,
    address: string,
    parentName: string,
    parentEmail: string,
    parentPhone: string,
    parentRelationship: string,
    filiere: Option<nat>,
    academicYear: string,
    level: string,
    previousSchool: string,
    enrollmentType: string,
    status: RegStatus,
    reviewedBy: Option<UserId>,
    reviewedAt: Option<int>,
    reviewNotes: string,
    rejectionReason: string,
    specialNeeds: string,
    medicalInformation: string,
    enrolledUser: Option<UserId>,
    submittedAt: int)

  /** One EnrollmentDocument row (the file itself is not modelled). */
  datatype Document = Document(registration: nat, docType: string, verified: bool)

  /** One EnrollmentStatusHistory row. */
  datatype StatusChange = StatusChange(
    registration: nat,
    oldStatus: RegStatus,
    newStatus: RegStatus,
    changedBy: Option<UserId>,
    notes: string,
    changedAt: int)

  // ---------------------------------------------------------------------
  // save: reviewed_at stamping
  // ---------------------------------------------------------------------

  predicate EntersDecision(stored: Registration, incoming: Registration) {
    stored.status != incoming.status && (incoming.status == Approved || incoming.status == Rejected)
  }

  /** The instance as `save` writes it over the stored row. */
  function Stamped(stored: Registration, incoming: Registration, now: int): Registration {
    if EntersDecision(stored, incoming) then incoming.(reviewedAt := Some(now)) else incoming
  }

  /** `save` touches only `reviewed_at`, and only when the status changes
      into approved or rejected; then it becomes the save time. */
  lemma StampedChangesOnlyReviewedAt(stored: Registration, incoming: Registration, now: int)
    ensures Stamped(stored, incoming, now).(reviewedAt := incoming.reviewedAt) == incoming
    ensures Stamped(stored, incoming, now).reviewedAt ==
      if EntersDecision(stored, incoming) then Some(now) else incoming.reviewedAt
    ensures stored.status == incoming.status ==> Stamped(stored, incoming, now) == incoming
  {
  }

  // ---------------------------------------------------------------------
  // can_enroll and completion
  // ---------------------------------------------------------------------

  /** `can_enroll`: approved and not yet linked to a user account. */
  predicate CanEnroll(r: Registration) {
    r.status == Approved && r.enrolledUser.None?
  }

  /** Only an approved application without an account can be enrolled:
      every other status, and any linked account, rules it out. */
  lemma CanEnrollCases(r: Registration)
    ensures r.status != Approved ==> !CanEnroll(r)
    ensures r.enrolledUser.Some? ==> !CanEnroll(r)
    ensures r.status == Approved && r.enrolledUser.None? ==> CanEnroll(r)
  {
  }

  /** Truthiness of the eleven fields `get_completion_percentage` checks,
      in its order: a date or a chosen filiere is truthy, a string when
      non-empty. */
  function RequiredFilled(r: Registration): (f: seq<bool>)
    ensures |f| == 11
  {
    [r.studentName != "", r.dateOfBirth.Some?, r.gender != "",
     r.email != "", r.phone != "", r.address != "",
     r.parentName != "", r.parentEmail != "", r.parentPhone != "",
     r.filiere.Some?, r.academicYear != ""]
  }

  /** The number of true flags. */
  function TrueCount(bs: seq<bool>): (n: nat)
    ensures n <= |bs|
    ensures n == |bs| <==> forall i :: 0 <= i < |bs| ==> bs[i]
  {
    if bs == [] then 0
    else (if bs[0] then 1 else 0) + TrueCount(bs[1..])
  }

  /** More flags set pointwise never gives a smaller count. */
  lemma {:induction false} TrueCountMonotone(a: seq<bool>, b: seq<bool>)
    requires |a| == |b|
    requires forall i :: 0 <= i < |a| && a[i] ==> b[i]
    ensures TrueCount(a) <= TrueCount(b)
  {
    if a != [] {
      TrueCountMonotone(a[1..], b[1..]);
    }
  }

  function Filled(r: Registration): nat {
    TrueCount(RequiredFilled(r))
  }

  /** `get_completion_percentage`: int((filled / 11) * 100). For eleven
      fields the float product never lands next to an integer it should
      not round to, so this is floor(100 * filled / 11). */
  function CompletionPercentage(r: Registration): (p: nat)
    ensures p <= 100
    ensures p == 100 <==> forall i :: 0 <= i < 11 ==> RequiredFilled(r)[i]
  {
    var n := Filled(r);
    assert n <= 11;
    assert n == 11 ==> n * 100 / 11 == 100;
    assert n <= 10 ==> n * 100 <= 1000;
    n * 100 / 11
  }

  /** Filling in more fields never lowers the percentage. */
  lemma CompletionMonotone(r1: Registration, r2: Registration)
    requires forall i :: 0 <= i < 11 && RequiredFilled(r1)[i] ==> RequiredFilled(r2)[i]
    ensures CompletionPercentage(r1) <= CompletionPercentage(r2)
  {
    TrueCountMonotone(RequiredFilled(r1), RequiredFilled(r2));
    var a, b := Filled(r1), Filled(r2);
    assert a * 100 <= b * 100;
  }

  /** A missing programme keeps an application below 100 %. */
  lemma MissingFiliereIncomplete(r: Registration)
    requires r.filiere.None?
    ensures CompletionPercentage(r) < 100
  {
    assert !RequiredFilled(r)[9];
  }

  // ---------------------------------------------------------------------
  // The tables of one school
  // ---------------------------------------------------------------------

  class EnrollmentDb {
    var regs: map<nat, Registration>
    var docs: seq<Document>
    var history: seq<StatusChange>
    var nextPk: nat

    /** Keys are allocated from 1, every stored row has its school, and
        every history row points at an existing registration. */
    ghost predicate Valid()
      reads this
    {
      1 <= nextPk &&
      (forall k :: k in regs ==> 1 <= k < nextPk && regs[k].tenant.Some?) &&
      (forall h :: h in history ==> h.registration in regs)
    }

    constructor (docs: seq<Document>)
      ensures Valid() && regs == map[] && history == [] && this.docs == docs
    {
      regs := map[];
      this.docs := docs;
      history := [];
      nextPk := 1;
    }

    /** `RegistrationForm.save` of an instance whose key is `pk` (0 when
        new). An existing key must still be stored (the lookup in `save`
        raises otherwise) and the tenant must be set (NOT NULL); `ok` is
        false and nothing changes when either fails. A new row is stamped
        with its submission time. */
    method Save(pk: nat, r: Registration, now: int) returns (key: nat, ok: bool)
      requires Valid()
      modifies this
      ensures Valid()
      ensures history == old(history) && docs == old(docs)
      ensures ok == (r.tenant.Some? && (pk == 0 || pk in old(regs)))
      ensures !ok ==> unchanged(this)
      ensures ok && pk == 0 ==>
        key == old(nextPk) && key !in old(regs) && nextPk == old(nextPk) + 1 &&
        regs == old(regs)[key := r.(submittedAt := now)]
      ensures ok && pk != 0 ==>
        key == pk && nextPk == old(nextPk) && regs == old(regs)[pk := Stamped(old(regs)[pk], r, now)]
    {
      key := pk;
      if pk != 0 && pk !in regs {
        return key, false;
      }
      if r.tenant.None? {
        return key, false;
      }
      ok := true;
      if pk == 0 {
        key := nextPk;
        nextPk := nextPk + 1;
        regs := regs[key := r.(submittedAt := now)];
      } else {
        regs := regs[pk := Stamped(regs[pk], r, now)];
      }
    }

    /** `EnrollmentStatusHistory.objects.create(...)`. */
    method AppendHistory(h: StatusChange)
      requires Valid() && h.registration in regs
      modifies this`history
      ensures Valid() && history == old(history) + [h]
    {
      history := history + [h];
    }
  }
}
