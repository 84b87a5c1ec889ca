/** The enrollment background jobs (enrollment/tasks.py): the status e-mail
    choice, the seven-day reminder, the rejected-application count, the
    yearly report and the auto-approval sweep. Sending mail is left out:
    only what is selected, counted and written is modelled. */
module EnrollmentTasks {
  import opened Common
  import opened Enrollment
  import opened EnrollmentViews

  // ---------------------------------------------------------------------
  // send_enrollment_status_email
  // ---------------------------------------------------------------------

  datatype Email = Email(subject: string, template: string, to: seq<string>)

  /** The status values that have a template. `submitted` is not a status
      of the model, and `pending` has no entry. */
  const TemplatedStatuses: set<string> := {"submitted", "under_review", "approved", "rejected", "enrolled"}

  /** The mail prepared for `status`, or none when no template matches.
      The subject is prefixed with the school's name in brackets. */
  function StatusEmail(r: Registration, status: string, schoolName: string): (e: Option<Email>)
    ensures e.Some? <==> status in TemplatedStatuses
    ensures e.Some? ==> e.value.to == [r.email, r.parentEmail]
    ensures e.Some? ==> StartsWith(e.value.subject, "[" + schoolName + "] ")
  {
    var (subject, template) :=
      if status == "submitted" then ("Registration Received", "enrollment/emails/registration_received.html")
      else if status == "under_review" then ("Application Under Review", "enrollment/emails/under_review.html")
      else if status == "approved" then ("Congratulations! Application Approved", "enrollment/emails/approved.html")
      else if status == "rejected" then ("Application Status Update", "enrollment/emails/rejected.html")
      else if status == "enrolled" then ("Welcome to " + schoolName, "enrollment/emails/enrolled.html")
      else ("", "");
    if status in TemplatedStatuses then
      var prefix := "[" + schoolName + "] ";
      assert (prefix + subject)[..|prefix|] == prefix;
      Some(Email(prefix + subject, template, [r.email, r.parentEmail]))
    else None
  }

  /** `send_enrollment_status_email`: nothing is sent for a missing
      application. */
  function SendStatusEmail(regs: map<nat, Registration>, id: nat, status: string, schoolName: string): (e: Option<Email>)
    ensures e.Some? <==> id in regs && status in TemplatedStatuses
    ensures e.Some? ==> e.value.to == [regs[id].email, regs[id].parentEmail]
  {
    if id in regs then StatusEmail(regs[id], status, schoolName) else None
  }

  /** Asked with a stored status, every status except `pending` finds its
      template; `pending` finds none and nothing is sent. */
  lemma PendingHasNoTemplate(r: Registration, s: RegStatus, schoolName: string)
    ensures StatusEmail(r, StatusName(s), schoolName).None? <==> s == Pending
  {
  }

  // ---------------------------------------------------------------------
  // send_enrollment_reminders
  // ---------------------------------------------------------------------

  /** Pending and submitted between eight and seven days before `now`,
      both ends included. */
  predicate DueForReminder(r: Registration, now: int) {
    r.status == Pending &&
    now - 8 * SecondsPerDay <= r.submittedAt <= now - 7 * SecondsPerDay
  }

  function ReminderKeys(regs: map<nat, Registration>, now: int): set<nat> {
    set k | k in regs && DueForReminder(regs[k], now)
  }

  /** Two daily runs remind the same application only when it was
      submitted exactly on the shared boundary of their windows. */
  lemma RemindedOnceUnlessOnBoundary(r: Registration, now: int)
    requires DueForReminder(r, now) && DueForReminder(r, now + SecondsPerDay)
    ensures r.submittedAt == now - 7 * SecondsPerDay
  {
  }

  /** `send_enrollment_reminders`: tries every due application and counts
      those whose message was built and handed over without raising.
      `fails` says which ones raise; the mail itself is sent with errors
      silenced, so it never lowers the count. */
  method SendEnrollmentReminders(db: EnrollmentDb, now: int, fails: nat -> bool) returns (count: nat)
    ensures count == |set k | k in ReminderKeys(db.regs, now) && !fails(k)|
    ensures count <= |ReminderKeys(db.regs, now)|
  {
    var due := ReminderKeys(db.regs, now);
    var l := ListOf(due);
    var sent := (k: nat) => !fails(k);
    count := 0;
    var i := 0;
    while i < |l|
      invariant 0 <= i <= |l|
      invariant count == |Selected(l[..i], sent)|
    {
      PrefixSelectionStep(l, i, sent);
      if !fails(l[i]) {
        count := count + 1;
      }
      i := i + 1;
    }
    assert l[..i] == l;
    var chosen := set k | k in due && !fails(k);
    assert Selected(l, sent) == chosen;
    assert chosen <= due;
    assert due == chosen + (due - chosen);
  }

  // ---------------------------------------------------------------------
  // cleanup_old_rejected_registrations
  // ---------------------------------------------------------------------

  /** Rejected and reviewed at least ninety days before `now`; a null review
      time never matches the comparison. */
  predicate OldRejected(r: Registration, now: int) {
    r.status == Rejected && r.reviewedAt.Some? && r.reviewedAt.value <= now - 90 * SecondsPerDay
  }

  function OldRejectedKeys(regs: map<nat, Registration>, now: int): set<nat> {
    set k | k in regs && OldRejected(regs[k], now)
  }

  /** `cleanup_old_rejected_registrations`: reports how many applications
      qualify and deletes none of them. */
  method CleanupOldRejectedRegistrations(db: EnrollmentDb, now: int) returns (count: nat)
    ensures count == |OldRejectedKeys(db.regs, now)|
    ensures forall k :: k in OldRejectedKeys(db.regs, now) ==> k in db.regs && db.regs[k].status == Rejected
  {
    count := |OldRejectedKeys(db.regs, now)|;
  }

  /** As time passes the set of qualifying applications only grows. */
  lemma OldRejectedGrowsWithTime(regs: map<nat, Registration>, now1: int, now2: int)
    requires now1 <= now2
    ensures OldRejectedKeys(regs, now1) <= OldRejectedKeys(regs, now2)
    ensures |OldRejectedKeys(regs, now1)| <= |OldRejectedKeys(regs, now2)|
  {
    var a, b := OldRejectedKeys(regs, now1), OldRejectedKeys(regs, now2);
    assert a <= b;
    assert b == a + (b - a);
  }

  // ---------------------------------------------------------------------
  // generate_enrollment_report
  // ---------------------------------------------------------------------

  datatype ReportError = SchoolNotFound

  function ReportKeys(regs: map<nat, Registration>, tenant: TenantId, year: string): set<nat> {
    set k | k in regs && regs[k].tenant == Some(tenant) && regs[k].academicYear == year
  }

  function WithStatus(regs: map<nat, Registration>, keys: set<nat>, s: RegStatus): set<nat> {
    set k | k in keys && k in regs && regs[k].status == s
  }

  /** A listing of `keys` counts each status as the size of its subset. */
  lemma ListedStatusCount(regs: map<nat, Registration>, keys: set<nat>, rows: seq<nat>, s: RegStatus)
    requires NoDuplicates(rows) && forall k :: k in rows <==> k in keys
    ensures Count(rows, StatusIs(regs, s)) == |WithStatus(regs, keys, s)|
  {
    CountListed(rows, StatusIs(regs, s));
    assert Selected(rows, StatusIs(regs, s)) == WithStatus(regs, keys, s);
  }

  /** `generate_enrollment_report`: an unknown school raises; otherwise the
      counts of the school's applications for the year, in total and per
      counted status. */
  method GenerateEnrollmentReport(db: EnrollmentDb, schools: set<TenantId>, tenant: TenantId, year: string)
    returns (r: Result<Stats, ReportError>)
    ensures r.Err? <==> tenant !in schools
    ensures r.Ok? ==>
      var keys := ReportKeys(db.regs, tenant, year);
      r.value == Stats(|keys|, |WithStatus(db.regs, keys, Pending)|, |WithStatus(db.regs, keys, Approved)|,
                       |WithStatus(db.regs, keys, Rejected)|, |WithStatus(db.regs, keys, Enrolled)|)
    ensures r.Ok? ==> r.value.pending + r.value.approved + r.value.rejected + r.value.enrolled <= r.value.total
  {
    if tenant !in schools {
      return Err(SchoolNotFound);
    }
    var regs := db.regs;
    var keys := ReportKeys(regs, tenant, year);
    var rows := ListOf(keys);
    ListedStatusCount(regs, keys, rows, Pending);
    ListedStatusCount(regs, keys, rows, Approved);
    ListedStatusCount(regs, keys, rows, Rejected);
    ListedStatusCount(regs, keys, rows, Enrolled);
    forall i | 0 <= i < |rows| ensures rows[i] in regs {
      assert rows[i] in rows;
    }
    StatsAddUp(regs, rows);
    r := Ok(StatsOf(regs, rows));
  }

  // ---------------------------------------------------------------------
  // auto_approve_complete_registrations
  // ---------------------------------------------------------------------

  const RequiredDocTypes: set<string> := {"birth_certificate", "photo", "id_card", "parent_id"}

  const AutoApprovalNote: string := "Auto-approved: All requirements met"

  /** The document types of application `k` that have been verified. */
  function VerifiedTypes(docs: seq<Document>, k: nat): set<string> {
    set i | 0 <= i < |docs| && docs[i].registration == k && docs[i].verified :: docs[i].docType
  }

  /** Pending, every required type among the verified documents, and all
      eleven fields filled. */
  predicate AutoEligible(r: Registration, docs: seq<Document>, k: nat) {
    r.status == Pending && RequiredDocTypes <= VerifiedTypes(docs, k) && CompletionPercentage(r) == 100
  }

  /** The row as `save` writes it: the status moves from pending into
      approved, so the review time is stamped too. */
  function AutoApproved(r: Registration, now: int): Registration {
    r.(status := Approved, reviewNotes := AutoApprovalNote, reviewedAt := Some(now))
  }

  function EligibleKeys(regs: map<nat, Registration>, docs: seq<Document>): set<nat> {
    set k | k in regs && AutoEligible(regs[k], docs, k)
  }

  function AfterAutoApproval(regs: map<nat, Registration>, docs: seq<Document>, now: int): map<nat, Registration> {
    map k | k in regs :: if AutoEligible(regs[k], docs, k) then AutoApproved(regs[k], now) else regs[k]
  }

  /** An unverified document never helps: a required type without a
      verified document of that type blocks approval. */
  lemma UnverifiedDocumentsDoNotCount(r: Registration, docs: seq<Document>, k: nat, t: string)
    requires t in RequiredDocTypes
    requires forall i :: 0 <= i < |docs| && docs[i].registration == k && docs[i].docType == t ==> !docs[i].verified
    ensures !AutoEligible(r, docs, k)
  {
    assert t !in VerifiedTypes(docs, k);
  }

  /** The sweep approves exactly the eligible applications, and only pending
      ones; a second sweep finds nothing left to approve. */
  lemma AutoApprovalSettles(regs: map<nat, Registration>, docs: seq<Document>, now: int)
    ensures forall k :: k in EligibleKeys(regs, docs) ==> regs[k].status == Pending
    ensures forall k :: k in regs && k !in EligibleKeys(regs, docs) ==> AfterAutoApproval(regs, docs, now)[k] == regs[k]
    ensures EligibleKeys(AfterAutoApproval(regs, docs, now), docs) == {}
  {
    var after := AfterAutoApproval(regs, docs, now);
    forall k | k in after ensures !AutoEligible(after[k], docs, k) {
      if AutoEligible(regs[k], docs, k) {
        assert after[k].status == Approved;
      }
    }
  }

  /** The table once the applications in `done` have been visited, of
      which those in `eligible` were approved. */
  function ApprovedAmong(regs: map<nat, Registration>, eligible: set<nat>, now: int, done: set<nat>): map<nat, Registration> {
    map k | k in regs :: if k in done && k in eligible then SavedApproval(regs[k], now) else regs[k]
  }

  /** What `save` writes after the sweep sets the status and the note. */
  function SavedApproval(r: Registration, now: int): Registration {
    Stamped(r, r.(status := Approved, reviewNotes := AutoApprovalNote), now)
  }

  /** Visiting one more application changes at most its own row. */
  lemma ApprovedAmongStep(regs: map<nat, Registration>, eligible: set<nat>, now: int, done: set<nat>, k: nat)
    requires k in regs
    ensures ApprovedAmong(regs, eligible, now, done + {k}) ==
      if k in eligible
      then ApprovedAmong(regs, eligible, now, done)[k := SavedApproval(regs[k], now)]
      else ApprovedAmong(regs, eligible, now, done)
  {
  }

  /** Bookkeeping for one turn of the sweep over the listing `l`. */
  lemma SweepStep(l: seq<nat>, i: nat, done: set<nat>, eligible: set<nat>)
    requires NoDuplicates(l) && i < |l|
    requires forall x :: x in done <==> x in l[..i]
    ensures l[i] !in done
    ensures forall x :: x in done + {l[i]} <==> x in l[..i + 1]
    ensures |(done + {l[i]}) * eligible| == |done * eligible| + (if l[i] in eligible then 1 else 0)
  {
    assert l[..i + 1] == l[..i] + [l[i]];
    PrefixSelectionStep(l, i, x => true);
    if l[i] in eligible {
      assert (done + {l[i]}) * eligible == done * eligible + {l[i]};
    } else {
      assert (done + {l[i]}) * eligible == done * eligible;
    }
  }

  /** Visiting every pending application, in any order, approves exactly
      the eligible ones. */
  lemma SweepComplete(regs: map<nat, Registration>, docs: seq<Document>, now: int, done: set<nat>)
    requires forall x :: x in done <==> x in regs && regs[x].status == Pending
    ensures ApprovedAmong(regs, EligibleKeys(regs, docs), now, done) == AfterAutoApproval(regs, docs, now)
    ensures done * EligibleKeys(regs, docs) == EligibleKeys(regs, docs)
  {
  }

  /** The eligibility test of the sweep, as a function of the key. */
  function EligibleIn(regs: map<nat, Registration>, docs: seq<Document>): nat -> bool {
    k => k in regs && AutoEligible(regs[k], docs, k)
  }

  /** One turn of the sweep: approves and saves application `k` when the
      test `isEligible` passes for it. */
  method Visit(db: EnrollmentDb, regs0: map<nat, Registration>, isEligible: nat -> bool, ghost eligible: set<nat>,
               now: int, ghost done: set<nat>, k: nat)
    returns (approvedIt: bool)
    requires db.Valid() && k in regs0 && k !in done
    requires (k in eligible) == isEligible(k)
    requires db.regs == ApprovedAmong(regs0, eligible, now, done)
    modifies db
    ensures db.Valid() && db.docs == old(db.docs) && db.history == old(db.history) && db.nextPk == old(db.nextPk)
    ensures db.regs == ApprovedAmong(regs0, eligible, now, done + {k})
    ensures approvedIt == (k in eligible)
  {
    ApprovedAmongStep(regs0, eligible, now, done, k);
    approvedIt := isEligible(k);
    assert k in db.regs && db.regs[k] == regs0[k];
    if approvedIt {
      var incoming := regs0[k].(status := Approved, reviewNotes := AutoApprovalNote);
      var _, _ := db.Save(k, incoming, now);
    }
  }

  /** The state of the sweep after visiting the applications in `done`,
      `approved` of which were approved: only the table has changed. */
  ghost predicate SweptSoFar(db: EnrollmentDb, regs0: map<nat, Registration>, eligible: set<nat>, docs: seq<Document>,
                             history: seq<StatusChange>, nextPk: nat, now: int, done: set<nat>, approved: nat)
    reads db
  {
    db.Valid() && db.docs == docs && db.history == history && db.nextPk == nextPk &&
    db.regs == ApprovedAmong(regs0, eligible, now, done) && approved == |done * eligible|
  }

  /** The loop of the sweep over the listing `l` of the pending
      applications: visits each in turn and counts the approvals. */
  method Sweep(db: EnrollmentDb, regs0: map<nat, Registration>, isEligible: nat -> bool, ghost eligible: set<nat>,
               now: int, l: seq<nat>)
    returns (approved: nat, ghost done: set<nat>)
    requires db.Valid() && db.regs == regs0
    requires NoDuplicates(l) && forall x :: x in l ==> x in regs0
    requires forall x :: x in regs0 ==> ((x in eligible) == isEligible(x))
    modifies db
    ensures SweptSoFar(db, regs0, eligible, old(db.docs), old(db.history), old(db.nextPk), now, done, approved)
    ensures forall x :: x in done <==> x in l
  {
    done := {};
    approved := 0;
    var i := 0;
    while i < |l|
      invariant 0 <= i <= |l|
      invariant forall x :: x in done <==> x in l[..i]
      invariant SweptSoFar(db, regs0, eligible, old(db.docs), old(db.history), old(db.nextPk), now, done, approved)
    {
      var k := l[i];
      assert k in l;
      SweepStep(l, i, done, eligible);
      var approvedIt := Visit(db, regs0, isEligible, eligible, now, done, k);
      if approvedIt {
        approved := approved + 1;
      }
      done := done + {k};
      i := i + 1;
    }
    assert l[..i] == l;
  }

  /** `auto_approve_complete_registrations`: walks the pending applications
      once, approves and saves each eligible one, and returns how many. */
  method AutoApproveCompleteRegistrations(db: EnrollmentDb, now: int) returns (approved: nat)
    requires db.Valid()
    modifies db
    ensures db.Valid()
    ensures db.regs == AfterAutoApproval(old(db.regs), db.docs, now)
    ensures approved == |EligibleKeys(old(db.regs), db.docs)|
    ensures db.history == old(db.history) && db.docs == old(db.docs) && db.nextPk == old(db.nextPk)
  {
    var regs0 := db.regs;
    var pending: set<nat> := set k | k in regs0 && regs0[k].status == Pending;
    var l := ListOf(pending);
    ghost var done;
    approved, done := Sweep(db, regs0, EligibleIn(regs0, db.docs), EligibleKeys(regs0, db.docs), now, l);
    SweepComplete(regs0, db.docs, now, done);
  }
}
