/** The validators of the registration forms (enrollment/forms.py). Each
    returns the cleaned value or the validation error it raises. */
module EnrollmentForms {
  import opened Common
  import opened Enrollment

  // ---------------------------------------------------------------------
  // clean_date_of_birth
  // ---------------------------------------------------------------------

  /** (a.month, a.day) < (b.month, b.day) as Python compares tuples. */
  predicate MonthDayBefore(a: Date, b: Date) {
    a.month < b.month || (a.month == b.month && a.day < b.day)
  }

  /** Lexicographic order on (year, month, day). */
  predicate DateLe(a: Date, b: Date) {
    a.year < b.year || (a.year == b.year && !MonthDayBefore(b, a))
  }

  /** The age computed by the form: the difference of the years, minus one
      when this year's birthday is still ahead. */
  function Age(dob: Date, today: Date): int {
    today.year - dob.year - (if MonthDayBefore(today, dob) then 1 else 0)
  }

  /** The `n`-th birthday as a (year, month, day) triple. */
  function Anniversary(dob: Date, n: int): Date {
    Date(dob.year + n, dob.month, dob.day)
  }

  /** The age is the number of birthdays already reached: the `n`-th
      birthday is on or before today exactly when `n` is at most the age. */
  lemma AgeIsBirthdaysReached(dob: Date, today: Date)
    ensures forall n: int :: DateLe(Anniversary(dob, n), today) <==> n <= Age(dob, today)
  {
    forall n: int ensures DateLe(Anniversary(dob, n), today) <==> n <= Age(dob, today) {
      if MonthDayBefore(today, dob) {
        assert MonthDayBefore(today, Anniversary(dob, n));
      } else {
        assert !MonthDayBefore(today, Anniversary(dob, n));
      }
    }
  }

  datatype DobError = TooYoung | ImplausibleDate

  /** `clean_date_of_birth`: an empty value passes through; otherwise the
      age must lie in 5..100 and the date is returned unchanged. */
  function CleanDateOfBirth(dob: Option<Date>, today: Date): (r: Result<Option<Date>, DobError>)
    ensures dob.None? ==> r == Ok(None)
    ensures r.Ok? ==> r.value == dob
    ensures dob.Some? && Age(dob.value, today) < 5 ==> r == Err(TooYoung)
    ensures dob.Some? && Age(dob.value, today) > 100 ==> r == Err(ImplausibleDate)
  {
    match dob
    case None => Ok(None)
    case Some(d) =>
      var age := Age(d, today);
      if age < 5 then Err(TooYoung)
      else if age > 100 then Err(ImplausibleDate)
      else Ok(dob)
  }

  /** A date of birth is accepted exactly when the fifth birthday has been
      reached and the hundred-and-first has not. */
  lemma DateOfBirthAcceptedIffBirthdays(dob: Date, today: Date)
    ensures CleanDateOfBirth(Some(dob), today).Ok? <==>
      DateLe(Anniversary(dob, 5), today) && !DateLe(Anniversary(dob, 101), today)
  {
    AgeIsBirthdaysReached(dob, today);
  }

  // ---------------------------------------------------------------------
  // clean_email
  // ---------------------------------------------------------------------

  datatype EmailError = AlreadyRegistered

  /** The statuses under which an address counts as taken. */
  predicate Blocks(r: Registration) {
    r.status == Approved || r.status == Enrolled
  }

  /** The addresses of the school's approved or enrolled applications. */
  function TakenEmails(regs: map<nat, Registration>): set<string> {
    set k | k in regs && Blocks(regs[k]) :: regs[k].email
  }

  /** `clean_email`: an empty address passes; otherwise it is refused when
      an approved or enrolled application already uses it. The lookup has
      no tenant filter: the table is the current school's schema. */
  function CleanEmail(email: string, regs: map<nat, Registration>): (r: Result<string, EmailError>)
    ensures r.Ok? ==> r.value == email
    ensures r.Err? <==> email != "" && email in TakenEmails(regs)
  {
    if email != "" && exists k :: k in regs && regs[k].email == email && Blocks(regs[k]) then
      Err(AlreadyRegistered)
    else Ok(email)
  }

  /** Pending, under-review and rejected applications never block an
      address: adding or replacing one leaves the verdict as it was for
      every address it does not already block. */
  lemma OpenApplicationsDoNotBlock(email: string, regs: map<nat, Registration>, k: nat, r: Registration)
    requires !Blocks(r)
    requires k in regs ==> !Blocks(regs[k])
    ensures CleanEmail(email, regs[k := r]) == CleanEmail(email, regs)
  {
    var after := regs[k := r];
    forall e | e in TakenEmails(after) ensures e in TakenEmails(regs) {
      var j :| j in after && Blocks(after[j]) && after[j].email == e;
      assert j != k && after[j] == regs[j];
    }
    forall e | e in TakenEmails(regs) ensures e in TakenEmails(after) {
      var j :| j in regs && Blocks(regs[j]) && regs[j].email == e;
      assert j != k && after[j] == regs[j];
    }
    assert TakenEmails(after) == TakenEmails(regs);
  }

  // ---------------------------------------------------------------------
  // clean_file
  // ---------------------------------------------------------------------

  const MaxUploadBytes: nat := 10 * 1024 * 1024

  datatype FileError = TooLarge

  /** `DocumentUploadForm.clean_file`: size in bytes; no file passes. */
  function CleanFile(size: Option<nat>): (r: Result<Option<nat>, FileError>)
    ensures r.Ok? ==> r.value == size
    ensures r.Err? <==> size.Some? && size.value > 10485760
  {
    if size.Some? && size.value > MaxUploadBytes then Err(TooLarge) else Ok(size)
  }

  /** Exactly 10 MiB is accepted, one byte more is not. */
  lemma FileLimitBoundary()
    ensures CleanFile(Some(10485760)).Ok?
    ensures CleanFile(Some(10485761)).Err?
  {
  }

  // ---------------------------------------------------------------------
  // RegistrationReviewForm.clean
  // ---------------------------------------------------------------------

  datatype ReviewData = ReviewData(status: RegStatus, reviewNotes: string, rejectionReason: string)

  datatype ReviewError = ReasonRequired

  /** A rejection needs a reason; any other status accepts an empty one. */
  function CleanReview(d: ReviewData): (r: Result<ReviewData, ReviewError>)
    ensures r.Ok? ==> r.value == d
    ensures r.Err? <==> d.status == Rejected && d.rejectionReason == ""
  {
    if d.status == Rejected && d.rejectionReason == "" then Err(ReasonRequired) else Ok(d)
  }
}
