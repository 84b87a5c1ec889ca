/** Academic programmes (filieres/models.py): the programme and
    programme-subject rows, their field bounds and uniqueness constraints,
    the enrolled count, `is_full` and `get_total_hours`. */
module Filieres {
  import opened Common
  import opened Enrollment

  datatype Level = Bachelor | Master

  function LevelName(l: Level): string {
    match l
    case Bachelor => "Bachelor"
    case Master => "Master"
  }

  /** One Filiere row. `capacity` is None when left empty. */
  datatype Filiere = Filiere(
    tenant: TenantId,
    name: string,
    code: string,
    description: string,
    level: Level,
    durationYears: int,
    capacity: Option<int>,
    isActive: bool,
    coordinator: Option<UserId>)

  /** Length limits of `name` and `code` and the 1..10 years validator. */
  predicate FiliereFieldsValid(f: Filiere) {
    |f.name| <= 200 && |f.code| <= 20 && 1 <= f.durationYears <= 10
  }

  /** A programme created with every defaulted field left alone. */
  function NewFiliere(tenant: TenantId, name: string, code: string): Filiere {
    Filiere(tenant, name, code, "", Bachelor, 3, None, true, None)
  }

  /** The defaults are a Bachelor programme of three years, unlimited and
      active, and pass the validators whenever name and code fit. */
  lemma NewFiliereDefaults(tenant: TenantId, name: string, code: string)
    requires |name| <= 200 && |code| <= 20
    ensures FiliereFieldsValid(NewFiliere(tenant, name, code))
    ensures NewFiliere(tenant, name, code).level == Bachelor
    ensures NewFiliere(tenant, name, code).capacity.None? && NewFiliere(tenant, name, code).isActive
  {
  }

  /** One FiliereSubject row: course `subject` taught in `filiere`. */
  datatype FiliereSubject = FiliereSubject(
    filiere: nat,
    subject: nat,
    coefficient: real,
    isMandatory: bool,
    year: int,
    semester: int,
    credits: int,
    hoursPerWeek: int)

  /** A subject row as its validators accept it when the coefficient has
      room for ten (DecimalField with four digits). */
  predicate SubjectValid(s: FiliereSubject) {
    0.1 <= s.coefficient <= 10.0 && TwoPlaces(s.coefficient) && FitsDigits(s.coefficient, 4, 2) &&
    1 <= s.year <= 10 && 1 <= s.semester <= 4 &&
    1 <= s.credits <= 20 && 1 <= s.hoursPerWeek <= 40
  }

  /** The same row as the code declares it: the coefficient column is
      DecimalField(max_digits=3, decimal_places=2), one digit before the
      point, while its validator allows up to 10. */
  predicate SubjectValidAsWritten(s: FiliereSubject) {
    0.1 <= s.coefficient <= 10.0 && TwoPlaces(s.coefficient) && FitsDigits(s.coefficient, 3, 2) &&
    1 <= s.year <= 10 && 1 <= s.semester <= 4 &&
    1 <= s.credits <= 20 && 1 <= s.hoursPerWeek <= 40
  }

  /** The declared rows accept exactly the intended ones except those whose
      coefficient is the declared maximum 10. */
  lemma SubjectCoefficientTenRejected(s: FiliereSubject)
    ensures SubjectValidAsWritten(s) <==> SubjectValid(s) && s.coefficient != 10.0
  {
    assert Pow10(1) == 10 && Pow10(2) == 100;
  }

  /** Every row the declared validators accept is stored by the numeric(3,2)
      coefficient column, and the validators' maximum 10 is not. */
  lemma SubjectColumnHoldsValidRows(s: FiliereSubject)
    ensures SubjectValidAsWritten(s) ==> FitsColumn(s.coefficient, 3)
    ensures s.coefficient == 10.0 ==> !FitsColumn(s.coefficient, 3)
  {
    assert Pow10(1) == 10;
    if SubjectValidAsWritten(s) {
      TwoPlacesFitColumn(s.coefficient, 3);
    }
  }

  /** A subject row with every defaulted field left alone. */
  function NewSubject(filiere: nat, subject: nat, year: int): FiliereSubject {
    FiliereSubject(filiere, subject, 1.00, true, year, 1, 3, 3)
  }

  /** The defaults (coefficient 1.00, mandatory, semester 1, 3 credits,
      3 hours) pass every validator for a year in 1..10, and the row with
      coefficient 10 is refused only by the declared column. */
  lemma NewSubjectValid(filiere: nat, subject: nat, year: int)
    requires 1 <= year <= 10
    ensures SubjectValid(NewSubject(filiere, subject, year))
    ensures SubjectValid(NewSubject(filiere, subject, year).(coefficient := 10.0))
    ensures !SubjectValidAsWritten(NewSubject(filiere, subject, year).(coefficient := 10.0))
  {
    SubjectCoefficientTenRejected(NewSubject(filiere, subject, year).(coefficient := 10.0));
    assert Pow10(2) == 100;
  }

  /** `get_total_hours`: a semester of fifteen weeks. */
  function TotalHours(s: FiliereSubject): int {
    s.hoursPerWeek * 15
  }

  /** Valid rows total 15 to 600 hours, more weekly hours give more hours,
      and four weekly hours give sixty. */
  lemma TotalHoursBounds(s: FiliereSubject, t: FiliereSubject)
    requires SubjectValid(s)
    ensures 15 <= TotalHours(s) <= 600
    ensures s.hoursPerWeek < t.hoursPerWeek ==> TotalHours(s) < TotalHours(t)
    ensures s.hoursPerWeek == 4 ==> TotalHours(s) == 60
  {
  }

  // ---------------------------------------------------------------------
  // Enrolled students and capacity
  // ---------------------------------------------------------------------

  /** The registrations counted by `get_enrolled_students_count`. */
  function EnrolledKeys(regs: map<nat, Registration>, f: nat): set<nat> {
    set k | k in regs && regs[k].filiere == Some(f) && regs[k].status == Enrolled
  }

  function EnrolledCount(regs: map<nat, Registration>, f: nat): nat {
    |EnrolledKeys(regs, f)|
  }

  /** The count is positive exactly when some registration of this
      programme is enrolled, and it never exceeds the table's size. */
  lemma EnrolledCountMeaning(regs: map<nat, Registration>, f: nat)
    ensures EnrolledCount(regs, f) > 0 <==>
      exists k :: k in regs && regs[k].filiere == Some(f) && regs[k].status == Enrolled
    ensures EnrolledCount(regs, f) <= |regs|
  {
    var ks := EnrolledKeys(regs, f);
    if exists k :: k in regs && regs[k].filiere == Some(f) && regs[k].status == Enrolled {
      var k :| k in regs && regs[k].filiere == Some(f) && regs[k].status == Enrolled;
      assert k in ks;
    }
    assert ks <= regs.Keys;
    SubsetCardinality(ks, regs.Keys);
  }

  /** `is_full`: an empty or zero capacity means unlimited. */
  function IsFull(f: Filiere, enrolled: nat): (full: bool)
    ensures f.capacity.None? || f.capacity.value == 0 ==> !full
    ensures f.capacity.Some? && f.capacity.value != 0 ==> (full <==> enrolled >= f.capacity.value)
  {
    if f.capacity.None? || f.capacity.value == 0 then false
    else enrolled >= f.capacity.value
  }

  /** Enrolling one more student in a programme never makes a full
      programme stop being full. */
  lemma EnrollingKeepsFull(f: Filiere, pk: nat, regs: map<nat, Registration>, k: nat, r: Registration)
    requires IsFull(f, EnrolledCount(regs, pk))
    ensures IsFull(f, EnrolledCount(regs[k := r.(filiere := Some(pk), status := Enrolled)], pk))
  {
    var regs2 := regs[k := r.(filiere := Some(pk), status := Enrolled)];
    assert EnrolledKeys(regs, pk) <= EnrolledKeys(regs2, pk);
    SubsetCardinality(EnrolledKeys(regs, pk), EnrolledKeys(regs2, pk));
  }

  // ---------------------------------------------------------------------
  // The tables and their uniqueness constraints
  // ---------------------------------------------------------------------

  /** `unique_together = [['tenant', 'code']]`. */
  predicate CodesUnique(filieres: map<nat, Filiere>) {
    forall a, b :: a in filieres && b in filieres && a != b && filieres[a].tenant == filieres[b].tenant ==>
      filieres[a].code != filieres[b].code
  }

  /** Another row than `pk` of the same school already uses `code`. */
  predicate CodeTaken(filieres: map<nat, Filiere>, tenant: TenantId, code: string, pk: nat) {
    exists k :: k in filieres && k != pk && filieres[k].tenant == tenant && filieres[k].code == code
  }

  function SubjectKey(s: FiliereSubject): (nat, nat, int, int) {
    (s.filiere, s.subject, s.year, s.semester)
  }

  /** `unique_together = [['filiere', 'subject', 'year', 'semester']]`. */
  predicate SubjectRowsUnique(subjects: map<nat, FiliereSubject>) {
    forall a, b :: a in subjects && b in subjects && a != b ==> SubjectKey(subjects[a]) != SubjectKey(subjects[b])
  }

  /** The subject rows left once programme `pk` is deleted (CASCADE). */
  function SubjectsWithout(subjects: map<nat, FiliereSubject>, pk: nat): map<nat, FiliereSubject> {
    map k | k in subjects && subjects[k].filiere != pk :: subjects[k]
  }

  /** The programme and programme-subject tables. */
  class FiliereDb {
    var filieres: map<nat, Filiere>
    var subjects: map<nat, FiliereSubject>
    var nextPk: nat

    /** Keys come from one counter starting at 1, both unique constraints
        hold and every subject row belongs to a stored programme. */
    ghost predicate Valid()
      reads this
    {
      1 <= nextPk &&
      (forall k :: k in filieres ==> 1 <= k < nextPk) &&
      (forall k :: k in subjects ==> 1 <= k < nextPk && subjects[k].filiere in filieres) &&
      CodesUnique(filieres) && SubjectRowsUnique(subjects)
    }

    constructor ()
      ensures Valid() && filieres == map[] && subjects == map[]
    {
      filieres := map[];
      subjects := map[];
      nextPk := 1;
    }

    /** `Filiere.save` of an instance with key `pk` (0 when new). A row that
        would repeat its school's code violates the constraint and the
        save fails with nothing written, as does a vanished key or a name or
        code longer than its varchar column (200 and 20 characters). */
    method SaveFiliere(pk: nat, f: Filiere) returns (key: nat, ok: bool)
      requires Valid()
      modifies this
      ensures Valid() && subjects == old(subjects)
      ensures ok == ((pk == 0 || pk in old(filieres)) && |f.name| <= 200 && |f.code| <= 20 &&
                     !CodeTaken(old(filieres), f.tenant, f.code, pk))
      ensures !ok ==> unchanged(this)
      ensures ok && pk == 0 ==> key == old(nextPk) && key !in old(filieres) && filieres == old(filieres)[key := f]
      ensures ok && pk != 0 ==> key == pk && filieres == old(filieres)[pk := f]
    {
      key := pk;
      if (pk != 0 && pk !in filieres) || |f.name| > 200 || |f.code| > 20 || CodeTaken(filieres, f.tenant, f.code, pk) {
        return key, false;
      }
      ok := true;
      if pk == 0 {
        key := nextPk;
        nextPk := nextPk + 1;
      }
      filieres := filieres[key := f];
    }

    /** `FiliereSubject.save` of a new row: its programme must exist, the
        coefficient must fit the numeric(3,2) column (10 does not), and the
        (filiere, subject, year, semester) combination must be new. */
    method AddSubject(s: FiliereSubject) returns (key: nat, ok: bool)
      requires Valid()
      modifies this
      ensures Valid() && filieres == old(filieres)
      ensures ok == (s.filiere in old(filieres) && FitsColumn(s.coefficient, 3) &&
                     forall k :: k in old(subjects) ==> SubjectKey(old(subjects)[k]) != SubjectKey(s))
      ensures !ok ==> unchanged(this)
      ensures ok ==> key == old(nextPk) && key !in old(subjects) && subjects == old(subjects)[key := s]
    {
      key := 0;
      if s.filiere !in filieres || !FitsColumn(s.coefficient, 3) ||
         exists k :: k in subjects && SubjectKey(subjects[k]) == SubjectKey(s) {
        return key, false;
      }
      ok := true;
      key := nextPk;
      nextPk := nextPk + 1;
      subjects := subjects[key := s];
    }

    /** `Filiere.delete`: the row goes and its subject rows with it. */
    method Delete(pk: nat)
      requires Valid() && pk in filieres
      modifies this`filieres, this`subjects
      ensures Valid()
      ensures filieres == old(filieres) - {pk}
      ensures subjects == SubjectsWithout(old(subjects), pk)
    {
      filieres := filieres - {pk};
      subjects := SubjectsWithout(subjects, pk);
    }
  }
}
