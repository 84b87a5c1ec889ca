/** The programme views (filieres/views.py): the list filters, the
    grouping of a programme's subjects by (year, semester) and the delete
    guard. The decorators in front of them are modelled in module Decorators. */
module FiliereViews {
  import opened Common
  import opened Enrollment
  import opened Filieres
  import Notes
  import Library

  // ---------------------------------------------------------------------
  // filiere_list
  // ---------------------------------------------------------------------

  /** The search form's cleaned values ("" when a field is left empty). */
  datatype SearchForm = SearchForm(search: string, level: string, isActive: string, hasCapacity: string)

  /** The choice fields accept only their listed values. */
  predicate SearchFormValid(s: SearchForm) {
    s.level in {"", "Bachelor", "Master"} &&
    s.isActive in {"", "true", "false"} &&
    s.hasCapacity in {"", "true", "false"}
  }

  /** The conditions a programme must meet for a valid form; an invalid
      form applies none. `has_capacity` is accepted but never applied. */
  predicate Listed(f: Filiere, s: SearchForm) {
    (s.search != "" ==> IContains(f.name, s.search) || IContains(f.code, s.search)) &&
    (s.level != "" ==> LevelName(f.level) == s.level) &&
    (s.isActive != "" ==> f.isActive == (s.isActive == "true"))
  }

  /** The programmes `filiere_list` shows (before paging). */
  function FiliereList(filieres: map<nat, Filiere>, tenant: TenantId, s: SearchForm): (r: set<nat>)
    ensures forall k :: k in r ==> k in filieres && filieres[k].tenant == tenant
    ensures !SearchFormValid(s) ==> r == set k | k in filieres && filieres[k].tenant == tenant
    ensures SearchFormValid(s) && s.search != "" ==>
      forall k :: k in r ==> IContains(filieres[k].name, s.search) || IContains(filieres[k].code, s.search)
    ensures SearchFormValid(s) && s.isActive == "true" ==> forall k :: k in r ==> filieres[k].isActive
    ensures SearchFormValid(s) && s.isActive == "false" ==> forall k :: k in r ==> !filieres[k].isActive
  {
    set k | k in filieres && filieres[k].tenant == tenant && (SearchFormValid(s) ==> Listed(filieres[k], s))
  }

  /** Each filter only narrows the list: clearing one lists a superset, and
      "true" and "false" for `is_active` split the unfiltered list in two. */
  lemma FiltersNarrow(filieres: map<nat, Filiere>, tenant: TenantId, s: SearchForm)
    requires SearchFormValid(s)
    ensures FiliereList(filieres, tenant, s) <= FiliereList(filieres, tenant, s.(search := ""))
    ensures FiliereList(filieres, tenant, s) <= FiliereList(filieres, tenant, s.(level := ""))
    ensures FiliereList(filieres, tenant, s) <= FiliereList(filieres, tenant, s.(isActive := ""))
    ensures FiliereList(filieres, tenant, s.(isActive := "true")) + FiliereList(filieres, tenant, s.(isActive := "false"))
         == FiliereList(filieres, tenant, s.(isActive := ""))
    ensures FiliereList(filieres, tenant, s.(isActive := "true")) * FiliereList(filieres, tenant, s.(isActive := "false")) == {}
  {
  }

  // ---------------------------------------------------------------------
  // filiere_detail
  // ---------------------------------------------------------------------

  type GroupKey = (int, int)

  function KeyOf(s: FiliereSubject): GroupKey {
    (s.year, s.semester)
  }

  function HasKey(key: GroupKey): FiliereSubject -> bool {
    s => KeyOf(s) == key
  }

  function KeysOf(subjects: seq<FiliereSubject>): set<GroupKey> {
    set s | s in subjects :: KeyOf(s)
  }

  /** `groups` is the grouping the detail page shows: one entry per
      (year, semester) that occurs, holding that period's subjects in their
      listed order. */
  predicate IsGrouping(groups: map<GroupKey, seq<FiliereSubject>>, subjects: seq<FiliereSubject>) {
    groups.Keys == KeysOf(subjects) &&
    forall key :: key in groups ==> groups[key] == Filter(subjects, HasKey(key))
  }

  /** In a grouping every subject sits in the group of its own (year,
      semester) and in no other, and no group is empty. */
  lemma GroupingPlacesEachOnce(groups: map<GroupKey, seq<FiliereSubject>>, subjects: seq<FiliereSubject>)
    requires IsGrouping(groups, subjects)
    ensures forall s :: s in subjects ==> KeyOf(s) in groups && s in groups[KeyOf(s)]
    ensures forall key, s :: key in groups && s in groups[key] ==> s in subjects && KeyOf(s) == key
    ensures forall key :: key in groups ==> groups[key] != []
  {
    forall key | key in groups ensures groups[key] != [] {
      var s :| s in subjects && KeyOf(s) == key;
      assert s in groups[key];
    }
  }

  /** One group after appending: its old content, plus `x` when `x`
      belongs to it. */
  lemma GroupSnocAt(subjects: seq<FiliereSubject>, x: FiliereSubject, key: GroupKey)
    ensures Filter(subjects + [x], HasKey(key)) ==
      if key == KeyOf(x) then
        (if key in KeysOf(subjects) then Filter(subjects, HasKey(key)) else []) + [x]
      else Filter(subjects, HasKey(key))
  {
    FilterSnoc(subjects, x, HasKey(key));
    if key !in KeysOf(subjects) {
      NoGroupIsEmpty(subjects, key);
    }
  }

  lemma KeysOfSnoc(subjects: seq<FiliereSubject>, x: FiliereSubject)
    ensures KeysOf(subjects + [x]) == KeysOf(subjects) + {KeyOf(x)}
  {
    assert forall s :: s in subjects + [x] <==> s in subjects || s == x;
  }

  /** A period with no subject has nothing to filter. */
  lemma NoGroupIsEmpty(subjects: seq<FiliereSubject>, key: GroupKey)
    requires key !in KeysOf(subjects)
    ensures Filter(subjects, HasKey(key)) == []
  {
    var f := Filter(subjects, HasKey(key));
    assert f != [] ==> f[0] in f && KeyOf(f[0]) in KeysOf(subjects);
  }

  /** The dictionary once the loop has visited `subjects`: each subject
      is appended to the list of its (year, semester), opened when new. */
  function GroupsAfter(subjects: seq<FiliereSubject>): map<GroupKey, seq<FiliereSubject>> {
    if subjects == [] then map[]
    else
      var g := GroupsAfter(subjects[..|subjects| - 1]);
      var x := subjects[|subjects| - 1];
      g[KeyOf(x) := (if KeyOf(x) in g then g[KeyOf(x)] else []) + [x]]
  }

  /** Appending subject by subject builds exactly the grouping. */
  lemma {:induction false} GroupsAfterIsGrouping(subjects: seq<FiliereSubject>)
    ensures IsGrouping(GroupsAfter(subjects), subjects)
  {
    if subjects != [] {
      var init := subjects[..|subjects| - 1];
      var x := subjects[|subjects| - 1];
      assert init + [x] == subjects;
      GroupsAfterIsGrouping(init);
      KeysOfSnoc(init, x);
      var g := GroupsAfter(subjects);
      forall key | key in g ensures g[key] == Filter(subjects, HasKey(key)) {
        GroupSnocAt(init, x, key);
      }
    }
  }

  /** `filiere_detail`'s loop: for each subject of the programme in order,
      open its (year, semester) group when needed and append it. */
  method GroupSubjects(subjects: seq<FiliereSubject>) returns (groups: map<GroupKey, seq<FiliereSubject>>)
    ensures IsGrouping(groups, subjects)
  {
    groups := map[];
    var i := 0;
    while i < |subjects|
      invariant 0 <= i <= |subjects|
      invariant groups == GroupsAfter(subjects[..i])
    {
      var subject := subjects[i];
      var key := (subject.year, subject.semester);
      var group := if key in groups then groups[key] else [];
      groups := groups[key := group + [subject]];
      assert subjects[..i + 1][..i] == subjects[..i];
      i := i + 1;
    }
    assert subjects[..i] == subjects;
    GroupsAfterIsGrouping(subjects);
  }

  // ---------------------------------------------------------------------
  // filiere_delete
  // ---------------------------------------------------------------------

  datatype DeleteResponse = NotFound | BackToDetail | DeletedBackToList | ConfirmPage

  /** The registrations once programme `pk` is gone: its registrations
      keep their row and lose the link (SET_NULL). */
  function Detached(regs: map<nat, Registration>, pk: nat): map<nat, Registration> {
    map k | k in regs :: if regs[k].filiere == Some(pk) then regs[k].(filiere := None) else regs[k]
  }

  /** When no enrolled student belongs to the programme, detaching it
      leaves every enrolled registration as it was. */
  lemma DetachedKeepsEnrolled(regs: map<nat, Registration>, pk: nat)
    requires EnrolledCount(regs, pk) == 0
    ensures Detached(regs, pk).Keys == regs.Keys
    ensures forall k :: k in regs && regs[k].status == Enrolled ==> Detached(regs, pk)[k] == regs[k]
    ensures forall k :: k in regs ==> Detached(regs, pk)[k].filiere != Some(pk)
  {
    forall k | k in regs && regs[k].status == Enrolled ensures Detached(regs, pk)[k] == regs[k] {
      assert k !in EnrolledKeys(regs, pk);
    }
  }

  /** `filiere_delete`: a programme of another school (or none) is not
      found; one with enrolled students is never deleted; otherwise a POST
      deletes it and anything else shows the confirmation page. */
  method FiliereDelete(db: FiliereDb, edb: EnrollmentDb, ndb: Notes.NoteDb, ldb: Library.LibraryDb,
                       tenant: TenantId, pk: nat, isPost: bool)
    returns (resp: DeleteResponse)
    requires db.Valid() && edb.Valid() && ndb.Valid() && ldb.Valid()
    modifies db, edb`regs, ndb`rows, ndb`history, ldb`books
    ensures db.Valid() && edb.Valid() && ndb.Valid() && ldb.Valid()
    ensures resp == NotFound <==> !(pk in old(db.filieres) && old(db.filieres)[pk].tenant == tenant)
    ensures resp == BackToDetail <==>
      pk in old(db.filieres) && old(db.filieres)[pk].tenant == tenant && EnrolledCount(old(edb.regs), pk) > 0
    ensures resp == DeletedBackToList <==>
      pk in old(db.filieres) && old(db.filieres)[pk].tenant == tenant && EnrolledCount(old(edb.regs), pk) == 0 && isPost
    ensures resp != DeletedBackToList ==> unchanged(db) && unchanged(edb) && unchanged(ndb) && unchanged(ldb)
    ensures resp == DeletedBackToList ==>
      db.filieres == old(db.filieres) - {pk} && db.subjects == SubjectsWithout(old(db.subjects), pk) &&
      edb.regs == Detached(old(edb.regs), pk) &&
      ndb.rows == Notes.NotesWithout(old(ndb.rows), pk) &&
      ndb.history == Notes.EntriesOf(old(ndb.history), ndb.rows) &&
      ldb.books == Library.BooksDetached(old(ldb.books), pk)
  {
    if pk !in db.filieres || db.filieres[pk].tenant != tenant {
      return NotFound;
    }
    if EnrolledCount(edb.regs, pk) > 0 {
      return BackToDetail;
    }
    if isPost {
      db.Delete(pk);
      edb.regs := Detached(edb.regs, pk);
      ndb.DeleteFiliereNotes(pk);
      ldb.DetachFiliere(pk);
      return DeletedBackToList;
    }
    return ConfirmPage;
  }
}
