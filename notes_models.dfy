/** Professor notes: the weighted-score rule, the permission predicates, the
    status-changing model methods and the pre-save hook that writes the audit
    trail (notes/models.py and notes/signals.py). */
module Notes {
  import opened Common

  datatype NoteStatus = Draft | Pending | Approved | Rejected | RevisionRequested

  /** One value of a history entry's `old_values` / `new_values` object. */
  datatype Value = ScoreValue(score: Option<real>) | TextValue(text: string) | StatusValue(status: NoteStatus)

  /** The `change_summary` text, by the template that produced it. */
  datatype Summary =
    | NoSummary
    | ScoreChanged(from: Option<real>, to: Option<real>)
    | StatusChanged(fromStatus: NoteStatus, toStatus: NoteStatus)
    | MarkedDeleted

  /** One NoteHistory row. `action` is the free text written by the code. */
  datatype HistoryEntry = HistoryEntry(
    note: nat,
    action: string,
    changedBy: Option<UserId>,
    changedAt: int,
    oldValues: map<string, Value>,
    newValues: map<string, Value>,
    summary: Summary)

  /** The `choices` declared for NoteHistory.action. */
  const DeclaredActions: set<string> :=
    {"created", "updated", "submitted", "approved", "rejected", "revision_requested", "soft_deleted"}

  /** The actions that some code path actually writes. */
  const WrittenActions: set<string> := {"created", "updated", "deleted", "status_changed"}

  /** Two of the written actions are not among the declared choices, and
      only `created` and `updated` are both declared and written. */
  lemma UndeclaredActionsWritten()
    ensures WrittenActions - DeclaredActions == {"deleted", "status_changed"}
    ensures WrittenActions * DeclaredActions == {"created", "updated"}
  {
    assert "deleted" != "soft_deleted";
  }

  /** The persisted columns of one ProfessorNote row that the rules read.
      Decimal columns are exact rationals; timestamps are clock readings. */
  datatype NoteRow = NoteRow(
    tenant: TenantId,
    professor: UserId,
    filiere: Option<nat>,
    score: Option<real>,
    maxScore: real,
    coefficient: Option<real>,
    weightedScore: Option<real>,
    comment: string,
    status: NoteStatus,
    submittedForApproval: bool,
    approvedBy: Option<UserId>,
    approvedAt: Option<int>,
    approvalNotes: string,
    isDeleted: bool,
    deletedAt: Option<int>,
    createdAt: int)

  // ---------------------------------------------------------------------
  // Weighted score
  // ---------------------------------------------------------------------

  /** The score normalised to 100 and multiplied by the coefficient. */
  function WeightedScore(score: real, maxScore: real, coefficient: real): real
    requires maxScore != 0.0
  {
    (score / maxScore) * 100.0 * coefficient
  }

  /** `save` divides by `max_score` only when score and coefficient are both
      present; a zero `max_score` then raises before anything is written. */
  predicate SaveDividesByZero(score: Option<real>, maxScore: real, coefficient: Option<real>) {
    score.Some? && coefficient.Some? && maxScore == 0.0
  }

  /** The row as `save` writes it: weighted score recomputed when score and
      coefficient are present, kept otherwise. */
  function Recomputed(r: NoteRow): NoteRow
    requires !SaveDividesByZero(r.score, r.maxScore, r.coefficient)
  {
    if r.score.Some? && r.coefficient.Some? then
      r.(weightedScore := Some(WeightedScore(r.score.value, r.maxScore, r.coefficient.value)))
    else r
  }

  lemma RecomputedStatesWeightedScore(r: NoteRow)
    requires !SaveDividesByZero(r.score, r.maxScore, r.coefficient)
    ensures r.score.Some? && r.coefficient.Some? ==>
      Recomputed(r).weightedScore.Some? &&
      Recomputed(r).weightedScore.value * r.maxScore == r.score.value * 100.0 * r.coefficient.value
    ensures !(r.score.Some? && r.coefficient.Some?) ==> Recomputed(r) == r
    ensures Recomputed(r).(weightedScore := r.weightedScore) == r
  {
    if r.score.Some? && r.coefficient.Some? {
      var s, m, c := r.score.value, r.maxScore, r.coefficient.value;
      calc {
        WeightedScore(s, m, c) * m;
        (s / m) * 100.0 * c * m;
        (s / m) * m * 100.0 * c;
        { assert (s / m) * m == s; }
        s * 100.0 * c;
      }
    }
  }

  /** Within the validated ranges the weighted score lies in [0, 100 * c]. */
  lemma WeightedScoreBounds(score: real, maxScore: real, coefficient: real)
    requires 0.0 < maxScore && 0.0 <= score <= maxScore && 0.0 <= coefficient
    ensures 0.0 <= WeightedScore(score, maxScore, coefficient) <= 100.0 * coefficient
  {
    var q := score / maxScore;
    assert 0.0 <= q <= 1.0 by {
      assert q * maxScore == score;
    }
    assert 0.0 <= q * 100.0 <= 100.0;
    assert q * 100.0 * coefficient <= 100.0 * coefficient by {
      assert (100.0 - q * 100.0) * coefficient >= 0.0;
    }
  }

  /** A higher raw score never gives a lower weighted score. */
  lemma WeightedScoreMonotone(s1: real, s2: real, maxScore: real, coefficient: real)
    requires 0.0 < maxScore && s1 <= s2 && 0.0 <= coefficient
    ensures WeightedScore(s1, maxScore, coefficient) <= WeightedScore(s2, maxScore, coefficient)
  {
    var d := s2 / maxScore - s1 / maxScore;
    assert d * maxScore == s2 - s1;
    assert d >= 0.0;
    assert (s2 / maxScore) * 100.0 * coefficient - (s1 / maxScore) * 100.0 * coefficient == d * 100.0 * coefficient;
  }

  /** The raw score is recovered from the weighted score (no rounding). */
  lemma ScoreFromWeightedScore(score: real, maxScore: real, coefficient: real)
    requires maxScore != 0.0 && coefficient != 0.0
    ensures WeightedScore(score, maxScore, coefficient) * maxScore / (100.0 * coefficient) == score
  {
    var w := WeightedScore(score, maxScore, coefficient);
    assert (score / maxScore) * maxScore == score;
    assert w * maxScore == score * (100.0 * coefficient);
  }

  // ---------------------------------------------------------------------
  // When `save` raises
  // ---------------------------------------------------------------------

  /** Every decimal column holds its value: score and max_score are
      numeric(5,2), coefficient numeric(3,2), weighted_score numeric(6,2). */
  predicate ColumnsFit(r: NoteRow) {
    (r.score.None? || FitsColumn(r.score.value, 5)) && FitsColumn(r.maxScore, 5) &&
    (r.coefficient.None? || FitsColumn(r.coefficient.value, 3)) &&
    (r.weightedScore.None? || FitsColumn(r.weightedScore.value, 6))
  }

  /** `save` raises, and the request's transaction keeps nothing, when one of
      the NOT NULL columns score, coefficient or filiere is empty, when
      `max_score` is 0, or when a decimal column of the recomputed row
      overflows (in practice the weighted score reaching 10000). */
  predicate SaveFails(r: NoteRow) {
    r.score.None? || r.coefficient.None? || r.filiere.None? || r.maxScore == 0.0 ||
    !ColumnsFit(Recomputed(r))
  }

  /** The row `save` writes for the instance `r` held under `pk`: the
      weighted score recomputed, and a new note stamped with its creation
      time. */
  function Saved(r: NoteRow, pk: nat, now: int): NoteRow
    requires !SaveDividesByZero(r.score, r.maxScore, r.coefficient)
  {
    Recomputed(r).(createdAt := if pk == 0 then now else r.createdAt)
  }

  /** The instance after a save attempt: the division by zero raises before
      any field is set; otherwise the fields are filled in before the write,
      whether or not the write then succeeds. */
  function AfterSave(r: NoteRow, pk: nat, now: int): NoteRow {
    if SaveDividesByZero(r.score, r.maxScore, r.coefficient) then r else Saved(r, pk, now)
  }

  /** A score above the maximum overflows the weighted score: 100 out of a
      maximum of 1 weighs 10000, one digit more than numeric(6,2) holds,
      although every field passes its validators. */
  lemma WeightedScoreOverflows(r: NoteRow)
    requires r.score == Some(100.0) && r.maxScore == 1.0 && r.coefficient == Some(1.0) && r.filiere.Some?
    ensures SaveFails(r)
    ensures ScoreAccepted(100.0) && MaxScoreAccepted(1.0) && CoefficientAcceptedAsWritten(1.0)
  {
    assert Recomputed(r).weightedScore == Some(10000.0);
    assert Pow10(4) == 10000 && Pow10(3) == 1000 && Pow10(1) == 10;
  }

  // ---------------------------------------------------------------------
  // Field validators (model validators and DecimalField digit limits)
  // ---------------------------------------------------------------------

  /** `score`: 0..100, DecimalField(max_digits=5, decimal_places=2). */
  predicate ScoreAccepted(s: real) {
    0.0 <= s <= 100.0 && TwoPlaces(s) && FitsDigits(s, 5, 2)
  }

  /** `max_score`: no range validator, DecimalField(max_digits=5, decimal_places=2). */
  predicate MaxScoreAccepted(m: real) {
    TwoPlaces(m) && FitsDigits(m, 5, 2)
  }

  /** `coefficient` as the code declares it: 0.1..10 but
      DecimalField(max_digits=3, decimal_places=2), which leaves one digit
      before the point. */
  predicate CoefficientAcceptedAsWritten(c: real) {
    0.1 <= c <= 10.0 && TwoPlaces(c) && FitsDigits(c, 3, 2)
  }

  /** The declared upper bound 10 can never be stored. */
  lemma CoefficientTenRejected()
    ensures !CoefficientAcceptedAsWritten(10.0)
    ensures CoefficientAcceptedAsWritten(9.99)
  {
    assert Pow10(1) == 10;
    assert (9.99 * 100.0).Floor == 999;
  }

  /** `coefficient` with room for the declared maximum (max_digits=4). */
  predicate CoefficientAccepted(c: real) {
    0.1 <= c <= 10.0 && TwoPlaces(c) && FitsDigits(c, 4, 2)
  }

  /** With four digits the accepted coefficients are exactly the two-place
      values of the validators' range [0.1, 10]. */
  lemma CoefficientAcceptedIsRange(c: real)
    ensures CoefficientAccepted(c) <==> 0.1 <= c <= 10.0 && TwoPlaces(c)
  {
    assert Pow10(2) == 100;
  }

  /** A row whose columns passed their validators, and whose score does not
      exceed its positive maximum, saves without overflow as soon as it has
      a filiere: the weighted score stays within 100 times a coefficient
      below 10. */
  lemma ValidatedRowSaves(r: NoteRow)
    requires r.score.Some? && r.coefficient.Some? && r.filiere.Some?
    requires ScoreAccepted(r.score.value) && MaxScoreAccepted(r.maxScore) &&
             CoefficientAcceptedAsWritten(r.coefficient.value)
    requires 0.0 < r.maxScore && r.score.value <= r.maxScore
    ensures !SaveFails(r)
  {
    var s, m, c := r.score.value, r.maxScore, r.coefficient.value;
    TwoPlacesFitColumn(s, 5);
    TwoPlacesFitColumn(m, 5);
    TwoPlacesFitColumn(c, 3);
    WeightedScoreBounds(s, m, c);
    assert Pow10(1) == 10 && Pow10(4) == 10000;
    assert c < 10.0;
    assert WeightedScore(s, m, c) <= 1000.0;
  }

  // ---------------------------------------------------------------------
  // Permissions
  // ---------------------------------------------------------------------

  /** `ProfessorNote.can_edit`. */
  function CanEdit(note: NoteRow, user: User): (r: bool)
    ensures r <==> user.role == "direction" || user.isSuperuser ||
                   (note.status != Approved && note.professor == user.id)
  {
    if note.status == Approved then user.role == "direction" || user.isSuperuser
    else note.professor == user.id || user.role == "direction" || user.isSuperuser
  }

  /** `ProfessorNote.can_delete`. */
  function CanDelete(note: NoteRow, user: User): (r: bool)
    ensures note.status == Approved ==> !r
    ensures note.status != Approved ==>
      (r <==> note.professor == user.id || user.role == "direction" || user.isSuperuser)
  {
    if note.status == Approved then false
    else note.professor == user.id || user.role == "direction" || user.isSuperuser
  }

  /** Whoever may delete a note may also edit it; on an approved note the
      author may do neither unless they are direction or superuser. */
  lemma DeleteImpliesEdit(note: NoteRow, user: User)
    ensures CanDelete(note, user) ==> CanEdit(note, user)
    ensures note.status == Approved && user.role != "direction" && !user.isSuperuser ==>
      !CanEdit(note, user) && !CanDelete(note, user)
  {
  }

  // ---------------------------------------------------------------------
  // The pre-save hook (notes/signals.py)
  // ---------------------------------------------------------------------

  function Lookup(rows: map<nat, NoteRow>, pk: nat): Option<NoteRow> {
    if pk in rows then Some(rows[pk]) else None
  }

  /** The entries `track_note_changes` writes before `incoming` is saved
      under `pk`: none for an unsaved note (pk 0), none when the stored row
      is missing, none unless score or status differ. */
  function HookEntries(pk: nat, rows: map<nat, NoteRow>, incoming: NoteRow,
                       changedBy: Option<UserId>, now: int): (es: seq<HistoryEntry>)
    ensures |es| <= 1
    ensures |es| == 1 <==>
      pk != 0 && pk in rows && (rows[pk].score != incoming.score || rows[pk].status != incoming.status)
    ensures |es| == 1 ==>
      es[0].note == pk && es[0].action == "updated" && es[0].changedBy == changedBy &&
      es[0].oldValues == map["score" := ScoreValue(rows[pk].score), "status" := StatusValue(rows[pk].status)] &&
      es[0].newValues == map["score" := ScoreValue(incoming.score), "status" := StatusValue(incoming.status)]
  {
    if pk == 0 then []
    else match Lookup(rows, pk)
      case None => []
      case Some(stored) =>
        if stored.score != incoming.score || stored.status != incoming.status then
          [HistoryEntry(pk, "updated", changedBy, now,
                        map["score" := ScoreValue(stored.score), "status" := StatusValue(stored.status)],
                        map["score" := ScoreValue(incoming.score), "status" := StatusValue(incoming.status)],
                        ScoreChanged(stored.score, incoming.score))]
        else []
  }

  /** A change confined to the comment, the deletion flag or any other column
      leaves no trace through the hook. */
  lemma HookIgnoresOtherColumns(pk: nat, rows: map<nat, NoteRow>, incoming: NoteRow,
                                changedBy: Option<UserId>, now: int)
    requires pk in rows && rows[pk].score == incoming.score && rows[pk].status == incoming.status
    ensures HookEntries(pk, rows, incoming, changedBy, now) == []
  {
  }

  /** The reviewer's fields set on a row: the new status, the notes, who
      reviewed it and when (`approve`, `reject`, and the approval view). */
  function Reviewed(r: NoteRow, status: NoteStatus, notes: string, reviewer: UserId, now: int): NoteRow {
    r.(status := status, approvalNotes := notes, approvedBy := Some(reviewer), approvedAt := Some(now))
  }

  // ---------------------------------------------------------------------
  // The table and its audit trail
  // ---------------------------------------------------------------------

  /** The notes left once programme `f` is deleted (the foreign key
      cascades). */
  function NotesWithout(rows: map<nat, NoteRow>, f: nat): map<nat, NoteRow> {
    map k | k in rows && rows[k].filiere != Some(f) :: rows[k]
  }

  /** The cascade spares no note of the deleted programme, approved ones
      included (which `delete` itself would only flag), and leaves every
      other note as it was. */
  lemma NotesWithoutKeepsOthers(rows: map<nat, NoteRow>, f: nat)
    ensures forall k :: k in NotesWithout(rows, f) <==> k in rows && rows[k].filiere != Some(f)
    ensures forall k :: k in NotesWithout(rows, f) ==> NotesWithout(rows, f)[k] == rows[k]
  {
  }

  /** The history entries whose note is among `rows`. */
  function EntriesOf(history: seq<HistoryEntry>, rows: map<nat, NoteRow>): (r: seq<HistoryEntry>)
    ensures forall e :: e in r <==> e in history && e.note in rows
  {
    Filter(history, (e: HistoryEntry) => e.note in rows)
  }

  /** The ProfessorNote and NoteHistory tables of one schema. */
  class NoteDb {
    var rows: map<nat, NoteRow>
    var history: seq<HistoryEntry>
    var nextPk: nat

    /** Primary keys are allocated from 1; every history entry points at an
        existing note (the foreign key cascades on delete); and only four
        action strings are ever written. */
    ghost predicate Valid()
      reads this
    {
      1 <= nextPk &&
      (forall k :: k in rows ==> 1 <= k < nextPk) &&
      (forall e :: e in history ==> e.note in rows && e.action in WrittenActions)
    }

    constructor ()
      ensures Valid() && rows == map[] && history == []
    {
      rows := map[];
      history := [];
      nextPk := 1;
    }

    /** `NoteHistory.objects.create(...)` for an existing note. */
    method Append(e: HistoryEntry)
      requires Valid() && e.note in rows && e.action in WrittenActions
      modifies this`history
      ensures Valid() && history == old(history) + [e]
    {
      history := history + [e];
    }

    /** The cascade the database applies when programme `f` is deleted: its
        notes go, and with them their history entries. */
    method DeleteFiliereNotes(f: nat)
      requires Valid()
      modifies this`rows, this`history
      ensures Valid()
      ensures rows == NotesWithout(old(rows), f)
      ensures history == EntriesOf(old(history), rows)
    {
      var kept := NotesWithout(rows, f);
      history := EntriesOf(history, kept);
      rows := kept;
    }

    /** Writing a row: an update under its own key, or an insert under the
        next key when `pk` is 0. */
    method Store(pk: nat, row: NoteRow) returns (key: nat)
      requires Valid()
      modifies this`rows, this`nextPk
      ensures Valid()
      ensures pk != 0 ==> key == pk
      ensures pk == 0 ==> key == old(nextPk) && key !in old(rows) && nextPk == old(nextPk) + 1
      ensures rows == old(rows)[key := row]
    {
      key := pk;
      if pk == 0 {
        key := nextPk;
        nextPk := nextPk + 1;
      } else if pk >= nextPk {
        nextPk := pk + 1;
      }
      rows := rows[key := row];
    }
  }

  /** `track_note_changes`: appends the hook's entries, touches nothing else. */
  method TrackNoteChanges(db: NoteDb, pk: nat, incoming: NoteRow, changedBy: Option<UserId>, now: int)
    requires db.Valid()
    modifies db`history
    ensures db.Valid()
    ensures db.history == old(db.history) + HookEntries(pk, db.rows, incoming, changedBy, now)
  {
    var es := HookEntries(pk, db.rows, incoming, changedBy, now);
    if |es| == 1 {
      db.Append(es[0]);
    }
  }

  // ---------------------------------------------------------------------
  // The in-memory ProfessorNote instance
  // ---------------------------------------------------------------------

  /** The fields of the ProfessorNote form (student, subject, note type and
      the private note are not read by any rule). `otherFieldsValid` stands
      for the form's checks on the fields not modelled. */
  datatype NoteForm = NoteForm(
    score: real,
    maxScore: real,
    coefficient: real,
    comment: string,
    otherFieldsValid: bool)

  predicate FormValid(f: NoteForm) {
    f.otherFieldsValid && ScoreAccepted(f.score) && MaxScoreAccepted(f.maxScore) &&
    CoefficientAcceptedAsWritten(f.coefficient)
  }

  /** An unsaved note holding the form's values and the field defaults. */
  function FromForm(tenant: TenantId, professor: UserId, filiere: Option<nat>, form: NoteForm): NoteRow {
    NoteRow(tenant, professor, filiere, Some(form.score), form.maxScore, Some(form.coefficient),
            None, form.comment, Draft, false, None, None, "", false, None, 0)
  }

  class ProfessorNote {
    /** 0 until the first save: Python's falsy `pk`. */
    var pk: nat
    var tenant: TenantId
    var professor: UserId
    var filiere: Option<nat>
    var score: Option<real>
    var maxScore: real
    var coefficient: Option<real>
    var weightedScore: Option<real>
    var comment: string
    var status: NoteStatus
    var submittedForApproval: bool
    var approvedBy: Option<UserId>
    var approvedAt: Option<int>
    var approvalNotes: string
    var isDeleted: bool
    var deletedAt: Option<int>
    var createdAt: int
    /** The optional `_changed_by` attribute the hook reads. */
    var changedBy: Option<UserId>

    function Row(): NoteRow
      reads this
    {
      NoteRow(tenant, professor, filiere, score, maxScore, coefficient, weightedScore, comment, status,
              submittedForApproval, approvedBy, approvedAt, approvalNotes, isDeleted, deletedAt, createdAt)
    }

    /** A new note built from a valid form, with the field defaults: the
        form has no filiere field, so none is set. */
    constructor (tenant: TenantId, professor: UserId, form: NoteForm)
      ensures pk == 0 && changedBy == None
      ensures Row() == FromForm(tenant, professor, None, form)
    {
      pk := 0;
      this.tenant := tenant;
      this.professor := professor;
      filiere := None;
      score := Some(form.score);
      maxScore := form.maxScore;
      coefficient := Some(form.coefficient);
      weightedScore := None;
      comment := form.comment;
      status := Draft;
      submittedForApproval := false;
      approvedBy := None;
      approvedAt := None;
      approvalNotes := "";
      isDeleted := false;
      deletedAt := None;
      createdAt := 0;
      changedBy := None;
    }

    /** An instance loaded from the table (`get_object_or_404`). */
    constructor FromRow(pk: nat, row: NoteRow)
      ensures this.pk == pk && Row() == row && changedBy == None
    {
      this.pk := pk;
      tenant := row.tenant;
      professor := row.professor;
      filiere := row.filiere;
      score := row.score;
      maxScore := row.maxScore;
      coefficient := row.coefficient;
      weightedScore := row.weightedScore;
      comment := row.comment;
      status := row.status;
      submittedForApproval := row.submittedForApproval;
      approvedBy := row.approvedBy;
      approvedAt := row.approvedAt;
      approvalNotes := row.approvalNotes;
      isDeleted := row.isDeleted;
      deletedAt := row.deletedAt;
      createdAt := row.createdAt;
      changedBy := None;
    }

    /** `save`: recompute the weighted score, run the pre-save hook, then
        update the row or insert it under a fresh key. `ok` is false when the
        save raises (see SaveFails); the tables then keep nothing, although
        the fields filled in before the write stay set on the instance. */
    method Save(db: NoteDb, now: int) returns (ok: bool)
      requires db.Valid()
      modifies this, db
      ensures db.Valid()
      ensures ok == !SaveFails(old(Row()))
      ensures Row() == AfterSave(old(Row()), old(pk), now) && changedBy == old(changedBy)
      ensures !ok ==> unchanged(db) && pk == old(pk)
      ensures ok && old(pk) != 0 ==> pk == old(pk)
      ensures ok && old(pk) == 0 ==> pk == old(db.nextPk) && pk !in old(db.rows) && db.nextPk == old(db.nextPk) + 1
      ensures ok ==> db.rows == old(db.rows)[pk := Row()]
      ensures ok ==> db.history == old(db.history) + HookEntries(old(pk), old(db.rows), Row(), changedBy, now)
    {
      if SaveDividesByZero(score, maxScore, coefficient) {
        return false;
      }
      var fails := SaveFails(Row());
      Prepare(now);
      if fails {
        return false;
      }
      ok := true;
      TrackNoteChanges(db, pk, Row(), changedBy, now);
      pk := db.Store(pk, Row());
    }

    /** The fields `save` fills in before writing: the weighted score, and
        the creation time of a new note. */
    method Prepare(now: int)
      requires !SaveDividesByZero(score, maxScore, coefficient)
      modifies this`weightedScore, this`createdAt
      ensures Row() == Saved(old(Row()), pk, now)
    {
      if score.Some? && coefficient.Some? {
        weightedScore := Some(WeightedScore(score.value, maxScore, coefficient.value));
      }
      if pk == 0 {
        createdAt := now;
      }
    }

    /** `delete`: an approved note is only flagged (and saved); any other
        note's row is removed together with its history entries, which the
        foreign key cascades to. Deleting an unsaved note raises. */
    method Delete(db: NoteDb, now: int) returns (ok: bool)
      requires db.Valid()
      modifies this, db
      ensures db.Valid()
      ensures old(status) == Approved ==>
        var flagged := old(Row()).(isDeleted := true, deletedAt := Some(now));
        ok == !SaveFails(flagged) && Row() == AfterSave(flagged, old(pk), now)
      ensures old(status) == Approved && ok && old(pk) != 0 ==> pk == old(pk)
      ensures old(status) == Approved && ok && old(pk) == 0 ==>
        pk == old(db.nextPk) && pk !in old(db.rows) && db.nextPk == old(db.nextPk) + 1
      ensures old(status) == Approved && ok ==>
        db.rows == old(db.rows)[pk := Row()] &&
        db.history == old(db.history) + HookEntries(old(pk), old(db.rows), Row(), changedBy, now)
      ensures old(status) != Approved ==> ok == (old(pk) != 0) && Row() == old(Row())
      ensures old(status) != Approved && ok ==>
        pk == 0 && old(pk) !in db.rows && db.rows == old(db.rows) - {old(pk)} &&
        db.history == Filter(old(db.history), (e: HistoryEntry) => e.note != old(pk))
      ensures !ok ==> unchanged(db) && pk == old(pk)
    {
      if status == Approved {
        isDeleted := true;
        deletedAt := Some(now);
        ok := Save(db, now);
      } else if pk == 0 {
        ok := false;
      } else {
        var gone := pk;
        db.history := Filter(db.history, (e: HistoryEntry) => e.note != gone);
        db.rows := db.rows - {gone};
        pk := 0;
        ok := true;
      }
    }

    /** `submit_for_approval`: only a draft moves to pending. */
    method SubmitForApproval(db: NoteDb, now: int) returns (submitted: bool, ok: bool)
      requires db.Valid()
      modifies this, db
      ensures db.Valid()
      ensures old(status) != Draft ==> !submitted && ok && unchanged(this) && unchanged(db)
      ensures old(status) == Draft ==>
        var pending := old(Row()).(status := Pending, submittedForApproval := true);
        submitted == ok && ok == !SaveFails(pending) && Row() == AfterSave(pending, old(pk), now)
      ensures !ok ==> unchanged(db) && pk == old(pk)
      ensures submitted && old(pk) != 0 ==> pk == old(pk)
      ensures submitted && old(pk) == 0 ==>
        pk == old(db.nextPk) && pk !in old(db.rows) && db.nextPk == old(db.nextPk) + 1
      ensures submitted ==>
        db.rows == old(db.rows)[pk := Row()] &&
        db.history == old(db.history) + HookEntries(old(pk), old(db.rows), Row(), changedBy, now)
    {
      if status == Draft {
        status := Pending;
        submittedForApproval := true;
        ok := Save(db, now);
        submitted := ok;
      } else {
        submitted, ok := false, true;
      }
    }

    /** `approve` and `reject` set the status and the reviewer fields
        whatever the current status is. */
    method Decide(db: NoteDb, newStatus: NoteStatus, reviewer: UserId, notes: string, now: int) returns (ok: bool)
      requires db.Valid() && (newStatus == Approved || newStatus == Rejected)
      modifies this, db
      ensures db.Valid()
      ensures ok == !SaveFails(Reviewed(old(Row()), newStatus, notes, reviewer, now))
      ensures Row() == AfterSave(Reviewed(old(Row()), newStatus, notes, reviewer, now), old(pk), now)
      ensures !ok ==> unchanged(db) && pk == old(pk)
      ensures ok && old(pk) != 0 ==> pk == old(pk)
      ensures ok && old(pk) == 0 ==> pk == old(db.nextPk) && pk !in old(db.rows) && db.nextPk == old(db.nextPk) + 1
      ensures ok ==> db.rows == old(db.rows)[pk := Row()]
      ensures ok ==> db.history == old(db.history) + HookEntries(old(pk), old(db.rows), Row(), changedBy, now)
    {
      status := newStatus;
      approvedBy := Some(reviewer);
      approvedAt := Some(now);
      approvalNotes := notes;
      ok := Save(db, now);
    }

    /** `approve(approved_by, notes)`. */
    method Approve(db: NoteDb, reviewer: UserId, notes: string, now: int) returns (ok: bool)
      requires db.Valid()
      modifies this, db
      ensures db.Valid()
      ensures ok == !SaveFails(Reviewed(old(Row()), Approved, notes, reviewer, now))
      ensures Row() == AfterSave(Reviewed(old(Row()), Approved, notes, reviewer, now), old(pk), now)
      ensures !ok ==> unchanged(db) && pk == old(pk)
      ensures ok && old(pk) != 0 ==> pk == old(pk)
      ensures ok && old(pk) == 0 ==> pk == old(db.nextPk) && pk !in old(db.rows) && db.nextPk == old(db.nextPk) + 1
      ensures ok ==> db.rows == old(db.rows)[pk := Row()]
      ensures ok ==> db.history == old(db.history) + HookEntries(old(pk), old(db.rows), Row(), changedBy, now)
    {
      ok := Decide(db, Approved, reviewer, notes, now);
    }

    /** `reject(rejected_by, notes)`. */
    method Reject(db: NoteDb, reviewer: UserId, notes: string, now: int) returns (ok: bool)
      requires db.Valid()
      modifies this, db
      ensures db.Valid()
      ensures ok == !SaveFails(Reviewed(old(Row()), Rejected, notes, reviewer, now))
      ensures Row() == AfterSave(Reviewed(old(Row()), Rejected, notes, reviewer, now), old(pk), now)
      ensures !ok ==> unchanged(db) && pk == old(pk)
      ensures ok && old(pk) != 0 ==> pk == old(pk)
      ensures ok && old(pk) == 0 ==> pk == old(db.nextPk) && pk !in old(db.rows) && db.nextPk == old(db.nextPk) + 1
      ensures ok ==> db.rows == old(db.rows)[pk := Row()]
      ensures ok ==> db.history == old(db.history) + HookEntries(old(pk), old(db.rows), Row(), changedBy, now)
    {
      ok := Decide(db, Rejected, reviewer, notes, now);
    }

    /** `request_revision`: like reject, but `approved_at` is left alone. */
    method RequestRevision(db: NoteDb, reviewer: UserId, notes: string, now: int) returns (ok: bool)
      requires db.Valid()
      modifies this, db
      ensures db.Valid()
      ensures var revised := old(Row()).(status := RevisionRequested, approvedBy := Some(reviewer), approvalNotes := notes);
        ok == !SaveFails(revised) && Row() == AfterSave(revised, old(pk), now)
      ensures !ok ==> unchanged(db) && pk == old(pk)
      ensures ok && old(pk) != 0 ==> pk == old(pk)
      ensures ok && old(pk) == 0 ==> pk == old(db.nextPk) && pk !in old(db.rows) && db.nextPk == old(db.nextPk) + 1
      ensures ok ==> db.rows == old(db.rows)[pk := Row()]
      ensures ok ==> db.history == old(db.history) + HookEntries(old(pk), old(db.rows), Row(), changedBy, now)
    {
      status := RevisionRequested;
      approvedBy := Some(reviewer);
      approvalNotes := notes;
      ok := Save(db, now);
    }
  }
}
