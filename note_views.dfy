/** The note views (notes/views.py). Each view runs inside one transaction,
    so a view that raises leaves the tables as they were. The access
    decorators in front of the views are modelled in module Decorators. */
module NoteViews {
  import opened Common
  import opened Notes

  datatype Target = NoteListPage | NoteDetailPage(pk: nat) | PendingPage

  /** What a view answers: a page rendered (a GET, or a form with errors),
      a redirect, a 404, or a 500 when saving raised. */
  datatype Response = Render | Redirect(target: Target) | NotFound | ServerError

  /** The lookup of the professor's own views: own note, current school,
      not soft-deleted. */
  predicate OwnNote(rows: map<nat, NoteRow>, pk: nat, professor: UserId, tenant: TenantId) {
    pk in rows && rows[pk].professor == professor && rows[pk].tenant == tenant && !rows[pk].isDeleted
  }

  /** The lookup of the approval view: any professor's note of the school. */
  predicate SchoolNote(rows: map<nat, NoteRow>, pk: nat, tenant: TenantId) {
    pk in rows && rows[pk].tenant == tenant && !rows[pk].isDeleted
  }

  predicate Pending(rows: map<nat, NoteRow>, pk: nat, tenant: TenantId) {
    SchoolNote(rows, pk, tenant) && rows[pk].status == Notes.Pending
  }

  // ---------------------------------------------------------------------
  // Entries written by the views
  // ---------------------------------------------------------------------

  /** The row a create inserts for the programme `filiere`: a draft with the
      form's values, its weighted score computed, stamped with the creation
      time. */
  function CreatedRow(tenant: TenantId, professor: UserId, filiere: nat, form: NoteForm, now: int): NoteRow
    requires form.maxScore != 0.0
  {
    Saved(FromForm(tenant, professor, Some(filiere), form), 0, now)
  }

  lemma CreatedRowIsDraft(tenant: TenantId, professor: UserId, filiere: nat, form: NoteForm, now: int)
    requires form.maxScore != 0.0
    ensures var r := CreatedRow(tenant, professor, filiere, form, now);
      r.status == Draft && !r.isDeleted && !r.submittedForApproval && r.approvedBy.None? &&
      r.professor == professor && r.tenant == tenant && r.filiere == Some(filiere) && r.createdAt == now &&
      r.score == Some(form.score) && r.weightedScore.Some? &&
      r.weightedScore.value * form.maxScore == form.score * 100.0 * form.coefficient
  {
    RecomputedStatesWeightedScore(FromForm(tenant, professor, Some(filiere), form));
  }

  /** As written, `note_create` saves a note whose NOT NULL filiere was never
      set, whatever the form holds: the save raises every time. */
  lemma CreateWithoutFiliereFails(tenant: TenantId, professor: UserId, form: NoteForm)
    ensures SaveFails(FromForm(tenant, professor, None, form))
  {
  }

  /** With a filiere, a valid form whose score does not exceed its positive
      maximum is always inserted. */
  lemma CreateWithFiliereSaves(tenant: TenantId, professor: UserId, filiere: nat, form: NoteForm)
    requires FormValid(form) && 0.0 < form.maxScore && form.score <= form.maxScore
    ensures !SaveFails(FromForm(tenant, professor, Some(filiere), form))
  {
    ValidatedRowSaves(FromForm(tenant, professor, Some(filiere), form));
  }

  function CreatedEntry(pk: nat, professor: UserId, form: NoteForm, now: int): HistoryEntry {
    HistoryEntry(pk, "created", Some(professor), now, map[],
                 map["score" := ScoreValue(Some(form.score)), "comment" := TextValue(form.comment)], NoSummary)
  }

  /** The form's fields copied onto the stored row (ModelForm.save). */
  function WithForm(r: NoteRow, form: NoteForm): NoteRow {
    r.(score := Some(form.score), maxScore := form.maxScore, coefficient := Some(form.coefficient),
       comment := form.comment)
  }

  /** The entry `note_edit` adds itself when score or comment changed. */
  function ViewEditEntries(pk: nat, before: NoteRow, after: NoteRow, editor: UserId, now: int): seq<HistoryEntry> {
    if before.score != after.score || before.comment != after.comment then
      [HistoryEntry(pk, "updated", Some(editor), now,
                    map["score" := ScoreValue(before.score), "comment" := TextValue(before.comment)],
                    map["score" := ScoreValue(after.score), "comment" := TextValue(after.comment)],
                    ScoreChanged(before.score, after.score))]
    else []
  }

  /** Everything an edit appends: the hook's anonymous entry, then the view's
      own entry. */
  function EditEntries(pk: nat, before: NoteRow, after: NoteRow, editor: UserId, now: int): (es: seq<HistoryEntry>)
    requires pk != 0
    ensures |es| == (if before.score != after.score || before.status != after.status then 1 else 0)
                  + (if before.score != after.score || before.comment != after.comment then 1 else 0)
    ensures forall e :: e in es ==> e.note == pk && e.action == "updated"
  {
    HookEntries(pk, map[pk := before], after, None, now) + ViewEditEntries(pk, before, after, editor, now)
  }

  /** The hook only looks at the stored row under its own key. */
  lemma HookReadsOneRow(pk: nat, rows: map<nat, NoteRow>, incoming: NoteRow, now: int)
    requires pk in rows
    ensures HookEntries(pk, rows, incoming, None, now) == HookEntries(pk, map[pk := rows[pk]], incoming, None, now)
  {
    assert Lookup(rows, pk) == Lookup(map[pk := rows[pk]], pk);
  }

  /** A score change through the edit view is logged twice: once with no
      author by the hook, once by the editor. A comment-only change is logged
      once, an unchanged submission not at all. */
  lemma ScoreEditLoggedTwice(pk: nat, before: NoteRow, after: NoteRow, editor: UserId, now: int)
    requires pk != 0 && before.status == after.status
    ensures before.score != after.score ==>
      var es := EditEntries(pk, before, after, editor, now);
      |es| == 2 && es[0].changedBy == None && es[1].changedBy == Some(editor)
    ensures before.score == after.score && before.comment != after.comment ==>
      var es := EditEntries(pk, before, after, editor, now);
      |es| == 1 && es[0].changedBy == Some(editor)
    ensures before.score == after.score && before.comment == after.comment ==>
      EditEntries(pk, before, after, editor, now) == []
  {
    var hook := HookEntries(pk, map[pk := before], after, None, now);
    if before.score != after.score {
      assert |hook| == 1;
    } else {
      assert hook == [];
    }
  }

  function DeletedEntry(pk: nat, professor: UserId, now: int): HistoryEntry {
    HistoryEntry(pk, "deleted", Some(professor), now, map[], map[], MarkedDeleted)
  }

  function StatusEntry(pk: nat, reviewer: UserId, from: NoteStatus, to: NoteStatus, now: int): HistoryEntry {
    HistoryEntry(pk, "status_changed", Some(reviewer), now,
                 map["status" := StatusValue(from)], map["status" := StatusValue(to)], StatusChanged(from, to))
  }

  /** The reviewer's entry as `note_approve` writes it: `old_status` is read
      after the approval form has copied the submitted status onto the note,
      so both sides of the entry hold the new status. */
  function ReviewEntryAsWritten(pk: nat, reviewer: UserId, status: NoteStatus, now: int): HistoryEntry {
    StatusEntry(pk, reviewer, status, status, now)
  }

  /** The entry evidently intended: the stored status, then the new one. */
  function ReviewEntry(pk: nat, reviewer: UserId, stored: NoteRow, status: NoteStatus, now: int): HistoryEntry {
    StatusEntry(pk, reviewer, stored.status, status, now)
  }

  /** What a review appends before the view's own entry: the hook's anonymous
      entry when the status changes. */
  function ReviewHookEntries(pk: nat, rows: map<nat, NoteRow>, status: NoteStatus, notes: string,
                             reviewer: UserId, now: int): seq<HistoryEntry>
    requires pk in rows && !SaveDividesByZero(rows[pk].score, rows[pk].maxScore, rows[pk].coefficient)
  {
    HookEntries(pk, rows, Recomputed(Reviewed(rows[pk], status, notes, reviewer, now)), None, now)
  }

  /** As written, a review that changes the status is logged twice and the
      two entries disagree: the hook's records the stored status as the old
      one, the reviewer's records no change at all. */
  lemma ReviewLogAsWrittenDisagrees(pk: nat, rows: map<nat, NoteRow>, status: NoteStatus, notes: string,
                                    reviewer: UserId, now: int)
    requires pk != 0 && pk in rows && !SaveDividesByZero(rows[pk].score, rows[pk].maxScore, rows[pk].coefficient)
    requires status != rows[pk].status
    ensures var es := ReviewHookEntries(pk, rows, status, notes, reviewer, now) +
                      [ReviewEntryAsWritten(pk, reviewer, status, now)];
      |es| == 2 && es[0].changedBy == None && es[1].changedBy == Some(reviewer) &&
      es[0].oldValues["status"] == StatusValue(rows[pk].status) &&
      es[1].oldValues["status"] == StatusValue(status) &&
      es[1].oldValues == es[1].newValues
  {
    RecomputedStatesWeightedScore(Reviewed(rows[pk], status, notes, reviewer, now));
  }

  /** With the intended entry, a review that changes the status is logged
      twice (the hook's anonymous "updated" entry, then the reviewer's
      "status_changed") and both record the same transition; one that keeps
      the status is logged once. */
  lemma ReviewLoggedTwiceOnChange(pk: nat, rows: map<nat, NoteRow>, status: NoteStatus, notes: string,
                                  reviewer: UserId, now: int)
    requires pk != 0 && pk in rows && !SaveDividesByZero(rows[pk].score, rows[pk].maxScore, rows[pk].coefficient)
    ensures var es := ReviewHookEntries(pk, rows, status, notes, reviewer, now) +
                      [ReviewEntry(pk, reviewer, rows[pk], status, now)];
      |es| == (if status != rows[pk].status then 2 else 1) &&
      es[|es| - 1].changedBy == Some(reviewer) &&
      es[|es| - 1].oldValues["status"] == StatusValue(rows[pk].status) &&
      es[|es| - 1].newValues["status"] == StatusValue(status) &&
      (status != rows[pk].status ==>
         es[0].changedBy == None && es[0].action == "updated" &&
         es[0].oldValues["status"] == es[1].oldValues["status"] &&
         es[0].newValues["status"] == es[1].newValues["status"])
  {
    var after := Recomputed(Reviewed(rows[pk], status, notes, reviewer, now));
    RecomputedStatesWeightedScore(Reviewed(rows[pk], status, notes, reviewer, now));
    assert after.status == status && after.score == rows[pk].score;
  }

  // ---------------------------------------------------------------------
  // Views
  // ---------------------------------------------------------------------

  /** `note_list`: the professor's live notes of the school, newest first. */
  method NoteList(db: NoteDb, professor: UserId, tenant: TenantId) returns (notes: seq<nat>)
    ensures forall k :: k in notes <==> OwnNote(db.rows, k, professor, tenant)
    ensures NoDuplicates(notes)
    ensures forall i :: 0 <= i < |notes| ==> notes[i] in db.rows
    ensures forall i, j :: 0 <= i < j < |notes| ==> db.rows[notes[j]].createdAt <= db.rows[notes[i]].createdAt
  {
    var rows := db.rows;
    var keys := set k | k in rows && OwnNote(rows, k, professor, tenant);
    var newestFirst := (k: nat) => if k in rows then -rows[k].createdAt else 0;
    notes := SortedListOf(keys, newestFirst);
    forall i | 0 <= i < |notes| ensures notes[i] in rows && newestFirst(notes[i]) == -rows[notes[i]].createdAt {
      assert notes[i] in keys;
    }
  }

  /** `note_detail`: the note and its history, latest change first. */
  method NoteDetail(db: NoteDb, professor: UserId, tenant: TenantId, pk: nat)
    returns (note: Option<NoteRow>, history: seq<HistoryEntry>)
    ensures note.Some? <==> OwnNote(db.rows, pk, professor, tenant)
    ensures note.Some? ==> note.value == db.rows[pk]
    ensures note.Some? ==> multiset(history) == multiset(Filter(db.history, (e: HistoryEntry) => e.note == pk))
    ensures SortedByKey(history, (e: HistoryEntry) => -e.changedAt)
    ensures note.None? ==> history == []
  {
    if !OwnNote(db.rows, pk, professor, tenant) {
      return None, [];
    }
    note := Some(db.rows[pk]);
    history := SortByKey(Filter(db.history, (e: HistoryEntry) => e.note == pk), (e: HistoryEntry) => -e.changedAt);
  }

  /** `note_create` as written: the form carries no filiere and the view
      sets none, so every valid submission fails to save (a 500) and nothing
      is written. */
  method NoteCreate(db: NoteDb, professor: UserId, tenant: TenantId, isPost: bool, form: NoteForm, now: int)
    returns (resp: Response)
    requires db.Valid()
    modifies db
    ensures db.Valid()
    ensures !(isPost && FormValid(form)) ==> resp == Render
    ensures isPost && FormValid(form) ==> resp == ServerError
    ensures unchanged(db)
  {
    if !isPost || !FormValid(form) {
      return Render;
    }
    var note := new ProfessorNote(tenant, professor, form);
    resp := InsertNote(db, note, professor, form, now);
  }

  /** `note_create` with the programme chosen on the form, as evidently
      intended: a valid submission inserts a draft under a fresh key and logs
      its creation, unless the save raises. */
  method NoteCreateWithFiliere(db: NoteDb, professor: UserId, tenant: TenantId, filiere: nat,
                               isPost: bool, form: NoteForm, now: int)
    returns (resp: Response)
    requires db.Valid()
    modifies db
    ensures db.Valid()
    ensures !(isPost && FormValid(form)) ==> resp == Render && unchanged(db)
    ensures isPost && FormValid(form) && SaveFails(FromForm(tenant, professor, Some(filiere), form)) ==>
      resp == ServerError && unchanged(db)
    ensures isPost && FormValid(form) && !SaveFails(FromForm(tenant, professor, Some(filiere), form)) ==>
      resp == Redirect(NoteListPage) &&
      old(db.nextPk) !in old(db.rows) && db.nextPk == old(db.nextPk) + 1 &&
      db.rows == old(db.rows)[old(db.nextPk) := CreatedRow(tenant, professor, filiere, form, now)] &&
      db.history == old(db.history) + [CreatedEntry(old(db.nextPk), professor, form, now)]
  {
    if !isPost || !FormValid(form) {
      return Render;
    }
    var note := new ProfessorNote(tenant, professor, form);
    note.filiere := Some(filiere);
    resp := InsertNote(db, note, professor, form, now);
  }

  /** The shared tail of the create views: save the new note, then log its
      creation. */
  method InsertNote(db: NoteDb, note: ProfessorNote, professor: UserId, form: NoteForm, now: int)
    returns (resp: Response)
    requires db.Valid() && note.pk == 0
    requires note.Row() == FromForm(note.tenant, note.professor, note.filiere, form)
    modifies db, note
    ensures db.Valid()
    ensures SaveFails(old(note.Row())) ==> resp == ServerError && unchanged(db)
    ensures !SaveFails(old(note.Row())) ==>
      resp == Redirect(NoteListPage) &&
      old(db.nextPk) !in old(db.rows) && db.nextPk == old(db.nextPk) + 1 &&
      db.rows == old(db.rows)[old(db.nextPk) := Saved(old(note.Row()), 0, now)] &&
      db.history == old(db.history) + [CreatedEntry(old(db.nextPk), professor, form, now)]
  {
    var ok := note.Save(db, now);
    if !ok {
      return ServerError;
    }
    db.Append(CreatedEntry(note.pk, professor, form, now));
    resp := Redirect(NoteListPage);
  }

  /** `note_edit`: refused on approved notes; a valid form is saved and
      logged. */
  method NoteEdit(db: NoteDb, professor: UserId, tenant: TenantId, pk: nat, isPost: bool, form: NoteForm, now: int)
    returns (resp: Response)
    requires db.Valid()
    modifies db
    ensures db.Valid()
    ensures !OwnNote(old(db.rows), pk, professor, tenant) ==> resp == NotFound && unchanged(db)
    ensures OwnNote(old(db.rows), pk, professor, tenant) && old(db.rows)[pk].status == Approved ==>
      resp == Redirect(NoteDetailPage(pk)) && unchanged(db)
    ensures (OwnNote(old(db.rows), pk, professor, tenant) && old(db.rows)[pk].status != Approved &&
             !(isPost && FormValid(form))) ==> resp == Render && unchanged(db)
    ensures (OwnNote(old(db.rows), pk, professor, tenant) && old(db.rows)[pk].status != Approved &&
             isPost && FormValid(form) && SaveFails(WithForm(old(db.rows)[pk], form))) ==>
      resp == ServerError && unchanged(db)
    ensures (OwnNote(old(db.rows), pk, professor, tenant) && old(db.rows)[pk].status != Approved &&
             isPost && FormValid(form) && !SaveFails(WithForm(old(db.rows)[pk], form))) ==>
      resp == Redirect(NoteDetailPage(pk)) &&
      db.rows == old(db.rows)[pk := Recomputed(WithForm(old(db.rows)[pk], form))] &&
      db.history == old(db.history) + EditEntries(pk, old(db.rows)[pk], db.rows[pk], professor, now)
  {
    if !OwnNote(db.rows, pk, professor, tenant) {
      return NotFound;
    }
    if db.rows[pk].status == Approved {
      return Redirect(NoteDetailPage(pk));
    }
    if !isPost || !FormValid(form) {
      return Render;
    }
    resp := ApplyEdit(db, professor, pk, form, now);
  }

  /** The valid-POST branch of `note_edit`. */
  method ApplyEdit(db: NoteDb, professor: UserId, pk: nat, form: NoteForm, now: int) returns (resp: Response)
    requires db.Valid() && pk in db.rows
    modifies db
    ensures db.Valid()
    ensures SaveFails(WithForm(old(db.rows)[pk], form)) ==> resp == ServerError && unchanged(db)
    ensures !SaveFails(WithForm(old(db.rows)[pk], form)) ==>
      resp == Redirect(NoteDetailPage(pk)) &&
      db.rows == old(db.rows)[pk := Recomputed(WithForm(old(db.rows)[pk], form))] &&
      db.history == old(db.history) + EditEntries(pk, old(db.rows)[pk], db.rows[pk], professor, now)
  {
    var note := new ProfessorNote.FromRow(pk, db.rows[pk]);
    var before := note.Row();
    note.score := Some(form.score);
    note.maxScore := form.maxScore;
    note.coefficient := Some(form.coefficient);
    note.comment := form.comment;
    assert note.Row() == WithForm(before, form);
    HookReadsOneRow(pk, db.rows, note.Row(), now);
    var ok := note.Save(db, now);
    if !ok {
      return ServerError;
    }
    var es := ViewEditEntries(pk, before, note.Row(), professor, now);
    if |es| == 1 {
      db.Append(es[0]);
    }
    resp := Redirect(NoteDetailPage(pk));
  }

  /** `note_delete`: refused on approved notes; otherwise the note is only
      flagged (the model's hard `delete` is not called), so the row and its
      history stay, and a "deleted" entry is added. */
  method NoteDelete(db: NoteDb, professor: UserId, tenant: TenantId, pk: nat, isPost: bool, now: int)
    returns (resp: Response)
    requires db.Valid()
    modifies db
    ensures db.Valid()
    ensures !OwnNote(old(db.rows), pk, professor, tenant) ==> resp == NotFound && unchanged(db)
    ensures OwnNote(old(db.rows), pk, professor, tenant) && old(db.rows)[pk].status == Approved ==>
      resp == Redirect(NoteDetailPage(pk)) && unchanged(db)
    ensures OwnNote(old(db.rows), pk, professor, tenant) && old(db.rows)[pk].status != Approved && !isPost ==>
      resp == Render && unchanged(db)
    ensures OwnNote(old(db.rows), pk, professor, tenant) && old(db.rows)[pk].status != Approved && isPost ==>
      var r := old(db.rows)[pk];
      if SaveFails(r.(isDeleted := true)) then resp == ServerError && unchanged(db)
      else
        resp == Redirect(NoteListPage) &&
        db.rows == old(db.rows)[pk := Recomputed(r.(isDeleted := true))] &&
        db.history == old(db.history) + [DeletedEntry(pk, professor, now)] &&
        !OwnNote(db.rows, pk, professor, tenant)
  {
    if !OwnNote(db.rows, pk, professor, tenant) {
      return NotFound;
    }
    var note := new ProfessorNote.FromRow(pk, db.rows[pk]);
    if note.status == Approved {
      return Redirect(NoteDetailPage(pk));
    }
    if !isPost {
      return Render;
    }
    note.isDeleted := true;
    var ok := note.Save(db, now);
    if !ok {
      return ServerError;
    }
    db.Append(DeletedEntry(pk, professor, now));
    resp := Redirect(NoteListPage);
  }

  /** `notes_pending_approval`: the school's pending live notes, oldest first. */
  method NotesPendingApproval(db: NoteDb, tenant: TenantId) returns (notes: seq<nat>)
    ensures forall k :: k in notes <==> Pending(db.rows, k, tenant)
    ensures NoDuplicates(notes)
    ensures forall i :: 0 <= i < |notes| ==> notes[i] in db.rows
    ensures forall i, j :: 0 <= i < j < |notes| ==> db.rows[notes[i]].createdAt <= db.rows[notes[j]].createdAt
  {
    var rows := db.rows;
    var keys := set k | k in rows && Pending(rows, k, tenant);
    var oldestFirst := (k: nat) => if k in rows then rows[k].createdAt else 0;
    notes := SortedListOf(keys, oldestFirst);
    forall i | 0 <= i < |notes| ensures notes[i] in rows && oldestFirst(notes[i]) == rows[notes[i]].createdAt {
      assert notes[i] in keys;
    }
  }

  /** `note_approve`: the approval form accepts any of the five statuses
      (the widget's three choices do not restrict the field) and any note of
      the school, whatever its current status. The reviewer's entry records
      the submitted status on both sides (see ReviewEntryAsWritten). */
  method NoteApprove(db: NoteDb, reviewer: UserId, tenant: TenantId, pk: nat, isPost: bool,
                     status: NoteStatus, notes: string, now: int)
    returns (resp: Response)
    requires db.Valid()
    modifies db
    ensures db.Valid()
    ensures !SchoolNote(old(db.rows), pk, tenant) ==> resp == NotFound && unchanged(db)
    ensures SchoolNote(old(db.rows), pk, tenant) && !isPost ==> resp == Render && unchanged(db)
    ensures SchoolNote(old(db.rows), pk, tenant) && isPost ==>
      var r := old(db.rows)[pk];
      if SaveFails(Reviewed(r, status, notes, reviewer, now)) then resp == ServerError && unchanged(db)
      else
        resp == Redirect(PendingPage) &&
        db.rows == old(db.rows)[pk := Recomputed(Reviewed(r, status, notes, reviewer, now))] &&
        db.history == old(db.history) + HookEntries(pk, old(db.rows), db.rows[pk], None, now)
                      + [ReviewEntryAsWritten(pk, reviewer, status, now)]
  {
    if !SchoolNote(db.rows, pk, tenant) {
      return NotFound;
    }
    if !isPost {
      return Render;
    }
    resp := ApplyReview(db, reviewer, pk, status, notes, now);
  }

  /** The POST branch of `note_approve`: the form's fields are copied onto
      the note before `old_status` is read. */
  method ApplyReview(db: NoteDb, reviewer: UserId, pk: nat, status: NoteStatus, notes: string, now: int)
    returns (resp: Response)
    requires db.Valid() && pk in db.rows
    modifies db
    ensures db.Valid()
    ensures var r := old(db.rows)[pk];
      if SaveFails(Reviewed(r, status, notes, reviewer, now)) then resp == ServerError && unchanged(db)
      else
        resp == Redirect(PendingPage) &&
        db.rows == old(db.rows)[pk := Recomputed(Reviewed(r, status, notes, reviewer, now))] &&
        db.history == old(db.history) + HookEntries(pk, old(db.rows), db.rows[pk], None, now)
                      + [ReviewEntryAsWritten(pk, reviewer, status, now)]
  {
    var note := new ProfessorNote.FromRow(pk, db.rows[pk]);
    note.status := status;
    note.approvalNotes := notes;
    var oldStatus := note.status;
    note.approvedBy := Some(reviewer);
    note.approvedAt := Some(now);
    var ok := note.Save(db, now);
    if !ok {
      return ServerError;
    }
    db.Append(StatusEntry(pk, reviewer, oldStatus, status, now));
    resp := Redirect(PendingPage);
  }
}
