# School management rules in Dafny

This project models the business rules of a multi-tenant Django school
management system and proves properties about them. Each school is a tenant
with its own schema. The model covers:

- **Professor notes** (`notes`): the weighted score computed on save, the
  draft → pending → approved / rejected / revision-requested workflow, soft
  and hard deletion, the permission predicates, and the audit trail. Entries
  come from the views and from the pre-save hook.
- **Enrollment** (`enrollment`):
  - the registration application and its four-step public wizard, gated by
    the session;
  - the form validators and the direction's review;
  - the admin's `save_model` and its bulk actions;
  - the background jobs: status mail, reminders, clean-up, report and
    auto-approval.
- **Programmes** (`filieres`): capacity, teaching hours, code normalisation
  and uniqueness, the list filters, the grouping of subjects by (year,
  semester), and the delete guard.
- **Library** (`library`): the available-copy counter on borrowing and
  returning, `is_overdue`, and the overdue sweep.
- **Events** (`events`): which events each role sees, and the reminder job.
- **Access control** (`accounts`):
  - role resolution and the role, school, rate and 2FA decorators;
  - the role, 2FA, audit, authentication and alternative-2FA middleware;
  - the template context processors.
- **Shared models** (`core`): the school's subscription and unique columns,
  and the news manager's exactly-one lookup and case-insensitive search.

How the model represents the system:

- **Tables** are maps from primary key to row value, held by a small class
  (`NoteDb`, `EnrollmentDb`, `FiliereDb`, `LibraryDb`, `EventDb`,
  `SchoolDb`). Its methods update the maps in place.
- **Keys**: primary keys are allocated from 1, and key 0 stands for
  Python's falsy, unsaved `pk`.
- **Instances**: a `ProfessorNote` instance, the HTTP request and the
  session are classes whose fields the code assigns.
- **Clock**: the current time is a parameter. Times are seconds, dates are
  day numbers, and the age check uses (year, month, day).
- **Decimals**: Decimal columns are exact `real`s.
- **Outcomes**: a view's outcome is a small datatype (render, redirect,
  not found, server error).
- **Transactions**: each request is one atomic step, so a view that raises
  changes nothing.

## Model

| member | source | states |
|---|---|---|
| Notes.RecomputedStatesWeightedScore | notes/models.py:212-217 | with score and coefficient present, the saved weighted score times max_score equals score × 100 × coefficient; without either, the row is left as it was; no other column changes |
| Notes.WeightedScoreBounds | notes/models.py:212-217 | for 0 ≤ score ≤ max_score, the weighted score lies in [0, 100 × coefficient] |
| Notes.WeightedScoreMonotone | notes/models.py:212-217 | a higher raw score never gives a lower weighted score |
| Notes.ScoreFromWeightedScore | notes/models.py:212-217 | no rounding is applied: the raw score is recovered exactly from the weighted score |
| Notes.WeightedScoreOverflows | notes/models.py:92-122 | 100 out of a maximum of 1 passes every field validator but weighs 10000, which numeric(6,2) cannot hold, so the save raises |
| Notes.ValidatedRowSaves | notes/models.py:92-122 | a row whose score, max_score and coefficient pass their validators, with 0 < max_score and score ≤ max_score and a filiere, saves without raising |
| Common.TwoPlacesFitColumn | notes/models.py:92-122 | a two-place value that passes Django's digit check is stored by its numeric column without overflow |
| Notes.CoefficientTenRejected | notes/models.py:107-113 | the declared maximum 10.00 does not fit DecimalField(max_digits=3, decimal_places=2), while 9.99 does |
| Notes.CoefficientAcceptedIsRange | notes/models.py:107-113 | with room for four digits, the accepted coefficients are exactly the two-place values in [0.1, 10] |
| Notes.CanEdit | notes/models.py:232-237 | edit is allowed iff direction, superuser, or the author of a note that is not approved |
| Notes.CanDelete | notes/models.py:239-243 | an approved note can be deleted by nobody; any other note by its author, direction or a superuser |
| Notes.DeleteImpliesEdit | notes/models.py:232-243 | whoever may delete may edit; on an approved note, only direction and superusers may edit, and nobody may delete |
| Notes.UndeclaredActionsWritten | notes/models.py:289-300 | the declared action choices omit two actions the code writes (`deleted`, `status_changed`), and only `created` and `updated` are both declared and written |
| Notes.HookEntries | notes/signals.py:9-30 | at most one entry; exactly one iff the note is saved (pk set), stored, and its score or status changes; the entry is `updated`, its actor is `_changed_by`, and it carries the old and new score and status |
| Notes.HookIgnoresOtherColumns | notes/signals.py:17 | a change confined to the comment, the deletion flag or any other column is not logged |
| Notes.NoteDb.Append | notes/models.py:278-301 | a history entry is only ever appended, and only for a stored note |
| Notes.NoteDb.Store | notes/models.py:212-219 | an existing row is overwritten under its key; a new row gets a fresh key; nothing else changes |
| Notes.TrackNoteChanges | notes/signals.py:9-30 | the hook appends exactly its entries and never edits or removes existing ones |
| Notes.NotesWithoutKeepsOthers | notes/models.py:63-67 | deleting a programme removes every note of it, approved ones included, and leaves every other note as it was |
| Notes.EntriesOf | notes/models.py:278-301 | the history entries kept are exactly those whose note is kept |
| Notes.NoteDb.DeleteFiliereNotes | notes/models.py:63-67 | the CASCADE from a deleted programme: its notes go, with their history entries, and the table stays valid |
| Notes.ProfessorNote.constructor | notes/views.py:38-41 | a note built from the form starts unsaved, as a draft, not submitted, unreviewed, not deleted, and with no filiere (the form has no filiere field) |
| Notes.ProfessorNote.FromRow | notes/views.py:68-74 | an instance loaded from the table holds exactly the stored row and no `_changed_by` |
| Notes.ProfessorNote.Save | notes/models.py:212-219 | the save raises, writing nothing, iff score, coefficient or filiere is empty (NOT NULL), max_score is 0, or a decimal column overflows; otherwise the weighted score is recomputed, the hook runs against the stored row, and the whole row is updated or inserted under a fresh key; the instance holds the filled-in fields unless the division raised first |
| Notes.ProfessorNote.Prepare | notes/models.py:212-217 | the fields filled in before writing: the recomputed weighted score, and the creation time of a new note |
| Notes.ProfessorNote.Delete | notes/models.py:221-230 | an approved note becomes exactly the saved row with is_deleted and deleted_at set and stays approved, stored under the note's own key or a fresh one when it is new (nothing is written and the key is kept if that save raises); any other stored note is removed together with its history (CASCADE), the instance otherwise unchanged |
| Notes.ProfessorNote.SubmitForApproval | notes/models.py:245-252 | only a draft moves to pending: the whole row becomes the saved row with status pending and the flag set, written under the note's own key when it is stored and under a fresh key (overwriting no row) when it is new; a failed save keeps the key, and True is returned unless the save raises; from any other status nothing changes and False is returned |
| Notes.ProfessorNote.Decide | notes/models.py:254-268 | the whole row becomes the saved row with status, approved_by, approved_at and approval_notes replaced, whatever the prior status; every other column is kept, written under the note's own key when it is stored and under a fresh key (overwriting no row) when it is new; a failed save keeps the key; a save that raises writes nothing |
| Notes.ProfessorNote.Approve | notes/models.py:254-260 | the whole row becomes the saved row with status approved, reviewer, time and notes, from any prior status, written under the note's own key when it is stored and under a fresh key (overwriting no row) when it is new; a failed save keeps the key; nothing else changes |
| Notes.ProfessorNote.Reject | notes/models.py:262-268 | the whole row becomes the saved row with status rejected, reviewer, time and notes, from any prior status, written under the note's own key when it is stored and under a fresh key (overwriting no row) when it is new; a failed save keeps the key; nothing else changes |
| Notes.ProfessorNote.RequestRevision | notes/models.py:270-275 | the whole row becomes the saved row with status revision_requested, reviewer and notes; approved_at and every other column are kept, written under the note's own key when it is stored and under a fresh key (overwriting no row) when it is new; a failed save keeps the key |
| NoteViews.CreatedRowIsDraft | notes/views.py:39-42 | the row a create with a programme inserts is an undeleted draft of the requesting professor in the current school and that programme, with its weighted score computed |
| NoteViews.CreateWithoutFiliereFails | notes/views.py:37-42 | a note built from the form alone, with no filiere, can never be saved |
| NoteViews.CreateWithFiliereSaves | notes/views.py:37-42 | with a programme, a valid form whose score does not exceed its positive maximum is always saved |
| NoteViews.EditEntries | notes/views.py:104-121 | an edit logs one hook entry iff score or status changed, plus one view entry iff score or comment changed |
| NoteViews.HookReadsOneRow | notes/signals.py:14 | the hook reads only the stored row under the instance's own key |
| NoteViews.ScoreEditLoggedTwice | notes/views.py:104-121 | a score edit yields two `updated` entries (the hook's anonymous one, then the editor's); a comment-only edit yields one; an unchanged form yields none |
| NoteViews.ReviewLoggedTwiceOnChange | notes/views.py:207-223 | with the intended entry, a review that changes the status is logged twice (the hook's anonymous `updated` entry, then the reviewer's `status_changed`) and both record the same transition from the stored status; otherwise once |
| NoteViews.ReviewLogAsWrittenDisagrees | notes/views.py:207-223 | as written, a review that changes the status is logged twice and the entries disagree: the hook's holds the stored status as the old one, the reviewer's holds the new status on both sides |
| NoteViews.NoteList | notes/views.py:12-27 | exactly the requester's non-deleted notes of the current school, each once, newest first |
| NoteViews.NoteDetail | notes/views.py:63-82 | the note is found iff it is the requester's own live note in this school; its history is all of its entries, latest change first |
| NoteViews.NoteCreate | notes/views.py:30-60 | as written, a valid POST always ends in a server error (the NOT NULL filiere is never set) and nothing is written; anything else renders the form |
| NoteViews.NoteCreateWithFiliere | notes/views.py:30-60 | with the programme given, a valid POST inserts one draft under a fresh key and appends exactly one `created` entry with the new score and comment, unless the save raises; anything else changes nothing |
| NoteViews.InsertNote | notes/views.py:42-50 | the new note is saved and one `created` entry appended, or, when the save raises, nothing is written and the answer is a server error |
| NoteViews.NoteEdit | notes/views.py:85-132 | outside the requester's own live notes: not found; an approved note: redirect, with nothing changed or logged; a valid POST saves the form through the hook, or ends in a server error with nothing written when the save raises |
| NoteViews.ApplyEdit | notes/views.py:104-121 | the saved row is the form over the stored row, recomputed; the history gains the hook's and the view's entries; when the save raises, nothing changes |
| NoteViews.NoteDelete | notes/views.py:135-171 | an approved note is refused with a redirect; otherwise a POST never removes the row: it sets only is_deleted (deleted_at stays unset), appends one `deleted` entry, and the note leaves the professor's list; a save that raises writes nothing |
| NoteViews.NotesPendingApproval | notes/views.py:174-189 | exactly the school's non-deleted pending notes, each once, oldest first |
| NoteViews.NoteApprove | notes/views.py:192-238 | any live note of the school is reviewed whatever its status; the new status, reviewer and time are saved; as written, the `status_changed` entry holds the submitted status as both old and new, because `old_status` is read after the form copied it onto the note |
| NoteViews.ApplyReview | notes/views.py:204-223 | the saved row and the appended entries of a review: the hook's entry (if any), then the reviewer's entry with the submitted status on both sides; a save that raises writes nothing |
| Enrollment.StampedChangesOnlyReviewedAt | enrollment/models.py:137-143 | save changes only reviewed_at, and stamps it iff an existing row's status changes into approved or rejected |
| Enrollment.CanEnrollCases | enrollment/models.py:145-147 | can_enroll holds iff the status is approved and no user account is linked |
| Enrollment.RequiredFilled | enrollment/models.py:151-156 | one flag per required field, eleven in all |
| Enrollment.TrueCount | enrollment/models.py:157 | the count of filled fields is at most their number, and equals it iff all are filled |
| Enrollment.TrueCountMonotone | enrollment/models.py:157 | more fields filled never lowers the count |
| Enrollment.CompletionPercentage | enrollment/models.py:149-158 | the percentage lies in 0..100, and is 100 iff all eleven fields are filled |
| Enrollment.CompletionMonotone | enrollment/models.py:149-158 | filling in another field never lowers the percentage |
| Enrollment.MissingFiliereIncomplete | enrollment/models.py:149-158 | an application without a programme stays below 100 % |
| Enrollment.EnrollmentDb.Save | enrollment/models.py:137-143 | a new row is inserted under a fresh key with its submission time; an existing row is overwritten as stamped; a row without a school, or an unknown key, is refused and nothing changes; history and documents are untouched |
| Enrollment.EnrollmentDb.AppendHistory | enrollment/models.py:224-248 | a status-history row is appended for a stored application |
| EnrollmentForms.AgeIsBirthdaysReached | enrollment/forms.py:59-60 | the computed age (year difference, minus one before the birthday) is the number of birthdays already reached |
| EnrollmentForms.CleanDateOfBirth | enrollment/forms.py:55-65 | an empty value passes; an age below 5 or above 100 is refused; anything else is returned unchanged |
| EnrollmentForms.DateOfBirthAcceptedIffBirthdays | enrollment/forms.py:55-65 | a date is accepted iff the 5th birthday has been reached and the 101st has not |
| EnrollmentForms.CleanEmail | enrollment/forms.py:67-77 | the address is refused iff it is non-empty and used by an approved or enrolled application |
| EnrollmentForms.OpenApplicationsDoNotBlock | enrollment/forms.py:72-75 | adding or changing a pending, under-review or rejected application never changes the outcome |
| EnrollmentForms.CleanFile | enrollment/forms.py:192-198 | a file is refused iff it is larger than 10 × 1024 × 1024 bytes; no file passes |
| EnrollmentForms.FileLimitBoundary | enrollment/forms.py:196 | exactly 10 MiB is accepted and one byte more is not |
| EnrollmentForms.CleanReview | enrollment/forms.py:221-232 | a review fails iff it rejects with an empty reason |
| EnrollmentViews.Session.constructor | enrollment/views.py:60-63 | a new visitor's session holds no registration id, so the later steps send them back to step 1 |
| EnrollmentViews.NewRegistrationIsPending | enrollment/models.py:87-91 | the application step 1 creates is pending, unreviewed, cannot be enrolled and is incomplete |
| EnrollmentViews.RegisterStep1 | enrollment/views.py:31-55 | a valid POST inserts a pending application under the request's school and stores its new id in the session; without a school it fails with nothing written; an invalid or GET request changes nothing |
| EnrollmentViews.SaveStep | enrollment/views.py:69-71 | a wizard step overwrites only the application's own row |
| EnrollmentViews.RegisterStep2 | enrollment/views.py:59-84 | without an id in the session: redirect to step 1, nothing touched; an unknown id: not found; a valid POST saves the parent fields |
| EnrollmentViews.RegisterStep3 | enrollment/views.py:88-114 | the same gate; a valid POST saves the academic fields, and the programme must be one of the school's |
| EnrollmentViews.RegisterStep4 | enrollment/views.py:118-157 | the same gate; a POST saves the last fields and removes the id from the session |
| EnrollmentViews.EnrollmentReview | enrollment/views.py:289-332 | a valid review of a school's application is saved with reviewer and time, and appends exactly one history row, which as written holds the submitted status as both old and new status |
| EnrollmentViews.ReviewChangeAsWrittenShowsNoTransition | enrollment/views.py:299-312 | as written every review row has equal old and new statuses, and differs from the intended row whenever the review changed the status |
| EnrollmentViews.ReviewChangeRecordsTransition | enrollment/views.py:299-312 | the intended row records the stored and the saved status, which differ exactly when the review changed the status |
| EnrollmentViews.DateToCutsOffItsOwnDay | enrollment/views.py:232-233 | as written, an application sent at 10:00 on the chosen last day is dropped |
| EnrollmentViews.BeforeDateToIsWholeDay | enrollment/views.py:232-233 | the corrected bound keeps exactly the applications of days up to and including date_to |
| EnrollmentViews.DroppingAFilterWidens | enrollment/views.py:212-233 | the filters combine conjunctively: clearing any one keeps every row that matched |
| EnrollmentViews.StatsAddUp | enrollment/views.py:236-242 | pending + approved + rejected + enrolled + under_review = total |
| EnrollmentViews.StatusCountsPartition | enrollment/views.py:236-242 | the five status counts partition the listed rows |
| EnrollmentViews.EnrollmentList | enrollment/views.py:206-242 | exactly the school's applications matching every given filter (no filter for an invalid form; date_to compared with its midnight, as written), each once, newest first; the counted statuses sum to at most the total |
| EnrollmentViews.Narrow | enrollment/views.py:213-233 | one filter step keeps exactly the matching rows, without duplicates and in order |
| EnrollmentAdmin.AdminTenant | enrollment/admin.py:181-183 | a new object without a school gets the request's school; any other keeps its own |
| EnrollmentAdmin.AdminLogsStatusChanges | enrollment/admin.py:185-195 | an edit logs one old → new entry, and sets reviewed_by to the admin, exactly when the status changes |
| EnrollmentAdmin.SaveModel | enrollment/admin.py:179-197 | an add stores the object with its school and appends nothing; a change stores it (stamped by save) and appends exactly those entries; an object left without a school, or an unknown key, is refused and nothing changes |
| EnrollmentAdmin.AppliedSetsOnlyItsColumns | enrollment/admin.py:199-221 | approve and reject set the status and reviewed_by; mark-under-review sets only the status |
| EnrollmentAdmin.BulkUpdatedTouchesOnlySelected | enrollment/admin.py:199-221 | a bulk action touches only the selected rows |
| EnrollmentAdmin.RunAction | enrollment/admin.py:199-221 | the table becomes the bulk update; the returned count is the number of selected rows; no history is written |
| EnrollmentAdmin.ColoredStatus | enrollment/admin.py:143-157 | the colour differs from black iff the value is one of the five statuses |
| EnrollmentAdmin.StatusColoursDistinct | enrollment/admin.py:145-151 | the five statuses have five different colours |
| EnrollmentAdmin.CompletionBadge | enrollment/admin.py:161-169 | green iff 100, orange iff 75 to 99, red below 75 |
| EnrollmentAdmin.BadgeByFilledFields | enrollment/admin.py:161-169 | green iff all eleven fields are filled, orange iff nine or ten, red for eight or fewer |
| EnrollmentAdmin.HistoryAdminAllows | enrollment/admin.py:293-297 | status-history rows can be viewed, but neither added nor deleted |
| EnrollmentTasks.StatusEmail | enrollment/tasks.py:29-60 | a mail exists iff the status has a template; it goes to the student and the parent, with the school's name in brackets at the head of the subject |
| EnrollmentTasks.SendStatusEmail | enrollment/tasks.py:17-105 | a mail is sent iff the application exists and the status has a template |
| EnrollmentTasks.PendingHasNoTemplate | enrollment/tasks.py:29-60 | every stored status except pending finds a template |
| EnrollmentTasks.RemindedOnceUnlessOnBoundary | enrollment/tasks.py:117-122 | two daily runs remind the same application only when it was sent exactly seven days before the first run |
| EnrollmentTasks.SendEnrollmentReminders | enrollment/tasks.py:109-153 | the count is the number of pending applications sent 7 to 8 days ago whose mail did not fail |
| EnrollmentTasks.CleanupOldRejectedRegistrations | enrollment/tasks.py:157-178 | counts the applications rejected at least 90 days ago and deletes nothing |
| EnrollmentTasks.OldRejectedGrowsWithTime | enrollment/tasks.py:164-168 | the qualifying set only grows as time passes |
| EnrollmentTasks.ListedStatusCount | enrollment/tasks.py:200-206 | each per-status count is the size of that status's subset |
| EnrollmentTasks.GenerateEnrollmentReport | enrollment/tasks.py:182-216 | an unknown school raises; otherwise the counts are those of the school's applications for that year |
| EnrollmentTasks.UnverifiedDocumentsDoNotCount | enrollment/tasks.py:233-238 | a required type with only unverified documents blocks auto-approval |
| EnrollmentTasks.AutoApprovalSettles | enrollment/tasks.py:226-247 | only pending applications are approved, the others are untouched, and afterwards none is eligible |
| EnrollmentTasks.SweepComplete | enrollment/tasks.py:231-247 | visiting every pending application, in any order, gives the auto-approved table |
| EnrollmentTasks.Visit | enrollment/tasks.py:233-247 | one turn approves and saves the application iff it is eligible |
| EnrollmentTasks.Sweep | enrollment/tasks.py:231-247 | the loop visits each listed application once and counts the approvals |
| EnrollmentTasks.AutoApproveCompleteRegistrations | enrollment/tasks.py:220-250 | exactly the eligible applications (pending, four verified required types, 100 %) are approved with the fixed note; the count equals their number |
| Filieres.NewFiliereDefaults | filieres/models.py:42-68 | whenever name and code fit their lengths, the defaults pass every validator and give an active Bachelor programme of unlimited capacity |
| Filieres.SubjectCoefficientTenRejected | filieres/models.py:139-146 | the declared subject row accepts exactly the intended rows except those with coefficient 10 |
| Filieres.NewSubjectValid | filieres/models.py:139-179 | the subject defaults pass every bound; coefficient 10 is refused only by the declared column |
| Filieres.SubjectColumnHoldsValidRows | filieres/models.py:139-146 | every row the declared validators accept fits the coefficient column, and coefficient 10 does not |
| Filieres.TotalHoursBounds | filieres/models.py:194-196 | valid rows total 15 to 600 hours; more weekly hours give more hours; 4 hours per week give 60 |
| Filieres.EnrolledCountMeaning | filieres/models.py:102-111 | the count is positive iff some registration of this programme is enrolled |
| Filieres.IsFull | filieres/models.py:113-117 | an unset or zero capacity is never full; otherwise full iff enrolled ≥ capacity |
| Filieres.EnrollingKeepsFull | filieres/models.py:113-117 | enrolling one more student never un-fills a programme |
| Filieres.FiliereDb.SaveFiliere | filieres/models.py:85-93 | a save is refused, with nothing changed, iff another programme of the same school has the code (unique_together), the name is over 200 or the code over 20 characters (varchar columns), or the key is unknown; subject rows are untouched |
| Filieres.FiliereDb.AddSubject | filieres/models.py:139-185 | a subject row is refused iff its programme is missing, its coefficient overflows the numeric(3,2) column, or the (filiere, subject, year, semester) key is taken |
| Filieres.FiliereDb.Delete | filieres/models.py:126-131 | deleting a programme removes its subject rows (CASCADE); the cascades into the note and book tables are applied beside it by FiliereViews.FiliereDelete |
| FiliereForms.CleanCode | filieres/forms.py:68-80 | returns the upper-cased code; when editing, refused iff another programme of the school has it |
| FiliereForms.CleanCodeIdempotent | filieres/forms.py:70 | cleaning a cleaned code gives the same outcome |
| FiliereForms.NewCodeNotChecked | filieres/forms.py:73 | an unsaved programme's code is never refused |
| FiliereForms.CleanCodeKeepsCodesUnique | filieres/forms.py:72-78 | storing an edit whose code was accepted keeps codes unique per school |
| FiliereForms.CoordinatorChoices | filieres/forms.py:55-66 | the choices are the professor and direction users, of the given school when one is given |
| FiliereForms.SchoolNarrowsChoices | filieres/forms.py:59-66 | naming a school filters the unrestricted choices, keeping their order |
| FiliereViews.FiliereList | filieres/views.py:20-39 | only the school's programmes are listed; every listed row matches the search (name or code, ignoring case) and the active filter; an invalid form lists all of the school's programmes |
| FiliereViews.FiltersNarrow | filieres/views.py:28-39 | clearing the search, level or active filter only widens the list; `true` and `false` split the unfiltered list into active and inactive programmes |
| FiliereViews.GroupingPlacesEachOnce | filieres/views.py:64-70 | every subject is in the group of its own (year, semester) and in no other; no group is empty |
| FiliereViews.GroupsAfterIsGrouping | filieres/views.py:64-70 | appending subject by subject builds the grouping, keeping the iteration order within each group |
| FiliereViews.GroupSubjects | filieres/views.py:64-70 | the loop's dictionary is the grouping of the subjects |
| FiliereViews.DetachedKeepsEnrolled | filieres/views.py:139-145 | when no student is enrolled, deletion detaches the programme (SET_NULL) and leaves enrolled rows alone |
| FiliereViews.FiliereDelete | filieres/views.py:135-152 | another school's programme is not found; with enrolled students nothing is deleted; otherwise, on POST only, it is deleted with its subject rows and notes (and their history), while its registrations and books lose the link |
| Library.Defaults | library/models.py:18-49 | a new book has quantity 1 and 1 available; a new record is borrowed, with no fine and not returned |
| Library.IsOverdue | library/models.py:60-63 | overdue iff borrowed and due strictly before today |
| Library.OverdueEdgeCases | library/models.py:60-63 | a record due today is not overdue; overdue, returned or lost records are not overdue; an overdue record stays overdue the next day |
| Library.LibraryDb.CreateRecord | library/views.py:29-34 | one borrow record is inserted under a fresh key |
| Library.LibraryDb.SetAvailable | library/views.py:35-36 | only the book's available counter changes |
| Library.BooksDetachedKeepsCounters | library/models.py:14 | detaching a deleted programme keeps every book and its counters, clears only links to that programme, and leaves other books unchanged |
| Library.LibraryDb.DetachFiliere | library/models.py:14 | the SET_NULL applied to books when a programme is deleted |
| Library.BookList | library/views.py:14-17 | exactly the school's books |
| Library.CountersDoNotChangeBookList | library/views.py:14-17 | lending and returning never change which books are listed |
| Library.BorrowBook | library/views.py:24-41 | another school's book is not found; with nothing available, nothing changes; otherwise one record due in 14 days is created and available drops by exactly 1 |
| Library.ReturnBook | library/views.py:64-83 | only the student's own borrowed or overdue record of the school is returned (status, and returned_at set to midnight of today, as date.today() stored in a date-time column); available rises by exactly 1, with no cap |
| Library.BorrowThenReturn | library/views.py:24-83 | a borrow followed by the matching return restores every book's counter; returned on the day of borrowing, the return time is no later than the borrow time |
| Library.DueKeys | library/tasks.py:11-14 | the sweep selects exactly the overdue records |
| Library.SweepIdempotent | library/tasks.py:11-18 | after the sweep no record is overdue, and a second run changes nothing |
| Library.SendOverdueReminders | library/tasks.py:9-28 | every selected record becomes overdue and the rest are unchanged; the count is the number selected |
| Events.EventList | events/views.py:13-29 | only the school's events are listed |
| Events.EventListByRole | events/views.py:15-24 | students see exactly the school's `all` and `students` events, parents `all` and `parents`, professors `all` and `staff`, every other role all of them; a list in start order stays in start order |
| Events.RestrictedSeesLess | events/views.py:17-24 | no role sees more than direction |
| Events.Emails | events/tasks.py:22-45 | one address per user, in order |
| Events.RecipientsCount | events/tasks.py:22-45 | one address per addressed user; none for an unknown audience |
| Events.RecipientsByAudience | events/tasks.py:22-45 | `all` reaches every user of the school, `students` the students, `parents` the parents, `staff` professors and direction |
| Events.RecipientsStayInSchool | events/tasks.py:22-45 | no user of another school is addressed |
| Events.RerunSelectsNone | events/tasks.py:11-16 | after a run, a rerun the same day selects nothing and changes nothing |
| Events.MarkedAfterIsMarking | events/tasks.py:56-57 | visiting marks exactly the visited events as reminded |
| Events.MailedAfterIsMailing | events/tasks.py:47-54 | mail goes exactly to the visited events with a non-empty recipient list |
| Events.RemindEach | events/tasks.py:18-57 | the loop marks every selected event and mails those with recipients |
| Events.SendEventReminders | events/tasks.py:9-59 | exactly the events wanting a reminder, not yet reminded and starting tomorrow are marked; mail goes to those with recipients; the count is the number selected |
| Decorators.GetUserRole | accounts/decorators.py:15-29 | the role column wins; otherwise the first flag in the order superuser, student, lecturer, parent, head of department; None iff no flag |
| Decorators.RolePrecedence | accounts/decorators.py:15-29 | a superuser student resolves to admin, and a lecturer who is also head of department to professor |
| Decorators.RoleRequired | accounts/decorators.py:45-64 | anonymous users go to login; a superuser or an allowed role passes; anyone else is redirected |
| Decorators.RoleRequiredMonotone | accounts/decorators.py:56-57 | widening the allowed roles never refuses anyone who passed |
| Decorators.ShortcutsAgree | accounts/decorators.py:140-207 | superusers pass every shortcut; passing direction_only implies passing professor_only; student and parent gates exclude each other; the legacy student gate redirects to "/" |
| Decorators.NoRoleNoAccess | accounts/decorators.py:56-64 | a user without role or flags passes no role gate |
| Decorators.TenantRequired | accounts/decorators.py:80-98 | anonymous users go to login; a superuser passes; a request without a school is redirected to "/"; otherwise 403 iff the user's school attribute exists and differs from the request's, and the user passes iff not |
| Decorators.TenantIsolation | accounts/decorators.py:92-96 | a non-superuser with a school passes only on that school's requests; a null school passes nowhere; a user model without the attribute passes everywhere |
| Decorators.RateFor | accounts/decorators.py:123-124 | the role's configured rate, otherwise the default |
| Decorators.RateByRole | accounts/decorators.py:117-124 | every flag-derived role has a configured rate; no role, or an unknown one, falls back to the default; a superuser gets 2000/hour |
| Decorators.Require2FA | accounts/decorators.py:219-235 | anonymous users go to login; a signed-in user passes iff a confirmed TOTP device or an MFA record exists, and is otherwise redirected to the TOTP activation page |
| Decorators.Require2FANoBypass | accounts/decorators.py:221-235 | unlike the role gates, the 2FA gate makes no exception for superusers |
| Middleware.HttpRequest.constructor | accounts/middleware.py:42 | a request arrives without user_role or current_role set |
| Middleware.MiddlewareRole | accounts/middleware.py:54-74 | the decorators' precedence, but `student` when nothing matches, so never empty |
| Middleware.ProcessRole | accounts/middleware.py:42-52 | a signed-in user's resolved role is set as both user_role and current_role; an anonymous request gets user_role None |
| Middleware.Enforce2FA | accounts/middleware.py:94-133 | redirects iff signed in, not on an exempt path, in a role that requires 2FA, with neither MFA nor TOTP, and not already on the activation page |
| Middleware.EnforceAfterRoleMiddleware | accounts/middleware.py:104-107 | the gate decides the same whether or not RoleMiddleware ran first |
| Middleware.Enforce2FAScope | accounts/middleware.py:83-133 | students, parents, static paths and the activation page always pass; a superuser without 2FA is redirected |
| Middleware.ProcessResponse | accounts/middleware.py:164-203 | the response always comes back unchanged; one entry is appended iff the request is audited and logging succeeds |
| Middleware.AuditScope | accounts/middleware.py:164-179 | reads and anonymous requests are never audited; a signed-in POST under `/payments/` always is; a sensitive word in the path counts whatever its case (`/notes/1/Delete/`) |
| Middleware.FirstField | accounts/middleware.py:210 | the text before the first comma |
| Middleware.ClientIp | accounts/middleware.py:206-213 | the first comma-separated element of a non-empty X-Forwarded-For, otherwise REMOTE_ADDR |
| Middleware.ClientIpFirstField | accounts/middleware.py:206-213 | the element is taken whole up to the first comma and is not trimmed |
| Middleware.AuthSecurity | accounts/middleware.py:222-244 | an inactive user is logged out and sent to login; an invalid subscription redirects everyone except superusers |
| Middleware.Require2FAGate | accounts/middleware.py:253-283 | redirects to setup iff signed in, not on a skipped path, a staff role, with neither a verified e-mail nor TOTP, and not on the setup page |
| Middleware.TwoFactorGatesDiffer | accounts/middleware.py:258-281 | the setup page lies under a skipped prefix; a verified e-mail satisfies this gate but not Enforce2FAMiddleware |
| ContextProcessors.TenantContext | accounts/context_processors.py:9-26 | empty without a school; otherwise the school, its name, logo (None when absent) and colour under both spellings |
| ContextProcessors.ContextRole | accounts/context_processors.py:44-59 | the request's role when set, else the decorators' precedence |
| ContextProcessors.UserRoleContext | accounts/context_processors.py:29-68 | anonymous users get role None and all flags down; a role r raises `is_r` and leaves the other flags as defaulted |
| ContextProcessors.RoleFlags | accounts/context_processors.py:34-66 | a known role raises exactly its own flag; a user nothing identifies shows no role unless RoleMiddleware made them a student |
| ContextProcessors.Navigation | accounts/context_processors.py:83-153 | empty for anonymous users; otherwise Dashboard, then the role's items, then Admin for superusers |
| ContextProcessors.NavigationShape | accounts/context_processors.py:89-151 | Dashboard comes first; Admin is present, and last, iff superuser; direction and admin share one menu; a missing role reads as student; only staff menus reach monitoring |
| ContextProcessors.Permissions | accounts/context_processors.py:156-189 | direction and admin get all six permissions, a professor only can_manage_discipline, every other role none |
| ContextProcessors.PermissionsNested | accounts/context_processors.py:160-187 | a professor's permissions are included in direction's, which equal admin's |
| Core.SubscriptionLastDay | core/models.py:69-72 | valid iff active and the end date is not past: the end date still counts, the next day does not, validity holds on every earlier day, and an inactive school is never valid |
| Core.SchoolDb.Create | core/models.py:21-38 | a new school is refused iff it repeats another school's name, slug or licence key |
| Core.GetById | core/models.py:123-129 | returns the row iff exactly one row has the id, and None for zero or several |
| Core.GetByIdFindsKey | core/models.py:123-129 | with unique ids, the lookup succeeds iff some row has the id |
| Core.Search | core/models.py:106-113 | exactly the rows whose title, summary (each only when present) or posted-as kind contains the query, ignoring case |
| Core.SearchDistinct | core/models.py:111-113 | distinct rows stay distinct |
| Core.SearchIgnoresCase | core/models.py:108-110 | upper-casing the query changes nothing |
| Core.EmptyQueryMatchesAll | core/models.py:106-113 | an empty query returns every row |

## Left out

- Not modelled:
  - the ORM itself (querysets, `select_related`, migrations);
  - templates and rendering;
  - flash messages;
  - pagination (`enrollment_list` pages of 50, `filiere_list` pages of 20).
  Views return a small outcome value instead of a response.
- Sending mail and Celery are left out: `send_mail`, `.delay`, retries,
  logging. The background jobs are modelled by the rows they select and change, and by the
  mails they would send.
- A failing reminder mail is a parameter (`fails`), because the
  exception's cause is outside the model.
- Wall-clock reads are parameters. Time-zone conversion of `__date`
  lookups is not modelled: a day is 86400 seconds of UTC.
- ratelimit, django-tenants, allauth/OTP and axes internals are not
  modelled. MFA, TOTP and verified e-mail presence are booleans, and a
  rate is returned as its string rather than enforced.
- The ActivityLog message is stored as a structured entry, not formatted
  text. A failing log write is the `logged` flag.
- Redirects to named URLs keep the name (for example `account_login`)
  instead of resolving it. Logging out is modelled as the request losing
  its user.
- `TenantMiddleware` and `app_settings_context` only log or copy settings,
  so they are not modelled.
- Uploads are not modelled: `upload_document`, `verify_document`,
  `register_complete` and `enrollment_detail` only read or store files.
- The CSV export (`export_enrollments_csv`) and the per-field breakdowns
  and monthly trend of `enrollment_statistics` are report formatting, so
  they are not modelled.
- The programme create/edit views and the subject/requirement views
  (`filiere_create`, `filiere_edit`, `add_subject`, `remove_subject`,
  `add_requirement`) are not modelled as views. Their writes go through
  `FiliereDb.SaveFiliere` and `FiliereDb.AddSubject`, and their gates are
  the Decorators members.
- `event_create` and `event_detail` are not modelled: the first is a form
  save behind `direction_only`, the second a lookup.
- `my_borrowed_books` (a filter on the student and school) is not
  modelled.
- `EnrollmentDocument.get_file_size` rounds a float, so it is not modelled.
- Decimal quantisation to the column's two places on save is not
  modelled: the weighted score is kept exact. The overflow that rounding
  can cause is modelled (`Notes.SaveFails`, `Common.FitsColumn`).
- Notes.ProfessorNote.Save: the NOT NULL student and subject columns are
  not modelled; on a create they come from the form (`otherFieldsValid`).
- Filieres.FiliereDb.Delete and FiliereViews.FiliereDelete: the CASCADE to
  FiliereRequirement rows is not modelled, because no rule of the model
  reads that table.
- Filieres.EnrolledCount: the bare `except` that returns 0 is not
  modelled, because the in-memory query cannot fail.
- FiliereForms.CleanCode: `str.upper` is Unicode-aware in Python; the
  model upper-cases ASCII letters only.
- Core.Search and the other case-insensitive filters (`icontains`) fold
  ASCII letters only.
- Middleware.ProcessResponse and Middleware.Audited: `path.lower()` is
  Unicode-aware in Python; the model lower-cases ASCII letters only.
- FiliereViews.FiliereList: the ordering by name and the `has_capacity`
  field are not modelled. The form accepts `has_capacity`, but the view
  never reads it.
- EnrollmentViews.RegisterStep1: the per-field format checks of the form
  (phone, e-mail syntax) are one boolean, `otherFieldsValid`.
- Concurrency and transactions are not modelled. Each request or task
  run is one sequential step.

## Findings

| source | as written | input that shows it | evidently intended | confidence | as-written member | corrected member |
|---|---|---|---|---|---|---|
| notes/models.py:107-113 | `coefficient` is DecimalField(max_digits=3, decimal_places=2), which leaves one digit before the point, while its validator allows up to 10 | coefficient 10.00: allowed by MaxValueValidator(10) but refused by the column's digit limit | every two-place value in [0.1, 10] accepted (max_digits=4) | high; not executed | Notes.CoefficientAcceptedAsWritten (shown by Notes.CoefficientTenRejected) | Notes.CoefficientAccepted (proved by Notes.CoefficientAcceptedIsRange) |
| filieres/models.py:139-146 | FiliereSubject.coefficient has the same max_digits=3 against MaxValueValidator(10) | a subject row with coefficient 10.00 | every two-place coefficient in [0.1, 10] accepted | high; not executed | Filieres.SubjectValidAsWritten (shown by Filieres.SubjectCoefficientTenRejected) | Filieres.SubjectValid (proved by Filieres.NewSubjectValid) |
| enrollment/views.py:232-233 | `submitted_at__lte=date_to` compares a datetime with a date, which Django reads as that day's midnight | an application sent at 10:00 on the date_to day is not listed | the chosen last day included in the list | medium; not executed | EnrollmentViews.DateToCutsOffItsOwnDay | EnrollmentViews.BeforeDateToIsWholeDay |
| notes/views.py:207-208 | `old_status` is read after `form.is_valid()`, which has already copied the submitted status onto the note | a pending note approved: the entry says "from approved to approved" | the entry records the stored status, then the new one | high; not executed | NoteViews.ReviewEntryAsWritten (shown by NoteViews.ReviewLogAsWrittenDisagrees) | NoteViews.ReviewEntry (proved by NoteViews.ReviewLoggedTwiceOnChange) |
| enrollment/views.py:299-300 | the same: `old_status` is read after the review form copied the new status onto the application | a pending application approved: the history row reads approved → approved | the row records the stored status, then the new one | high; not executed | EnrollmentViews.ReviewChangeAsWritten (shown by EnrollmentViews.ReviewChangeAsWrittenShowsNoTransition) | EnrollmentViews.ReviewChange (proved by EnrollmentViews.ReviewChangeRecordsTransition) |
| notes/views.py:37-42 | the note form has no `filiere` field (notes/forms.py:9) and the view sets none, while the column is a NOT NULL foreign key (notes/models.py:63-67) | any valid note form: the save raises an integrity error | a note created for the programme chosen on the form | high; not executed | NoteViews.NoteCreate (shown by NoteViews.CreateWithoutFiliereFails) | NoteViews.NoteCreateWithFiliere (proved by NoteViews.CreateWithFiliereSaves and NoteViews.CreatedRowIsDraft) |

The operations follow the code as written: the note form and the subject
table use the three-digit coefficient column, the application list cuts
`date_to` at its midnight, the review views record the submitted status as both old and new,
and `note_create` fails. Each corrected member stands beside its
as-written one with the intended property proved about it.
