/** The registration admin (enrollment/admin.py): `save_model`, the three
    bulk actions, the status colour and completion badge columns, and the
    read-only status-history admin. */
module EnrollmentAdmin {
  import opened Common
  import opened Enrollment

  // ---------------------------------------------------------------------
  // save_model
  // ---------------------------------------------------------------------

  /** The tenant the object is saved with: an unsaved object without one
      takes the request's school when the request carries one. */
  function AdminTenant(pk: nat, obj: Registration, requestTenant: Option<TenantId>): (t: Option<TenantId>)
    ensures pk != 0 || obj.tenant.Some? ==> t == obj.tenant
    ensures pk == 0 && obj.tenant.None? ==> t == requestTenant
  {
    if pk == 0 && obj.tenant.None? then requestTenant else obj.tenant
  }

  /** The object after `save_model`'s own edits on an existing row: a
      changed status records the admin user as reviewer. */
  function AdminEdited(stored: Registration, obj: Registration, user: UserId): Registration {
    if stored.status != obj.status then obj.(reviewedBy := Some(user)) else obj
  }

  /** The history rows `save_model` writes for an edit of row `pk`. */
  function AdminEntries(pk: nat, stored: Registration, obj: Registration, user: UserId, now: int): seq<StatusChange> {
    if stored.status != obj.status
    then [StatusChange(pk, stored.status, obj.status, Some(user), obj.reviewNotes, now)]
    else []
  }

  /** An admin edit logs one old-to-new row exactly when the status changes,
      and then also names the admin as reviewer; nothing else is touched. */
  lemma AdminLogsStatusChanges(pk: nat, stored: Registration, obj: Registration, user: UserId, now: int)
    ensures |AdminEntries(pk, stored, obj, user, now)| == (if stored.status != obj.status then 1 else 0)
    ensures forall h :: h in AdminEntries(pk, stored, obj, user, now) ==>
      h.registration == pk && h.oldStatus == stored.status && h.newStatus == obj.status &&
      h.changedBy == Some(user) && h.notes == obj.reviewNotes
    ensures AdminEdited(stored, obj, user).(reviewedBy := obj.reviewedBy) == obj
    ensures stored.status != obj.status ==> AdminEdited(stored, obj, user).reviewedBy == Some(user)
    ensures stored.status == obj.status ==> AdminEdited(stored, obj, user) == obj
  {
  }

  /** `RegistrationFormAdmin.save_model`. `pk` is 0 for the add form. The
      form's `changed_data` lists `status` exactly when the submitted status
      differs from the stored one. A missing tenant or a vanished row
      raises, and the request's transaction leaves the tables as they were. */
  method SaveModel(db: EnrollmentDb, user: UserId, requestTenant: Option<TenantId>, pk: nat,
                   obj: Registration, now: int)
    returns (key: nat, ok: bool)
    requires db.Valid()
    modifies db
    ensures db.Valid() && db.docs == old(db.docs)
    ensures ok == (AdminTenant(pk, obj, requestTenant).Some? && (pk == 0 || pk in old(db.regs)))
    ensures !ok ==> unchanged(db)
    ensures ok && pk == 0 ==>
      key == old(db.nextPk) && key !in old(db.regs) && db.history == old(db.history) &&
      db.regs == old(db.regs)[key := obj.(tenant := AdminTenant(pk, obj, requestTenant), submittedAt := now)]
    ensures ok && pk != 0 ==>
      var stored := old(db.regs)[pk];
      key == pk &&
      db.regs == old(db.regs)[pk := Stamped(stored, AdminEdited(stored, obj, user), now)] &&
      db.history == old(db.history) + AdminEntries(pk, stored, obj, user, now)
  {
    var o := obj.(tenant := AdminTenant(pk, obj, requestTenant));
    if o.tenant.None? || (pk != 0 && pk !in db.regs) {
      return pk, false;
    }
    if pk != 0 {
      var stored := db.regs[pk];
      if stored.status != o.status {
        db.AppendHistory(StatusChange(pk, stored.status, o.status, Some(user), o.reviewNotes, now));
        o := o.(reviewedBy := Some(user));
      }
    }
    key, ok := db.Save(pk, o, now);
  }

  // ---------------------------------------------------------------------
  // Bulk actions
  // ---------------------------------------------------------------------

  /** The three actions of the change list. Each is one `queryset.update`,
      which bypasses `save`: nothing is stamped and no history is written. */
  datatype BulkAction = ApproveSelected(reviewer: UserId) | RejectSelected(reviewer: UserId) | MarkUnderReview

  function Target(a: BulkAction): RegStatus {
    match a
    case ApproveSelected(_) => Approved
    case RejectSelected(_) => Rejected
    case MarkUnderReview => UnderReview
  }

  /** The columns one action assigns on a selected row. */
  function Applied(a: BulkAction, r: Registration): Registration {
    match a
    case ApproveSelected(u) => r.(status := Approved, reviewedBy := Some(u))
    case RejectSelected(u) => r.(status := Rejected, reviewedBy := Some(u))
    case MarkUnderReview => r.(status := UnderReview)
  }

  /** Every action sets the target status; approve and reject also name the
      admin as reviewer, `mark_under_review` changes the status alone. */
  lemma AppliedSetsOnlyItsColumns(a: BulkAction, r: Registration)
    ensures Applied(a, r).status == Target(a)
    ensures Applied(a, r).(status := r.status, reviewedBy := r.reviewedBy) == r
    ensures a.MarkUnderReview? ==> Applied(a, r) == r.(status := UnderReview)
    ensures !a.MarkUnderReview? ==> Applied(a, r).reviewedBy == Some(a.reviewer)
    ensures Applied(a, r).reviewedAt == r.reviewedAt && Applied(a, r).tenant == r.tenant
  {
  }

  /** The table after an action on the rows in `selected`. */
  function BulkUpdated(regs: map<nat, Registration>, selected: set<nat>, a: BulkAction): map<nat, Registration> {
    map k | k in regs :: if k in selected then Applied(a, regs[k]) else regs[k]
  }

  /** An action keeps the keys and touches only the selected rows. */
  lemma BulkUpdatedTouchesOnlySelected(regs: map<nat, Registration>, selected: set<nat>, a: BulkAction)
    ensures BulkUpdated(regs, selected, a).Keys == regs.Keys
    ensures forall k :: k in regs && k !in selected ==> BulkUpdated(regs, selected, a)[k] == regs[k]
    ensures forall k :: k in regs && k in selected ==> BulkUpdated(regs, selected, a)[k].status == Target(a)
  {
  }

  /** `approve_registrations`, `reject_registrations`, `mark_under_review`:
      one update over the selected rows; the count shown is the number of
      rows the update matched. */
  method RunAction(db: EnrollmentDb, selected: set<nat>, a: BulkAction) returns (count: nat)
    requires db.Valid()
    modifies db`regs
    ensures db.Valid()
    ensures db.regs == BulkUpdated(old(db.regs), selected, a)
    ensures count == |selected * old(db.regs).Keys|
  {
    count := |selected * db.regs.Keys|;
    db.regs := BulkUpdated(db.regs, selected, a);
  }

  // ---------------------------------------------------------------------
  // List columns
  // ---------------------------------------------------------------------

  const Black: string := "#000000"

  /** `colored_status`: the colour for a stored status value. */
  function ColoredStatus(status: string): (c: string)
    ensures c != Black <==> exists s :: StatusName(s) == status
  {
    if status == "pending" then (assert StatusName(Pending) == status; "#FFA500")
    else if status == "under_review" then (assert StatusName(UnderReview) == status; "#0000FF")
    else if status == "approved" then (assert StatusName(Approved) == status; "#008000")
    else if status == "rejected" then (assert StatusName(Rejected) == status; "#FF0000")
    else if status == "enrolled" then (assert StatusName(Enrolled) == status; "#800080")
    else Black
  }

  /** The five statuses get five different colours. */
  lemma StatusColoursDistinct(s: RegStatus, t: RegStatus)
    requires s != t
    ensures ColoredStatus(StatusName(s)) != ColoredStatus(StatusName(t))
  {
  }

  datatype Badge = Green | Orange | Red

  /** `completion_badge`: green at 100 %, orange from 75 %, red below. */
  function CompletionBadge(percentage: nat): (b: Badge)
    ensures b == Green <==> percentage == 100
    ensures b == Orange <==> 75 <= percentage && percentage != 100
    ensures b == Red <==> percentage < 75
  {
    if percentage == 100 then Green else if percentage >= 75 then Orange else Red
  }

  /** On an application the badge counts fields: green with all eleven,
      orange with nine or ten, red with eight or fewer. */
  lemma BadgeByFilledFields(r: Registration)
    ensures CompletionBadge(CompletionPercentage(r)) == Green <==> Filled(r) == 11
    ensures CompletionBadge(CompletionPercentage(r)) == Orange <==> Filled(r) == 9 || Filled(r) == 10
    ensures CompletionBadge(CompletionPercentage(r)) == Red <==> Filled(r) <= 8
  {
    var n := Filled(r);
    assert n <= 11;
    if n <= 8 {
      assert n * 100 <= 800;
    } else if n == 9 {
      assert n * 100 / 11 == 81;
    } else if n == 10 {
      assert n * 100 / 11 == 90;
    } else {
      assert n * 100 / 11 == 100;
    }
  }

  // ---------------------------------------------------------------------
  // Status history admin
  // ---------------------------------------------------------------------

  datatype AdminOp = ViewRows | AddRow | ChangeField | DeleteRow

  /** What the status-history admin and its inline permit: adding and
      deleting are refused outright and every column is read-only, so the
      history can only be viewed. */
  function HistoryAdminAllows(op: AdminOp): (allowed: bool)
    ensures allowed <==> op == ViewRows
  {
    match op
    case ViewRows => true
    case AddRow => false
    case ChangeField => false
    case DeleteRow => false
  }
}
