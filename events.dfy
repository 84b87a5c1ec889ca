/** School events (events/views.py, events/tasks.py): which events each
    role sees, and the reminder task that mails an event's audience the
    day before it starts. Times are seconds, days are day numbers. */
module Events {
  import opened Common

  /** One Event row. `targetAudience` holds the stored choice value. */
  datatype Event = Event(
    tenant: TenantId,
    title: string,
    eventType: string,
    start: int,
    end: int,
    location: string,
    targetAudience: string,
    sendReminder: bool,
    reminderSent: bool,
    createdBy: Option<UserId>)

  /** The calendar day of a moment. */
  function DayOf(t: int): int {
    t / SecondsPerDay
  }

  // ---------------------------------------------------------------------
  // event_list
  // ---------------------------------------------------------------------

  /** The audiences a role is restricted to; None means no restriction. */
  function AudiencesFor(role: string): Option<set<string>> {
    if role == "student" then Some({"all", "students"})
    else if role == "parent" then Some({"all", "parents"})
    else if role == "professor" then Some({"all", "staff"})
    else None
  }

  function ShownTo(tenant: TenantId, role: string): Event -> bool {
    (e: Event) => e.tenant == tenant && (AudiencesFor(role).None? || e.targetAudience in AudiencesFor(role).value)
  }

  /** `event_list` over the events in start order. */
  function EventList(events: seq<Event>, tenant: TenantId, role: string): (r: seq<Event>)
    ensures forall e :: e in r ==> e in events && e.tenant == tenant
  {
    Filter(events, ShownTo(tenant, role))
  }

  /** Students see exactly the school's events for everyone or for
      students, parents those for everyone or for parents, professors
      those for everyone or for staff, and every other role all of the
      school's events; the start order is kept. */
  lemma EventListByRole(events: seq<Event>, tenant: TenantId, role: string)
    ensures role == "student" ==> forall e :: e in EventList(events, tenant, role) <==>
      e in events && e.tenant == tenant && (e.targetAudience == "all" || e.targetAudience == "students")
    ensures role == "parent" ==> forall e :: e in EventList(events, tenant, role) <==>
      e in events && e.tenant == tenant && (e.targetAudience == "all" || e.targetAudience == "parents")
    ensures role == "professor" ==> forall e :: e in EventList(events, tenant, role) <==>
      e in events && e.tenant == tenant && (e.targetAudience == "all" || e.targetAudience == "staff")
    ensures role !in {"student", "parent", "professor"} ==> forall e :: e in EventList(events, tenant, role) <==>
      e in events && e.tenant == tenant
    ensures SortedByKey(events, (e: Event) => e.start) ==> SortedByKey(EventList(events, tenant, role), (e: Event) => e.start)
  {
    if SortedByKey(events, (e: Event) => e.start) {
      FilterKeepsSorted(events, ShownTo(tenant, role), (e: Event) => e.start);
    }
  }

  /** A restricted role never sees more than an unrestricted one. */
  lemma RestrictedSeesLess(events: seq<Event>, tenant: TenantId, role: string)
    ensures forall e :: e in EventList(events, tenant, role) ==> e in EventList(events, tenant, "direction")
  {
  }

  // ---------------------------------------------------------------------
  // send_event_reminders
  // ---------------------------------------------------------------------

  /** The users an audience value addresses within the event's school; an
      unknown value addresses nobody. */
  function Addressed(tenant: TenantId, audience: string): User -> bool {
    (u: User) => u.tenant == TenantIs(Some(tenant)) &&
      (audience == "all" ||
       (audience == "students" && u.role == "student") ||
       (audience == "parents" && u.role == "parent") ||
       (audience == "staff" && (u.role == "professor" || u.role == "direction")))
  }

  function Emails(users: seq<User>): (r: seq<string>)
    ensures |r| == |users|
    ensures forall i :: 0 <= i < |users| ==> r[i] == users[i].email
  {
    seq(|users|, i requires 0 <= i < |users| => users[i].email)
  }

  /** The e-mail addresses an event reminder goes to, in user order. */
  function Recipients(users: seq<User>, e: Event): seq<string> {
    if e.targetAudience in {"all", "students", "parents", "staff"} then
      Emails(Filter(users, Addressed(e.tenant, e.targetAudience)))
    else []
  }

  /** One address per addressed user, none for an unknown audience. */
  lemma RecipientsCount(users: seq<User>, e: Event)
    ensures |Recipients(users, e)| == Count(users, Addressed(e.tenant, e.targetAudience))
    ensures e.targetAudience !in {"all", "students", "parents", "staff"} ==> Recipients(users, e) == []
  {
    if e.targetAudience !in {"all", "students", "parents", "staff"} {
      FilterNone(users, Addressed(e.tenant, e.targetAudience));
    }
  }

  /** Each audience reaches exactly its users of the event's school. */
  lemma RecipientsByAudience(users: seq<User>, e: Event, u: User)
    requires u in users && u.tenant == TenantIs(Some(e.tenant))
    ensures e.targetAudience == "all" ==> u.email in Recipients(users, e)
    ensures e.targetAudience == "students" && u.role == "student" ==> u.email in Recipients(users, e)
    ensures e.targetAudience == "parents" && u.role == "parent" ==> u.email in Recipients(users, e)
    ensures e.targetAudience == "staff" && u.role in {"professor", "direction"} ==> u.email in Recipients(users, e)
  {
    var addressed := Filter(users, Addressed(e.tenant, e.targetAudience));
    if Addressed(e.tenant, e.targetAudience)(u) {
      var i :| 0 <= i < |addressed| && addressed[i] == u;
      assert Emails(addressed)[i] == u.email;
    }
  }

  /** No user of another school is ever addressed. */
  lemma RecipientsStayInSchool(users: seq<User>, e: Event)
    ensures forall a :: a in Recipients(users, e) ==>
      exists u :: u in users && u.tenant == TenantIs(Some(e.tenant)) && u.email == a
  {
    var addressed := Filter(users, Addressed(e.tenant, e.targetAudience));
    forall a | a in Recipients(users, e)
      ensures exists u :: u in users && u.tenant == TenantIs(Some(e.tenant)) && u.email == a
    {
      var i :| 0 <= i < |Emails(addressed)| && Emails(addressed)[i] == a;
      assert addressed[i] in addressed;
    }
  }

  /** The events the reminder job selects on day `today`: reminders wanted, not
      yet sent, starting tomorrow. */
  predicate Due(e: Event, today: int) {
    e.sendReminder && !e.reminderSent && DayOf(e.start) == today + 1
  }

  function DueKeys(events: map<nat, Event>, today: int): set<nat> {
    set k | k in events && Due(events[k], today)
  }

  /** `after` is `before` once the reminder job of day `today` has run: every
      selected event marked as reminded, whether or not anyone was
      mailed, and nothing else touched. */
  ghost predicate RemindedFrom(before: map<nat, Event>, after: map<nat, Event>, today: int) {
    after.Keys == before.Keys &&
    forall k :: k in before ==>
      after[k] == if Due(before[k], today) then before[k].(reminderSent := true) else before[k]
  }

  /** A second run the same day selects nothing and so changes nothing. */
  lemma RerunSelectsNone(a: map<nat, Event>, b: map<nat, Event>, c: map<nat, Event>, today: int)
    requires RemindedFrom(a, b, today)
    ensures DueKeys(b, today) == {}
    ensures RemindedFrom(b, c, today) ==> c == b
  {
    forall k | k in b ensures !Due(b[k], today) {
    }
    if RemindedFrom(b, c, today) {
      forall k | k in c ensures c[k] == b[k] {
        assert !Due(b[k], today);
      }
    }
  }

  class EventDb {
    var events: map<nat, Event>

    constructor (events: map<nat, Event>)
      ensures this.events == events
    {
      this.events := events;
    }
  }

  /** The event table once the loop has visited the keys `l`: each
      visited event marked as reminded. */
  function MarkedAfter(events: map<nat, Event>, l: seq<nat>): map<nat, Event> {
    if l == [] then events
    else
      var m := MarkedAfter(events, l[..|l| - 1]);
      var k := l[|l| - 1];
      if k in m then m[k := m[k].(reminderSent := true)] else m
  }

  /** The mails sent once the loop has visited the keys `l`: one per
      visited event whose recipient list is non-empty. */
  function MailedAfter(events: map<nat, Event>, recipientsOf: Event -> seq<string>, l: seq<nat>): map<nat, seq<string>> {
    if l == [] then map[]
    else
      var m := MailedAfter(events, recipientsOf, l[..|l| - 1]);
      var k := l[|l| - 1];
      if k in events && recipientsOf(events[k]) != [] then m[k := recipientsOf(events[k])] else m
  }

  /** Visiting marks exactly the visited events and leaves the rest. */
  lemma {:induction false} MarkedAfterIsMarking(events: map<nat, Event>, l: seq<nat>)
    ensures MarkedAfter(events, l).Keys == events.Keys
    ensures forall k :: k in events ==>
      MarkedAfter(events, l)[k] == if k in l then events[k].(reminderSent := true) else events[k]
  {
    if l != [] {
      var init := l[..|l| - 1];
      MarkedAfterIsMarking(events, init);
      assert forall k :: k in l <==> k in init || k == l[|l| - 1] by {
        assert l == init + [l[|l| - 1]];
      }
    }
  }

  /** Visiting mails exactly the visited events with a non-empty list. */
  lemma {:induction false} MailedAfterIsMailing(events: map<nat, Event>, recipientsOf: Event -> seq<string>, l: seq<nat>)
    ensures forall k :: k in MailedAfter(events, recipientsOf, l) <==> k in l && k in events && recipientsOf(events[k]) != []
    ensures forall k :: k in MailedAfter(events, recipientsOf, l) ==> MailedAfter(events, recipientsOf, l)[k] == recipientsOf(events[k])
  {
    if l != [] {
      var init := l[..|l| - 1];
      MailedAfterIsMailing(events, recipientsOf, init);
      assert forall k :: k in l <==> k in init || k == l[|l| - 1] by {
        assert l == init + [l[|l| - 1]];
      }
    }
  }

  /** The loop of `send_event_reminders` over the selected events, with
      the audience-to-addresses mapping passed in as `recipientsOf`: mail
      each event whose list is non-empty, then mark it as reminded. */
  method RemindEach(db: EventDb, recipientsOf: Event -> seq<string>, selected: seq<nat>)
    returns (mails: map<nat, seq<string>>)
    requires NoDuplicates(selected)
    requires forall k :: k in selected ==> k in db.events
    modifies db
    ensures db.events == MarkedAfter(old(db.events), selected)
    ensures mails == MailedAfter(old(db.events), recipientsOf, selected)
  {
    ghost var before := db.events;
    mails := map[];
    var i := 0;
    while i < |selected|
      invariant 0 <= i <= |selected|
      invariant db.events == MarkedAfter(before, selected[..i])
      invariant mails == MailedAfter(before, recipientsOf, selected[..i])
    {
      var k := selected[i];
      PrefixSelectionStep(selected, i, x => true);
      MarkedAfterIsMarking(before, selected[..i]);
      assert selected[..i + 1][..i] == selected[..i];
      var event := db.events[k];
      var recipients := recipientsOf(event);
      if recipients != [] {
        mails := mails[k := recipients];
      }
      db.events := db.events[k := event.(reminderSent := true)];
      i := i + 1;
    }
    assert selected[..i] == selected;
  }

  /** `send_event_reminders` on day `today` over the user table `users`.
      `mails` holds, per mailed event, the recipient list it was sent to:
      only events whose list is non-empty are mailed. The count returned
      is the number of events selected. */
  method SendEventReminders(db: EventDb, users: seq<User>, today: int)
    returns (count: nat, mails: map<nat, seq<string>>)
    modifies db
    ensures RemindedFrom(old(db.events), db.events, today)
    ensures count == |DueKeys(old(db.events), today)|
    ensures forall k :: k in mails <==>
      k in DueKeys(old(db.events), today) && Recipients(users, old(db.events)[k]) != []
    ensures forall k :: k in mails ==> mails[k] == Recipients(users, old(db.events)[k])
  {
    ghost var before := db.events;
    var selected := ListOf(DueKeys(db.events, today));
    mails := RemindEach(db, e => Recipients(users, e), selected);
    MarkedAfterIsMarking(before, selected);
    MailedAfterIsMailing(before, e => Recipients(users, e), selected);
    count := |selected|;
  }
}
