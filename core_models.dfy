/** The shared models (core/models.py): the School tenant with its
    subscription check and unique columns, and the news-and-events manager's
    exactly-one lookup and case-insensitive search. Dates are day numbers. */
module Core {
  import opened Common

  /** The School columns the access rules and templates read. `logo` is
      the logo's URL, None when no logo is uploaded. */
  datatype School = School(
    name: string,
    slug: string,
    licenseKey: string,
    isActive: bool,
    subscriptionEnd: int,
    logo: Option<string>,
    primaryColor: string)

  /** `School.is_subscription_valid` on day `today`. */
  function IsSubscriptionValid(s: School, today: int): bool {
    s.isActive && s.subscriptionEnd >= today
  }

  /** The end date itself still counts, the next day does not, a valid
      subscription was valid on every earlier day, and an inactive school
      never has one. */
  lemma SubscriptionLastDay(s: School, today: int, earlier: int)
    ensures s.isActive ==> IsSubscriptionValid(s, s.subscriptionEnd)
    ensures !IsSubscriptionValid(s, s.subscriptionEnd + 1)
    ensures IsSubscriptionValid(s, today) && earlier <= today ==> IsSubscriptionValid(s, earlier)
    ensures !s.isActive ==> !IsSubscriptionValid(s, today)
  {
  }

  /** `name`, `slug` and `license_key` are each `unique=True`. */
  predicate SchoolsUnique(schools: map<TenantId, School>) {
    forall a, b :: a in schools && b in schools && a != b ==>
      schools[a].name != schools[b].name &&
      schools[a].slug != schools[b].slug &&
      schools[a].licenseKey != schools[b].licenseKey
  }

  /** A stored school other than `key` already uses one of `s`'s unique
      values. */
  predicate Clashes(schools: map<TenantId, School>, key: TenantId, s: School) {
    exists k :: k in schools && k != key &&
      (schools[k].name == s.name || schools[k].slug == s.slug || schools[k].licenseKey == s.licenseKey)
  }

  /** The public schema's table of schools. */
  class SchoolDb {
    var schools: map<TenantId, School>
    var nextPk: nat

    ghost predicate Valid()
      reads this
    {
      1 <= nextPk && (forall k :: k in schools ==> 1 <= k < nextPk) && SchoolsUnique(schools)
    }

    constructor ()
      ensures Valid() && schools == map[]
    {
      schools := map[];
      nextPk := 1;
    }

    /** `School.save` of a new row: refused with nothing written when it
        would repeat another school's name, slug or licence key. */
    method Create(s: School) returns (key: TenantId, ok: bool)
      requires Valid()
      modifies this
      ensures Valid()
      ensures ok == !Clashes(old(schools), 0, s)
      ensures !ok ==> unchanged(this)
      ensures ok ==> key == old(nextPk) && key !in old(schools) && schools == old(schools)[key := s]
    {
      key := 0;
      if Clashes(schools, 0, s) {
        return key, false;
      }
      ok := true;
      key := nextPk;
      nextPk := nextPk + 1;
      schools := schools[key := s];
    }
  }

  // ---------------------------------------------------------------------
  // NewsAndEvents
  // ---------------------------------------------------------------------

  /** One NewsAndEvents row; `title` and `summary` are nullable. */
  datatype NewsItem = NewsItem(id: nat, title: Option<string>, summary: Option<string>, postedAs: string)

  function HasId(id: nat): NewsItem -> bool {
    (n: NewsItem) => n.id == id
  }

  /** `NewsAndEventsManager.get_by_id`: the row with this id when exactly
      one row has it, and None for zero or several. */
  function GetById(rows: seq<NewsItem>, id: nat): (r: Option<NewsItem>)
    ensures r.Some? <==> Count(rows, HasId(id)) == 1
    ensures r.Some? ==> r.value in rows && r.value.id == id
    ensures r.Some? ==> forall n :: n in rows && n.id == id ==> n == r.value
  {
    var matching := Filter(rows, HasId(id));
    if |matching| == 1 then
      assert matching[0] in matching;
      assert forall n :: n in matching ==> n == matching[0];
      Some(matching[0])
    else None
  }

  /** Ids are the primary key: no two rows share one. */
  predicate IdsUnique(rows: seq<NewsItem>) {
    forall i, j :: 0 <= i < |rows| && 0 <= j < |rows| && i != j ==> rows[i].id != rows[j].id
  }

  /** With unique ids the lookup finds a row exactly when one has the id. */
  lemma {:induction false} GetByIdFindsKey(rows: seq<NewsItem>, id: nat)
    requires IdsUnique(rows)
    ensures GetById(rows, id).Some? <==> exists n :: n in rows && n.id == id
  {
    CountAtMostOne(rows, id);
    if exists n :: n in rows && n.id == id {
      var n :| n in rows && n.id == id;
      assert n in Filter(rows, HasId(id));
    } else {
      FilterNoneMatch(rows, id);
    }
  }

  lemma {:induction false} CountAtMostOne(rows: seq<NewsItem>, id: nat)
    requires IdsUnique(rows)
    ensures Count(rows, HasId(id)) <= 1
  {
    if rows != [] {
      assert IdsUnique(rows[1..]) by {
        forall i, j | 0 <= i < |rows[1..]| && 0 <= j < |rows[1..]| && i != j
          ensures rows[1..][i].id != rows[1..][j].id
        {
          assert rows[1..][i] == rows[i + 1] && rows[1..][j] == rows[j + 1];
        }
      }
      CountAtMostOne(rows[1..], id);
      if rows[0].id == id {
        assert forall n :: n in rows[1..] ==> n.id != id by {
          forall n | n in rows[1..] ensures n.id != id {
            var j :| 0 <= j < |rows[1..]| && rows[1..][j] == n;
            assert rows[j + 1] == n;
          }
        }
        FilterNoneMatch(rows[1..], id);
      }
    }
  }

  lemma {:induction false} FilterNoneMatch(rows: seq<NewsItem>, id: nat)
    requires forall n :: n in rows ==> n.id != id
    ensures Filter(rows, HasId(id)) == []
  {
    if rows != [] {
      assert rows[0] in rows;
      FilterNoneMatch(rows[1..], id);
    }
  }

  /** The nullable columns match only when present. */
  predicate MayContain(field: Option<string>, query: string) {
    field.Some? && IContains(field.value, query)
  }

  function Matches(query: string): NewsItem -> bool {
    (n: NewsItem) => MayContain(n.title, query) || MayContain(n.summary, query) || IContains(n.postedAs, query)
  }

  /** `NewsAndEventsQuerySet.search`: the rows whose title, summary or
      kind contains the query, ignoring case, each row once. */
  function Search(rows: seq<NewsItem>, query: string): (r: seq<NewsItem>)
    ensures forall n :: n in r <==>
      n in rows && (MayContain(n.title, query) || MayContain(n.summary, query) || IContains(n.postedAs, query))
  {
    Filter(rows, Matches(query))
  }

  /** `.distinct()`: rows that were distinct stay distinct, in their order. */
  lemma SearchDistinct(rows: seq<NewsItem>, query: string)
    requires NoDuplicates(rows)
    ensures NoDuplicates(Search(rows, query))
  {
    FilterKeepsNoDuplicates(rows, Matches(query));
  }

  lemma LowerUpper(s: string)
    ensures Lower(Upper(s)) == Lower(s)
  {
  }

  /** The search ignores the query's case. */
  lemma {:induction false} SearchIgnoresCase(rows: seq<NewsItem>, query: string)
    ensures Search(rows, Upper(query)) == Search(rows, query)
  {
    if rows != [] {
      LowerUpper(query);
      SearchIgnoresCase(rows[1..], query);
    }
  }

  /** An empty query matches every row: each has a kind, and every string
      contains the empty one. */
  lemma {:induction false} EmptyQueryMatchesAll(rows: seq<NewsItem>)
    ensures Search(rows, "") == rows
  {
    if rows != [] {
      EmptyQueryMatchesAll(rows[1..]);
      assert StartsWith(Lower(rows[0].postedAs), Lower(""));
    }
  }
}
