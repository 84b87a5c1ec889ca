/** Shared vocabulary: optional values, users, strings and the query helpers
    (filter, count, ordering) that stand for Django querysets. */
module Common {

  datatype Option<T> = None | Some(value: T)

  /** A cleaned value, or the validation error that was raised. */
  datatype Result<T, E> = Ok(value: T) | Err(error: E)

  type UserId = nat
  type TenantId = nat

  /** The `tenant` attribute of a user: absent altogether, or present and
      possibly null. The decorators distinguish the two (`hasattr`). */
  datatype TenantAttr = NoTenantAttr | TenantIs(tenant: Option<TenantId>)

  /** The fields of the custom user model that the access rules read. `role`
      is the free `role` column ("" when unset); the four flags are the
      legacy boolean attributes, false when the attribute is absent. */
  datatype User = User(
    id: UserId,
    role: string,
    isSuperuser: bool,
    isStudent: bool,
    isLecturer: bool,
    isParent: bool,
    isDepHead: bool,
    tenant: TenantAttr,
    isActive: bool,
    email: string)

  // ---------------------------------------------------------------------
  // Strings (ASCII case mapping only)
  // ---------------------------------------------------------------------

  function LowerChar(c: char): char {
    if 'A' <= c <= 'Z' then (c as int + 32) as char else c
  }

  function UpperChar(c: char): char {
    if 'a' <= c <= 'z' then (c as int - 32) as char else c
  }

  function Lower(s: string): string {
    seq(|s|, i requires 0 <= i < |s| => LowerChar(s[i]))
  }

  function Upper(s: string): string {
    seq(|s|, i requires 0 <= i < |s| => UpperChar(s[i]))
  }

  /** Upper-casing twice is upper-casing once. */
  lemma UpperIdempotent(s: string)
    ensures Upper(Upper(s)) == Upper(s)
  {
  }

  predicate StartsWith(s: string, prefix: string) {
    |prefix| <= |s| && s[..|prefix|] == prefix
  }

  /** Python's `needle in hay`. */
  predicate Contains(hay: string, needle: string)
    decreases |hay|
  {
    StartsWith(hay, needle) || (|hay| > 0 && Contains(hay[1..], needle))
  }

  /** Django's `__icontains` lookup. */
  predicate IContains(hay: string, needle: string) {
    Contains(Lower(hay), Lower(needle))
  }

  predicate StartsWithAny(s: string, prefixes: seq<string>) {
    exists i :: 0 <= i < |prefixes| && StartsWith(s, prefixes[i])
  }

  predicate ContainsAny(s: string, needles: seq<string>) {
    exists i :: 0 <= i < |needles| && Contains(s, needles[i])
  }

  /** Clock readings are seconds; dates are day numbers. */
  const SecondsPerDay: int := 86400

  // ---------------------------------------------------------------------
  // Decimal columns
  // ---------------------------------------------------------------------

  /** At most two decimal places. */
  predicate TwoPlaces(x: real) {
    (x * 100.0).Floor as real == x * 100.0
  }

  /** Django's digit check for a value with at most `places` decimals:
      no more than `maxDigits - places` digits before the point. */
  predicate FitsDigits(x: real, maxDigits: nat, places: nat)
    requires places <= maxDigits
  {
    var bound := Pow10(maxDigits - places) as real;
    -bound < x < bound
  }

  function Pow10(n: nat): (p: nat)
    ensures p >= 1
  {
    if n == 0 then 1 else 10 * Pow10(n - 1)
  }

  /** What a numeric(maxDigits, 2) column stores without overflow: the value
      rounded to two places keeps at most `maxDigits - 2` digits before the
      point. From 10^k - 0.005 on the rounding carries into a new digit, and
      the write raises. */
  predicate FitsColumn(x: real, maxDigits: nat)
    requires 2 <= maxDigits
  {
    var bound := Pow10(maxDigits - 2) as real - 0.005;
    -bound < x < bound
  }

  /** A two-place value that passes the digit check is stored as it is. */
  lemma TwoPlacesFitColumn(x: real, maxDigits: nat)
    requires 2 <= maxDigits && TwoPlaces(x) && FitsDigits(x, maxDigits, 2)
    ensures FitsColumn(x, maxDigits)
  {
    var b := Pow10(maxDigits - 2);
    var n := (x * 100.0).Floor;
    assert n as real == x * 100.0;
    assert n < b * 100 by {
      assert x * 100.0 < (b * 100) as real;
    }
    assert -(b * 100) < n by {
      assert -((b * 100) as real) < x * 100.0;
    }
    assert x * 100.0 <= (b * 100 - 1) as real;
    assert (-(b * 100) + 1) as real <= x * 100.0;
  }

  // ---------------------------------------------------------------------
  // Query helpers
  // ---------------------------------------------------------------------

  /** `queryset.filter(...)` over rows in their current order. */
  function Filter<T(!new)>(s: seq<T>, keep: T -> bool): (r: seq<T>)
    ensures |r| <= |s|
    ensures forall x :: x in r <==> x in s && keep(x)
    ensures multiset(r) <= multiset(s)
  {
    if s == [] then []
    else
      assert s == [s[0]] + s[1..];
      if keep(s[0]) then [s[0]] + Filter(s[1..], keep)
      else Filter(s[1..], keep)
  }

  /** Filtering a sequence extended at the end extends the filtered one. */
  lemma {:induction false} FilterSnoc<T(!new)>(s: seq<T>, x: T, keep: T -> bool)
    ensures Filter(s + [x], keep) == Filter(s, keep) + (if keep(x) then [x] else [])
  {
    if s == [] {
      assert s + [x] == [x];
    } else {
      assert (s + [x])[1..] == s[1..] + [x];
      FilterSnoc(s[1..], x, keep);
    }
  }

  /** A filter nothing passes gives nothing. */
  lemma {:induction false} FilterNone<T(!new)>(s: seq<T>, keep: T -> bool)
    requires forall x :: !keep(x)
    ensures Filter(s, keep) == []
  {
    if s != [] {
      FilterNone(s[1..], keep);
    }
  }

  /** Counting one element at a time. */
  lemma CountCons<T(!new)>(s: seq<T>, p: T -> bool)
    requires s != []
    ensures Count(s, p) == (if p(s[0]) then 1 else 0) + Count(s[1..], p)
  {
    assert s == [s[0]] + s[1..];
  }

  /** Chained `.filter(p).filter(q)` is one filter on `p and q`. */
  lemma {:induction false} FilterFilter<T(!new)>(s: seq<T>, p: T -> bool, q: T -> bool)
    ensures Filter(Filter(s, p), q) == Filter(s, x => p(x) && q(x))
  {
    if s != [] {
      FilterFilter(s[1..], p, q);
    }
  }

  /** `queryset.count()`. */
  function Count<T(!new)>(s: seq<T>, keep: T -> bool): nat {
    |Filter(s, keep)|
  }

  /** Counting rows that satisfy a stronger condition never gives more. */
  lemma {:induction false} CountMonotone<T(!new)>(s: seq<T>, p: T -> bool, q: T -> bool)
    requires forall x :: p(x) ==> q(x)
    ensures Count(s, p) <= Count(s, q)
  {
    if s != [] {
      CountMonotone(s[1..], p, q);
    }
  }

  /** Counts of pairwise exclusive conditions add up to at most the total. */
  lemma {:induction false} CountDisjoint<T(!new)>(s: seq<T>, p: T -> bool, q: T -> bool)
    requires forall x :: !(p(x) && q(x))
    ensures Count(s, p) + Count(s, q) == Count(s, x => p(x) || q(x))
  {
    if s != [] {
      CountDisjoint(s[1..], p, q);
    }
  }

  /** Counting a condition every element meets gives the length. */
  lemma {:induction false} CountAll<T(!new)>(s: seq<T>, p: T -> bool)
    requires forall i :: 0 <= i < |s| ==> p(s[i])
    ensures Count(s, p) == |s|
  {
    if s != [] {
      CountAll(s[1..], p);
    }
  }

  predicate SortedByKey<T>(s: seq<T>, key: T -> int) {
    forall i, j :: 0 <= i < j < |s| ==> key(s[i]) <= key(s[j])
  }

  /** Filtering a sorted sequence keeps it sorted. */
  lemma {:induction false} FilterKeepsSorted<T(!new)>(s: seq<T>, keep: T -> bool, key: T -> int)
    requires SortedByKey(s, key)
    ensures SortedByKey(Filter(s, keep), key)
  {
    if s != [] {
      FilterKeepsSorted(s[1..], keep, key);
      var rest := Filter(s[1..], keep);
      if keep(s[0]) {
        forall y | y in rest ensures key(s[0]) <= key(y) {
          var i :| 0 <= i < |s[1..]| && s[1..][i] == y;
          assert s[i + 1] == y;
        }
        ConsKeepsSorted(s[0], rest, key);
      }
    }
  }

  /** Putting an element no larger than all others in front keeps a
      sequence sorted. */
  lemma ConsKeepsSorted<T>(x: T, rest: seq<T>, key: T -> int)
    requires SortedByKey(rest, key)
    requires forall y :: y in rest ==> key(x) <= key(y)
    ensures SortedByKey([x] + rest, key)
  {
    var r := [x] + rest;
    forall a, b | 0 <= a < b < |r| ensures key(r[a]) <= key(r[b]) {
      assert r[b] == rest[b - 1];
      if a == 0 {
        assert r[b] in rest;
      } else {
        assert r[a] == rest[a - 1];
      }
    }
  }

  lemma InsertKeepsSorted<T>(r: seq<T>, j: nat, x: T, key: T -> int)
    requires j <= |r| && SortedByKey(r, key)
    requires forall k :: 0 <= k < j ==> key(r[k]) <= key(x)
    requires j < |r| ==> key(x) < key(r[j])
    ensures SortedByKey(r[..j] + [x] + r[j..], key)
  {
    var t := r[..j] + [x] + r[j..];
    assert forall a :: 0 <= a < j ==> t[a] == r[a];
    assert t[j] == x;
    assert forall a :: j < a < |t| ==> t[a] == r[a - 1];
    forall a, b | 0 <= a < b < |t| ensures key(t[a]) <= key(t[b]) {
      if a < j && b > j {
        assert key(r[a]) <= key(r[b - 1]);
      } else if a == j && b > j {
        assert key(r[j]) <= key(r[b - 1]);
      } else if a > j {
        assert key(r[a - 1]) <= key(r[b - 1]);
      }
    }
  }

  lemma InsertAddsOne<T>(r: seq<T>, j: nat, x: T)
    requires j <= |r|
    ensures multiset(r[..j] + [x] + r[j..]) == multiset(r) + multiset{x}
  {
    assert r == r[..j] + r[j..];
  }

  /** The first position of sorted `r` whose key exceeds `k`. */
  method InsertionPoint<T>(r: seq<T>, key: T -> int, k: int) returns (j: nat)
    ensures j <= |r|
    ensures forall a :: 0 <= a < j ==> key(r[a]) <= k
    ensures j < |r| ==> k < key(r[j])
  {
    j := 0;
    while j < |r| && key(r[j]) <= k
      invariant j <= |r|
      invariant forall a :: 0 <= a < j ==> key(r[a]) <= k
    {
      j := j + 1;
    }
  }

  /** `order_by(key)` (ascending; pass a negated key for a descending
      order). Rows with equal keys keep their input order. */
  method SortByKey<T>(s: seq<T>, key: T -> int) returns (r: seq<T>)
    ensures multiset(r) == multiset(s)
    ensures SortedByKey(r, key)
  {
    r := [];
    var i := 0;
    while i < |s|
      invariant 0 <= i <= |s|
      invariant multiset(r) == multiset(s[..i])
      invariant SortedByKey(r, key)
    {
      var x := s[i];
      var j := InsertionPoint(r, key, key(x));
      InsertKeepsSorted(r, j, x, key);
      InsertAddsOne(r, j, x);
      r := r[..j] + [x] + r[j..];
      assert s[..i + 1] == s[..i] + [x];
      i := i + 1;
    }
    assert s[..i] == s;
  }

  /** Every element occurs at most once. */
  ghost predicate NoDuplicates<T(!new)>(s: seq<T>) {
    forall x :: multiset(s)[x] <= 1
  }

  /** Filtering never introduces a duplicate. */
  lemma FilterKeepsNoDuplicates<T(!new)>(s: seq<T>, keep: T -> bool)
    requires NoDuplicates(s)
    ensures NoDuplicates(Filter(s, keep))
  {
    var r := Filter(s, keep);
    forall x ensures multiset(r)[x] <= 1 {
      assert multiset(r)[x] <= multiset(s)[x];
    }
  }

  /** A duplicate-free sequence's head is not in its tail, which is
      duplicate-free too. */
  lemma NoDuplicatesTail<T(!new)>(l: seq<T>)
    requires NoDuplicates(l) && l != []
    ensures l[0] !in l[1..] && NoDuplicates(l[1..])
  {
    assert l == [l[0]] + l[1..];
    assert multiset(l) == multiset{l[0]} + multiset(l[1..]);
    forall x ensures multiset(l[1..])[x] <= 1 {
      assert multiset(l)[x] <= 1;
    }
    assert multiset(l)[l[0]] <= 1;
  }

  /** The elements of `l` that satisfy `p`, as a set. */
  function Selected<T(!new)>(l: seq<T>, p: T -> bool): set<T> {
    set x | x in l && p(x)
  }

  /** On a duplicate-free listing, counting is the size of the selected set. */
  lemma {:induction false} CountListed<T(!new)>(l: seq<T>, p: T -> bool)
    requires NoDuplicates(l)
    ensures Count(l, p) == |Selected(l, p)|
  {
    if l != [] {
      var rest := l[1..];
      NoDuplicatesTail(l);
      CountListed(rest, p);
      CountCons(l, p);
      if p(l[0]) {
        assert Selected(l, p) == Selected(rest, p) + {l[0]};
      } else {
        assert Selected(l, p) == Selected(rest, p);
      }
    }
  }

  /** Extending a duplicate-free prefix by one element adds an element not
      seen before, and grows the selected set by it when it is selected. */
  lemma PrefixSelectionStep<T(!new)>(l: seq<T>, i: nat, p: T -> bool)
    requires NoDuplicates(l) && i < |l|
    ensures l[i] !in l[..i]
    ensures |Selected(l[..i + 1], p)| == |Selected(l[..i], p)| + (if p(l[i]) then 1 else 0)
  {
    assert l[..i + 1] == l[..i] + [l[i]];
    assert l[i] !in l[..i] by {
      assert l == l[..i] + [l[i]] + l[i + 1..];
      assert multiset(l) == multiset(l[..i]) + multiset{l[i]} + multiset(l[i + 1..]);
      assert multiset(l)[l[i]] <= 1;
    }
    if p(l[i]) {
      assert Selected(l[..i + 1], p) == Selected(l[..i], p) + {l[i]};
    } else {
      assert Selected(l[..i + 1], p) == Selected(l[..i], p);
    }
  }

  /** A subset is never larger than its superset. */
  lemma {:induction false} SubsetCardinality<T>(a: set<T>, b: set<T>)
    requires a <= b
    ensures |a| <= |b|
  {
    if a != {} {
      var x :| x in a;
      SubsetCardinality(a - {x}, b - {x});
    }
  }

  /** Lists the elements of a finite set once each, in no particular order. */
  method ListOf<T(!new)>(xs: set<T>) returns (r: seq<T>)
    ensures forall x :: x in r <==> x in xs
    ensures |r| == |xs|
    ensures NoDuplicates(r)
  {
    r := [];
    var rest := xs;
    while rest != {}
      invariant rest <= xs
      invariant forall x :: x in r <==> x in xs - rest
      invariant |r| + |rest| == |xs|
      invariant NoDuplicates(r)
      decreases |rest|
    {
      var x :| x in rest;
      assert x !in r;
      r := r + [x];
      rest := rest - {x};
    }
  }

  /** `order_by` over a set of keys: the members of `xs`, each once, sorted. */
  method SortedListOf<T(!new)>(xs: set<T>, key: T -> int) returns (r: seq<T>)
    ensures forall x :: x in r <==> x in xs
    ensures NoDuplicates(r)
    ensures SortedByKey(r, key)
  {
    var l := ListOf(xs);
    r := SortByKey(l, key);
    assert forall x :: x in r <==> x in multiset(l);
  }
}
