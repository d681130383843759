/**
 * The route search of the routes page: keep the routes with a stop that
 * contains the query (case-insensitively), then order them by demand level
 * and, within one level, by the number of active shuttles, both descending,
 * with a stable sort.
 */
module RouteSearch {
  import opened Wrappers
  import opened Text

  /** The three demand levels a route can carry. */
  datatype Demand = High | Medium | Low

  /** A route as the backend lists it. */
  datatype Route = Route(
    id: Option<string>,
    name: string,
    stops: seq<string>,
    peakHours: string,
    demand: Demand,
    activeShuttles: int)

  /** The `demandOrder` table. */
  function Rank(d: Demand): (r: int)
    ensures 1 <= r <= 3
  {
    match d
    case High => 3
    case Medium => 2
    case Low => 1
  }

  /**
   * The sort comparator: negative when `a` belongs before `b`, positive when
   * after, zero on a tie. The rank difference is used unless it is zero
   * (JavaScript's `||` on numbers), then the shuttle-count difference.
   */
  function Compare(a: Route, b: Route): int {
    var byDemand := Rank(b.demand) - Rank(a.demand);
    if byDemand != 0 then byDemand else b.activeShuttles - a.activeShuttles
  }

  /**
   * What the comparator decides: `a` goes first exactly when it has higher
   * demand, or equal demand and more shuttles; the two tie exactly when both
   * keys are equal; swapping the arguments flips the sign.
   */
  lemma CompareMeaning(a: Route, b: Route)
    ensures Compare(a, b) < 0 <==>
      || Rank(a.demand) > Rank(b.demand)
      || (Rank(a.demand) == Rank(b.demand) && a.activeShuttles > b.activeShuttles)
    ensures Compare(a, b) == 0 <==> Key(a) == Key(b)
    ensures Compare(a, b) == -Compare(b, a)
  {
  }

  /** The pair of sort keys; two routes tie under `Compare` exactly when their keys are equal. */
  function Key(r: Route): (int, int) {
    (Rank(r.demand), r.activeShuttles)
  }

  // ---------------------------------------------------------------- matching

  /** The route has a stop whose lower-case form contains the lower-case query. */
  predicate Matches(r: Route, query: string) {
    exists stop | stop in r.stops :: Contains(Lower(stop), Lower(query))
  }

  /** `routes.filter(route => Matches(route, query))`. */
  function FilterMatching(routes: seq<Route>, query: string): (r: seq<Route>)
    ensures |r| <= |routes|
  {
    if routes == [] then []
    else
      var rest := FilterMatching(routes[1..], query);
      if Matches(routes[0], query) then [routes[0]] + rest else rest
  }

  /**
   * The filter keeps every matching route, as many times as it occurs, and
   * nothing else.
   */
  lemma {:induction false} FilterMatchingCount(routes: seq<Route>, query: string, x: Route)
    ensures multiset(FilterMatching(routes, query))[x]
         == if Matches(x, query) then multiset(routes)[x] else 0
  {
    if routes != [] {
      FilterMatchingCount(routes[1..], query, x);
      assert routes == [routes[0]] + routes[1..];
    }
  }

  /** Soundness and completeness of the filter. */
  lemma FilterMatchingMembers(routes: seq<Route>, query: string, x: Route)
    ensures x in FilterMatching(routes, query) <==> x in routes && Matches(x, query)
  {
    FilterMatchingCount(routes, query, x);
    assert x in routes <==> x in multiset(routes);
    assert x in FilterMatching(routes, query) <==> x in multiset(FilterMatching(routes, query));
  }

  /** The routes of `routes` whose sort key is `k`, in their order. */
  function WithKey(routes: seq<Route>, k: (int, int)): seq<Route> {
    if routes == [] then []
    else (if Key(routes[0]) == k then [routes[0]] else []) + WithKey(routes[1..], k)
  }

  // ---------------------------------------------------------------- ordering

  /** Every route is placed no later than the comparator allows. */
  predicate Sorted(s: seq<Route>) {
    forall i, j :: 0 <= i < j < |s| ==> Compare(s[i], s[j]) <= 0
  }

  /**
   * One step of the insertion sort: `x`, arriving after everything in
   * `sorted`, moves in front of the routes that the comparator puts after it
   * and stays behind all the others, ties included.
   */
  function InsertLast(sorted: seq<Route>, x: Route): (r: seq<Route>)
    ensures |r| == |sorted| + 1
  {
    if sorted == [] then [x]
    else
      var last := sorted[|sorted| - 1];
      if Compare(last, x) > 0 then InsertLast(sorted[..|sorted| - 1], x) + [last] else sorted + [x]
  }

  /** Insertion adds `x` and loses nothing. */
  lemma {:induction false} InsertLastPermutes(sorted: seq<Route>, x: Route)
    ensures multiset(InsertLast(sorted, x)) == multiset(sorted) + multiset{x}
  {
    if sorted != [] {
      var last := sorted[|sorted| - 1];
      var init := sorted[..|sorted| - 1];
      assert sorted == init + [last];
      if Compare(last, x) > 0 {
        InsertLastPermutes(init, x);
      }
    }
  }

  /** The comparator's "no later than" is transitive. */
  lemma CompareTransitive(a: Route, b: Route, c: Route)
    requires Compare(a, b) <= 0 && Compare(b, c) <= 0
    ensures Compare(a, c) <= 0
  {
    CompareMeaning(a, b);
    CompareMeaning(b, c);
    CompareMeaning(a, c);
  }

  /** A route that belongs no earlier than every route of a sorted list can follow it. */
  lemma AppendSorted(s: seq<Route>, y: Route)
    requires Sorted(s)
    requires forall i :: 0 <= i < |s| ==> Compare(s[i], y) <= 0
    ensures Sorted(s + [y])
  {
    var r := s + [y];
    forall i, j | 0 <= i < j < |r| ensures Compare(r[i], r[j]) <= 0 {
      if j < |s| {
        assert r[i] == s[i] && r[j] == s[j];
      } else {
        assert r[i] == s[i] && r[j] == y;
      }
    }
  }

  /** Inserting into a sorted sequence keeps it sorted. */
  lemma {:induction false} InsertLastSorted(sorted: seq<Route>, x: Route)
    requires Sorted(sorted)
    ensures Sorted(InsertLast(sorted, x))
  {
    if sorted != [] {
      var last := sorted[|sorted| - 1];
      var init := sorted[..|sorted| - 1];
      if Compare(last, x) > 0 {
        SortedPrefix(sorted, |sorted| - 1);
        InsertLastSorted(init, x);
        InsertLastPermutes(init, x);
        var front := InsertLast(init, x);
        CompareMeaning(last, x);
        forall i | 0 <= i < |front| ensures Compare(front[i], last) <= 0 {
          assert front[i] in multiset(front);
          if front[i] != x {
            assert front[i] in multiset(init);
            var k :| 0 <= k < |init| && init[k] == front[i];
            assert sorted[k] == init[k];
          }
        }
        AppendSorted(front, last);
      } else {
        forall i | 0 <= i < |sorted| ensures Compare(sorted[i], x) <= 0 {
          if i < |sorted| - 1 {
            CompareTransitive(sorted[i], last, x);
          }
        }
        AppendSorted(sorted, x);
      }
    }
  }

  /** The order `Array.prototype.sort` produces with the comparator: a stable insertion sort. */
  function StableSort(s: seq<Route>): (r: seq<Route>)
    ensures |r| == |s|
  {
    if s == [] then [] else InsertLast(StableSort(s[..|s| - 1]), s[|s| - 1])
  }

  /** The sort's output is a permutation of its input. */
  lemma {:induction false} StableSortPermutes(s: seq<Route>)
    ensures multiset(StableSort(s)) == multiset(s)
  {
    if s != [] {
      StableSortPermutes(s[..|s| - 1]);
      InsertLastPermutes(StableSort(s[..|s| - 1]), s[|s| - 1]);
      assert s == s[..|s| - 1] + [s[|s| - 1]];
    }
  }

  /** The sort's output is ordered by the comparator. */
  lemma {:induction false} StableSortSorted(s: seq<Route>)
    ensures Sorted(StableSort(s))
  {
    if s != [] {
      StableSortSorted(s[..|s| - 1]);
      InsertLastSorted(StableSort(s[..|s| - 1]), s[|s| - 1]);
    }
  }

  // ---------------------------------------------------------------- stability

  /** Selecting one key distributes over concatenation. */
  lemma {:induction false} WithKeyAppend(a: seq<Route>, b: seq<Route>, k: (int, int))
    ensures WithKey(a + b, k) == WithKey(a, k) + WithKey(b, k)
  {
    if a == [] {
      assert a + b == b;
    } else {
      WithKeyAppend(a[1..], b, k);
      WithKeyCons(a[0], a[1..] + b, k);
      WithKeyCons(a[0], a[1..], k);
      assert a + b == [a[0]] + (a[1..] + b);
      assert a == [a[0]] + a[1..];
    }
  }

  /** Selecting one key from a list with a given first route. */
  lemma WithKeyCons(h: Route, rest: seq<Route>, k: (int, int))
    ensures WithKey([h] + rest, k) == (if Key(h) == k then [h] else []) + WithKey(rest, k)
  {
    assert ([h] + rest)[0] == h && ([h] + rest)[1..] == rest;
  }

  /** `x` lands behind every route of its own key already in `sorted`. */
  lemma {:induction false} InsertLastStable(sorted: seq<Route>, x: Route, k: (int, int))
    ensures WithKey(InsertLast(sorted, x), k) == WithKey(sorted, k) + WithKey([x], k)
  {
    if sorted == [] {
      assert WithKey([], k) == [];
    } else {
      var last := sorted[|sorted| - 1];
      var init := sorted[..|sorted| - 1];
      assert sorted == init + [last];
      WithKeyAppend(init, [last], k);
      if Compare(last, x) > 0 {
        InsertLastStable(init, x, k);
        WithKeyAppend(InsertLast(init, x), [last], k);
        // `last` and `x` have different keys, so at most one of them is selected
        CompareMeaning(last, x);
        assert WithKey([x], k) == [] || WithKey([last], k) == [];
      } else {
        WithKeyAppend(sorted, [x], k);
      }
    }
  }

  /** Stability: the routes sharing a key keep their relative order. */
  lemma {:induction false} StableSortStable(s: seq<Route>, k: (int, int))
    ensures WithKey(StableSort(s), k) == WithKey(s, k)
  {
    if s != [] {
      var init := s[..|s| - 1];
      StableSortStable(init, k);
      InsertLastStable(StableSort(init), s[|s| - 1], k);
      assert s == init + [s[|s| - 1]];
      WithKeyAppend(init, [s[|s| - 1]], k);
    }
  }

  /** Filtering by the query and selecting one key can be done in either order. */
  lemma {:induction false} FilterWithKey(routes: seq<Route>, query: string, k: (int, int))
    ensures WithKey(FilterMatching(routes, query), k) == FilterMatching(WithKey(routes, k), query)
  {
    if routes != [] {
      var x, tail := routes[0], routes[1..];
      FilterWithKey(tail, query, k);
      var rest := FilterMatching(tail, query);
      var w := WithKey(tail, k);
      if Matches(x, query) {
        WithKeyAppend([x], rest, k);
      }
      if Key(x) == k {
        assert WithKey(routes, k) == [x] + w;
        assert ([x] + w)[0] == x && ([x] + w)[1..] == w;
      } else {
        assert WithKey(routes, k) == [] + w == w;
      }
    }
  }

  /** A route is among those of its own key exactly when it is in the list. */
  lemma {:induction false} WithKeyMember(s: seq<Route>, x: Route)
    ensures x in WithKey(s, Key(x)) <==> x in s
  {
    if s != [] {
      WithKeyMember(s[1..], x);
      assert s == [s[0]] + s[1..];
    }
  }

  /** Dropping the last route removes it from its own key's list and leaves the other lists alone. */
  lemma WithKeyDropLast(s: seq<Route>, k: (int, int))
    requires s != []
    ensures WithKey(s, k) == WithKey(s[..|s| - 1], k) + (if Key(s[|s| - 1]) == k then [s[|s| - 1]] else [])
  {
    var last := s[|s| - 1];
    assert s == s[..|s| - 1] + [last];
    WithKeyAppend(s[..|s| - 1], [last], k);
    assert WithKey([last], k) == (if Key(last) == k then [last] else []) + WithKey([], k);
  }

  /** In a sorted list nothing belongs after the last route. */
  lemma SortedLast(u: seq<Route>, y: Route)
    requires Sorted(u) && y in u
    ensures Compare(y, u[|u| - 1]) <= 0
  {
    var i :| 0 <= i < |u| && u[i] == y;
  }

  /** The two lists hold the same routes under every key, in the same order. */
  ghost predicate SameKeyLists(t: seq<Route>, u: seq<Route>) {
    forall k :: WithKey(t, k) == WithKey(u, k)
  }

  /** Two sorted lists that agree on every key's list end with routes of the same key. */
  lemma SortedLastKeys(t: seq<Route>, u: seq<Route>)
    requires Sorted(t) && Sorted(u) && t != [] && u != []
    requires SameKeyLists(t, u)
    ensures Key(t[|t| - 1]) == Key(u[|u| - 1])
  {
    var y, z := t[|t| - 1], u[|u| - 1];
    WithKeyMember(t, y);
    WithKeyMember(u, y);
    SortedLast(u, y);
    WithKeyMember(t, z);
    WithKeyMember(u, z);
    SortedLast(t, z);
    CompareMeaning(y, z);
  }

  /**
   * Two sorted lists that agree on every key's list end with the same route,
   * and still agree once that route is dropped.
   */
  lemma SortedSameLast(t: seq<Route>, u: seq<Route>)
    requires Sorted(t) && Sorted(u) && t != [] && u != []
    requires SameKeyLists(t, u)
    ensures t[|t| - 1] == u[|u| - 1]
    ensures SameKeyLists(t[..|t| - 1], u[..|u| - 1])
  {
    SortedLastKeys(t, u);
    var y, z := t[|t| - 1], u[|u| - 1];
    var t', u' := t[..|t| - 1], u[..|u| - 1];
    WithKeyDropLast(t, Key(y));
    WithKeyDropLast(u, Key(y));
    var common := WithKey(t, Key(y));
    assert common == WithKey(u, Key(y));
    assert common[|common| - 1] == y && common[|common| - 1] == z;
    forall k ensures WithKey(t', k) == WithKey(u', k) {
      WithKeyDropLast(t, k);
      WithKeyDropLast(u, k);
      var a, b := WithKey(t', k), WithKey(u', k);
      var tail: seq<Route> := if Key(y) == k then [y] else [];
      assert a + tail == b + tail;
      assert a == (a + tail)[..|a|] && b == (b + tail)[..|b|];
    }
  }

  /**
   * A sorted list is determined by its per-key lists: two sorted lists that
   * agree on the routes of every key, in order, are equal.
   */
  lemma {:induction false} SortedUnique(t: seq<Route>, u: seq<Route>)
    requires Sorted(t) && Sorted(u)
    requires SameKeyLists(t, u)
    ensures t == u
    decreases |t| + |u|
  {
    if t == [] || u == [] {
      // the non-empty one would have a route of some key that the empty one lacks
      if t != [] {
        var x := t[0];
        WithKeyMember(t, x);
      } else if u != [] {
        var x := u[0];
        WithKeyMember(u, x);
      }
    } else {
      SortedSameLast(t, u);
      SortedPrefix(t, |t| - 1);
      SortedPrefix(u, |u| - 1);
      SortedUnique(t[..|t| - 1], u[..|u| - 1]);
      assert t == t[..|t| - 1] + [t[|t| - 1]];
      assert u == u[..|u| - 1] + [u[|u| - 1]];
    }
  }

  /**
   * `StableSort` is the only stable order: any sorted list that keeps the
   * routes of each key in their input order is `StableSort` of the input.
   */
  lemma StableSortUnique(s: seq<Route>, t: seq<Route>)
    requires Sorted(t)
    requires forall k :: WithKey(t, k) == WithKey(s, k)
    ensures t == StableSort(s)
  {
    StableSortSorted(s);
    forall k ensures WithKey(t, k) == WithKey(StableSort(s), k) {
      StableSortStable(s, k);
    }
    SortedUnique(t, StableSort(s));
  }

  // ---------------------------------------------------------------- fixed points

  /** Filtering a list whose routes all match keeps it as it is. */
  lemma {:induction false} FilterAllMatching(routes: seq<Route>, query: string)
    requires forall x :: x in routes ==> Matches(x, query)
    ensures FilterMatching(routes, query) == routes
  {
    if routes != [] {
      FilterAllMatching(routes[1..], query);
      assert routes == [routes[0]] + routes[1..];
    }
  }

  /** `x` stays at the back when nothing in `sorted[..j]` belongs after it. */
  lemma InsertLastStop(sorted: seq<Route>, x: Route, j: nat)
    requires j <= |sorted|
    requires j == 0 || Compare(sorted[j - 1], x) <= 0
    ensures InsertLast(sorted[..j], x) == sorted[..j] + [x]
  {
    if j > 0 {
      assert sorted[..j][j - 1] == sorted[j - 1];
    }
  }

  /**
   * Where insertion puts `x`: right after `sorted[..j]` when the routes of
   * `sorted[j..]` all belong after `x` and `sorted[j - 1]` does not.
   */
  lemma {:induction false} InsertLastAt(sorted: seq<Route>, x: Route, j: nat)
    requires j <= |sorted|
    requires j == 0 || Compare(sorted[j - 1], x) <= 0
    requires forall k :: j <= k < |sorted| ==> Compare(sorted[k], x) > 0
    ensures InsertLast(sorted, x) == sorted[..j] + [x] + sorted[j..]
  {
    if j == |sorted| {
      InsertLastStop(sorted, x, j);
      assert sorted[..j] == sorted && sorted[j..] == [];
    } else {
      var n := |sorted| - 1;
      var init := sorted[..n];
      assert Compare(sorted[n], x) > 0;
      if j > 0 {
        assert init[j - 1] == sorted[j - 1];
      }
      InsertLastAt(init, x, j);
      assert init[..j] == sorted[..j];
      assert init[j..] + [sorted[n]] == sorted[j..];
    }
  }

  /** Sorting a longer prefix inserts the next route into the sorted shorter prefix. */
  lemma StableSortPrefix(s: seq<Route>, i: nat)
    requires i < |s|
    ensures StableSort(s[..i + 1]) == InsertLast(StableSort(s[..i]), s[i])
  {
    assert s[..i + 1][..i] == s[..i];
  }

  /** A prefix of a sorted list is sorted. */
  lemma SortedPrefix(s: seq<Route>, n: nat)
    requires Sorted(s) && n <= |s|
    ensures Sorted(s[..n])
  {
    var p := s[..n];
    forall i, j | 0 <= i < j < |p| ensures Compare(p[i], p[j]) <= 0 {
      assert p[i] == s[i] && p[j] == s[j];
    }
  }

  /** Sorting an already sorted list keeps it as it is: each insertion stays at the back. */
  lemma {:induction false} StableSortOfSorted(s: seq<Route>)
    requires Sorted(s)
    ensures StableSort(s) == s
  {
    if s != [] {
      var n := |s| - 1;
      SortedPrefix(s, n);
      StableSortOfSorted(s[..n]);
      StableSortPrefix(s, n);
      assert n == 0 || Compare(s[n - 1], s[n]) <= 0;
      InsertLastStop(s, s[n], n);
      assert s[..n + 1] == s;
    }
  }

  // ---------------------------------------------------------------- the search

  /** What `searchRoutes` stores as the filtered routes for `query` over the fetched `routes`. */
  function Search(query: string, routes: seq<Route>): (r: seq<Route>)
    ensures query == "" ==> r == []
  {
    if query == "" then [] else StableSort(FilterMatching(routes, query))
  }

  /** The result is a permutation of the matching routes: nothing added, dropped or duplicated. */
  lemma SearchPermutes(query: string, routes: seq<Route>)
    requires query != ""
    ensures multiset(Search(query, routes)) == multiset(FilterMatching(routes, query))
  {
    StableSortPermutes(FilterMatching(routes, query));
  }

  /**
   * Soundness and completeness: a route is in the result exactly when the query
   * is non-empty and the route is one of `routes` with a matching stop; and it
   * is there as many times as in `routes`.
   */
  lemma SearchMembers(query: string, routes: seq<Route>, x: Route)
    ensures x in Search(query, routes) <==> query != "" && x in routes && Matches(x, query)
    ensures query != "" ==>
      multiset(Search(query, routes))[x] == if Matches(x, query) then multiset(routes)[x] else 0
  {
    if query != "" {
      SearchPermutes(query, routes);
      FilterMatchingCount(routes, query, x);
      FilterMatchingMembers(routes, query, x);
      assert x in Search(query, routes) <==> x in multiset(Search(query, routes));
      assert x in FilterMatching(routes, query) <==> x in multiset(FilterMatching(routes, query));
    }
  }

  /**
   * The result is ordered: a route of higher demand comes before one of lower
   * demand, and within one demand level the shuttle counts never increase.
   */
  lemma SearchOrdered(query: string, routes: seq<Route>)
    ensures forall i, j :: 0 <= i < j < |Search(query, routes)| ==>
      var r := Search(query, routes);
      && Rank(r[i].demand) >= Rank(r[j].demand)
      && (r[i].demand == r[j].demand ==> r[i].activeShuttles >= r[j].activeShuttles)
  {
    if query != "" {
      var r := Search(query, routes);
      StableSortSorted(FilterMatching(routes, query));
      forall i, j | 0 <= i < j < |r| ensures Rank(r[i].demand) >= Rank(r[j].demand) {
        CompareMeaning(r[i], r[j]);
      }
    }
  }

  /**
   * Routes that tie on both keys keep the order they had in `routes`: for each
   * key, the result lists exactly the matching routes with that key, in input order.
   */
  lemma SearchStable(query: string, routes: seq<Route>, k: (int, int))
    requires query != ""
    ensures WithKey(Search(query, routes), k) == FilterMatching(WithKey(routes, k), query)
  {
    StableSortStable(FilterMatching(routes, query), k);
    FilterWithKey(routes, query, k);
  }

  /** Searching the search result again with the same query changes nothing. */
  lemma SearchIdempotent(query: string, routes: seq<Route>)
    ensures Search(query, Search(query, routes)) == Search(query, routes)
  {
    if query != "" {
      var r := Search(query, routes);
      forall x | x in r ensures Matches(x, query) {
        SearchMembers(query, routes, x);
      }
      FilterAllMatching(r, query);
      StableSortSorted(FilterMatching(routes, query));
      StableSortOfSorted(r);
    }
  }

  // ---------------------------------------------------------------- the imperative search

  /** The array after a pass, read as a sequence: the shifted routes with `x` in the gap. */
  lemma Placed(before: seq<Route>, after: seq<Route>, i: nat, j: nat, x: Route)
    requires j <= i < |before| == |after|
    requires forall k :: 0 <= k < j ==> after[k] == before[k]
    requires after[j] == x
    requires forall k :: j < k <= i ==> after[k] == before[k - 1]
    requires forall k :: i < k < |after| ==> after[k] == before[k]
    ensures after[..i + 1] == before[..i][..j] + [x] + before[..i][j..]
    ensures after[i + 1..] == before[i + 1..]
  {
    var placed := before[..i][..j] + [x] + before[..i][j..];
    forall k | 0 <= k <= i ensures after[k] == placed[k] {
      if k < j {
        assert placed[k] == before[k];
      } else if j < k {
        assert placed[k] == before[..i][j..][k - j - 1];
      }
    }
  }

  /**
   * One pass of the insertion sort: `a[i]` moves left past the routes of
   * `a[..i]` that the comparator puts after it; `a[i + 1..]` is untouched.
   */
  method InsertInPlace(a: array<Route>, i: nat)
    requires i < a.Length
    modifies a
    ensures a[..i + 1] == InsertLast(old(a[..i]), old(a[i]))
    ensures a[i + 1..] == old(a[i + 1..])
  {
    ghost var before := a[..];
    var x := a[i];
    var j := i;
    while j > 0 && Compare(a[j - 1], x) > 0
      invariant 0 <= j <= i
      invariant forall k :: 0 <= k < j ==> a[k] == before[k]
      invariant forall k :: j < k <= i ==> a[k] == before[k - 1]
      invariant forall k :: i < k < a.Length ==> a[k] == before[k]
      invariant forall k :: j <= k < i ==> Compare(before[k], x) > 0
    {
      a[j] := a[j - 1];
      j := j - 1;
    }
    a[j] := x;
    InsertLastAt(before[..i], x, j);
    Placed(before, a[..], i, j, x);
  }

  /** `matchedRoutes.sort(comparator)`: insertion sort in place. */
  method SortInPlace(a: array<Route>)
    modifies a
    ensures a[..] == StableSort(old(a[..]))
  {
    ghost var input := a[..];
    var i := 0;
    while i < a.Length
      invariant 0 <= i <= a.Length
      invariant a[..i] == StableSort(input[..i])
      invariant a[i..] == input[i..]
    {
      assert a[i] == input[i];
      InsertInPlace(a, i);
      StableSortPrefix(input, i);
      i := i + 1;
    }
    assert input[..a.Length] == input;
  }

  /** `searchRoutes`: an empty query clears the list; otherwise filter into a new array and sort it. */
  method SearchRoutes(query: string, routes: seq<Route>) returns (result: seq<Route>)
    ensures result == Search(query, routes)
    ensures forall x :: x in result <==> query != "" && x in routes && Matches(x, query)
    ensures Sorted(result)
  {
    if query == "" {
      return [];
    }
    var matched := FilterMatching(routes, query);
    var a := new Route[|matched|](i requires 0 <= i < |matched| => matched[i]);
    assert a[..] == matched;
    SortInPlace(a);
    result := a[..];
    forall x ensures x in result <==> x in routes && Matches(x, query) {
      SearchMembers(query, routes, x);
    }
    StableSortSorted(matched);
  }

  /** The two routes of the worked case: a low-demand route with stops "Gate1" and "Lib", and a high-demand one with "Gate1". */
  function ScenarioA(): Route { Route(None, "A", ["Gate1", "Lib"], "", Low, 2) }
  function ScenarioB(): Route { Route(None, "B", ["Gate1"], "", High, 1) }

  /** "lib" does not occur in "gate1". */
  lemma NoLibInGate()
    ensures !Contains("gate1", "lib")
  {
    assert "gate1"[1..] == "ate1" && "ate1"[1..] == "te1" && "te1"[1..] == "e1" && "e1"[1..] == "1";
    assert "1"[1..] == "";
    assert !Contains("", "lib");
    assert !Contains("1", "lib");
    assert !Contains("e1", "lib");
    assert "lib"[0] != "te1"[0] && "lib"[0] != "ate1"[0] && "lib"[0] != "gate1"[0];
    assert !Contains("te1", "lib");
    assert !Contains("ate1", "lib");
  }

  /** A worked case: "Gate1" matches both routes, and the high-demand one comes first. */
  lemma GateScenario()
    ensures Search("Gate1", [ScenarioA(), ScenarioB()]) == [ScenarioB(), ScenarioA()]
  {
    var a, b := ScenarioA(), ScenarioB();
    assert Lower("Gate1") == "gate1";
    assert Contains("gate1", "gate1");
    assert Matches(a, "Gate1") && Matches(b, "Gate1");
    assert FilterMatching([a, b], "Gate1") == [a, b];
    assert [a, b][..1] == [a] && [a][..0] == [];
    assert Compare(a, b) > 0;
    assert InsertLast([a], b) == [b, a];
  }

  /** A worked case: the lower-case query "lib" finds the stop "Lib" and nothing else. */
  lemma LibScenario()
    ensures Search("lib", [ScenarioA(), ScenarioB()]) == [ScenarioA()]
  {
    var a, b := ScenarioA(), ScenarioB();
    assert Lower("Gate1") == "gate1";
    assert Lower("Lib") == "lib" && Lower("lib") == "lib";
    assert Contains("lib", "lib");
    NoLibInGate();
    assert Matches(a, "lib") && !Matches(b, "lib");
    assert FilterMatching([a, b], "lib") == [a];
    assert StableSort([a]) == [a];
  }
}
