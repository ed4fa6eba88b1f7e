/**
 * The two figures `main` of `Multicover/multicover.py` derives from a solve:
 * the total cost of the selection and the scarcity list, the elements whose
 * availability is below the requirement, in sorted order.
 */
module Report {

  /** `sum(costs[i] for i in C_indices)`. */
  function TotalCost(costs: seq<int>, chosen: seq<nat>): int
    requires forall k :: 0 <= k < |chosen| ==> chosen[k] < |costs|
    decreases |chosen|
  {
    if chosen == [] then 0
    else TotalCost(costs, chosen[..|chosen| - 1]) + costs[chosen[|chosen| - 1]]
  }

  /** The total cost of two selections in a row is the sum of their totals. */
  lemma {:induction false} TotalCostAppend(costs: seq<int>, a: seq<nat>, b: seq<nat>)
    requires forall k :: 0 <= k < |a| ==> a[k] < |costs|
    requires forall k :: 0 <= k < |b| ==> b[k] < |costs|
    ensures TotalCost(costs, a + b) == TotalCost(costs, a) + TotalCost(costs, b)
    decreases |b|
  {
    if b == [] {
      assert a + b == a;
    } else {
      var b' := b[..|b| - 1];
      TotalCostAppend(costs, a, b');
      assert (a + b)[..|a + b| - 1] == a + b';
    }
  }

  /** With every cost at least 1, the total is at least the number of selections. */
  lemma {:induction false} TotalCostAtLeastCount(costs: seq<int>, chosen: seq<nat>)
    requires forall i :: 0 <= i < |costs| ==> costs[i] >= 1
    requires forall k :: 0 <= k < |chosen| ==> chosen[k] < |costs|
    ensures TotalCost(costs, chosen) >= |chosen|
    decreases |chosen|
  {
    if chosen != [] {
      TotalCostAtLeastCount(costs, chosen[..|chosen| - 1]);
    }
  }

  lemma {:induction false} HasLeast(us: set<char>)
    requires us != {}
    ensures exists m :: m in us && forall x :: x in us ==> m <= x
    decreases us
  {
    var y :| y in us;
    if us - {y} != {} {
      HasLeast(us - {y});
      var m :| m in us - {y} && forall x :: x in us - {y} ==> m <= x;
      var least := if y < m then y else m;
      forall x | x in us
        ensures least <= x
      {
        if x != y {
          assert x in us - {y};
        }
      }
      assert least in us;
    } else {
      forall x | x in us
        ensures y <= x
      {
        assert x == y || x in us - {y};
      }
    }
  }

  /** The least element of a non-empty set of characters. */
  function Least(us: set<char>): (m: char)
    requires us != {}
    ensures m in us && forall x :: x in us ==> m <= x
  {
    HasLeast(us);
    var m :| m in us && forall x :: x in us ==> m <= x;
    m
  }

  /** `sorted(U)`: the elements of a set of characters in ascending order. */
  function SortedChars(us: set<char>): (s: seq<char>)
    ensures |s| == |us|
    decreases us
  {
    if us == {} then [] else [Least(us)] + SortedChars(us - {Least(us)})
  }

  predicate StrictlyIncreasing(s: seq<char>) {
    forall k, l :: 0 <= k < l < |s| ==> s[k] < s[l]
  }

  /** `sorted(U)` lists every element of `U` and nothing else, once each. */
  lemma {:induction false} SortedCharsMembers(us: set<char>)
    ensures forall c :: c in SortedChars(us) <==> c in us
    ensures |SortedChars(us)| == |us|
    decreases us
  {
    if us != {} {
      SortedCharsMembers(us - {Least(us)});
    }
  }

  /** `sorted(U)` is in strictly ascending order. */
  lemma {:induction false} SortedCharsOrdered(us: set<char>)
    ensures StrictlyIncreasing(SortedChars(us))
    decreases us
  {
    if us != {} {
      var m := Least(us);
      var rest := SortedChars(us - {m});
      SortedCharsOrdered(us - {m});
      SortedCharsMembers(us - {m});
      var s := [m] + rest;
      forall k, l | 0 <= k < l < |s|
        ensures s[k] < s[l]
      {
        if k == 0 {
          assert s[l] == rest[l - 1] && s[l] in rest;
        } else {
          assert s[k] == rest[k - 1] && s[l] == rest[l - 1];
        }
      }
    }
  }

  /** The entries `(u, avail[u])` of the elements of `s` whose availability is below `r`, in the order of `s`. */
  function ScarceFrom(s: seq<char>, avail: map<char, int>, r: int): (entries: seq<(char, int)>)
    requires forall k :: 0 <= k < |s| ==> s[k] in avail
    ensures |entries| <= |s|
    decreases |s|
  {
    if s == [] then []
    else (if avail[s[0]] < r then [(s[0], avail[s[0]])] else []) + ScarceFrom(s[1..], avail, r)
  }

  /** `[(u, avail[u]) for u in sorted(U) if avail[u] < r]`. */
  function Scarce(universe: set<char>, avail: map<char, int>, r: int): (entries: seq<(char, int)>)
    requires universe <= avail.Keys
    ensures |entries| <= |universe|
  {
    SortedCharsMembers(universe);
    ScarceFrom(SortedChars(universe), avail, r)
  }

  lemma {:induction false} ScarceFromMembers(s: seq<char>, avail: map<char, int>, r: int)
    requires forall k :: 0 <= k < |s| ==> s[k] in avail
    ensures forall p :: p in ScarceFrom(s, avail, r) ==> p.0 in s && avail[p.0] < r && p.1 == avail[p.0]
    ensures forall u :: u in s && avail[u] < r ==> (u, avail[u]) in ScarceFrom(s, avail, r)
    decreases |s|
  {
    if s != [] {
      ScarceFromMembers(s[1..], avail, r);
      assert forall u :: u in s <==> u == s[0] || u in s[1..];
    }
  }

  lemma {:induction false} ScarceFromOrdered(s: seq<char>, avail: map<char, int>, r: int)
    requires forall k :: 0 <= k < |s| ==> s[k] in avail
    requires StrictlyIncreasing(s)
    ensures forall k, l :: 0 <= k < l < |ScarceFrom(s, avail, r)| ==> ScarceFrom(s, avail, r)[k].0 < ScarceFrom(s, avail, r)[l].0
    decreases |s|
  {
    if s != [] {
      var tail := s[1..];
      assert StrictlyIncreasing(tail);
      ScarceFromOrdered(tail, avail, r);
      ScarceFromMembers(tail, avail, r);
      var rest := ScarceFrom(tail, avail, r);
      forall k | 0 <= k < |rest|
        ensures s[0] < rest[k].0
      {
        var p := rest[k];
        assert p in rest;
        var i :| 0 <= i < |tail| && tail[i] == p.0;
        assert tail[i] == s[i + 1];
      }
    }
  }

  /**
   * The scarcity list names exactly the elements of the universe whose
   * availability is below the requirement, each with its availability, in
   * strictly ascending order (so each at most once).
   */
  lemma ScarceSpec(universe: set<char>, avail: map<char, int>, r: int)
    requires universe <= avail.Keys
    ensures forall p :: p in Scarce(universe, avail, r) ==> p.0 in universe && avail[p.0] < r && p.1 == avail[p.0]
    ensures forall u :: u in universe && avail[u] < r ==> (u, avail[u]) in Scarce(universe, avail, r)
    ensures forall k, l :: 0 <= k < l < |Scarce(universe, avail, r)| ==>
              Scarce(universe, avail, r)[k].0 < Scarce(universe, avail, r)[l].0
  {
    SortedCharsMembers(universe);
    SortedCharsOrdered(universe);
    ScarceFromMembers(SortedChars(universe), avail, r);
    ScarceFromOrdered(SortedChars(universe), avail, r);
  }
}
