/**
 * `greedy_weighted_multicover` of `Multicover/multicover.py`: repeatedly picks
 * the unselected material with the best ratio of still-needed elements to
 * cost, until every need is met or no material helps any more.
 *
 * The source compares floating-point scores `gain / cost`; here two scores are
 * compared exactly, `g1 / c1 > g2 / c2` as `g1 * c2 > g2 * c1` (costs are
 * positive). The set `remaining = set(range(m))` is scanned in ascending index
 * order, so it is modelled as an ascending sequence of indices.
 */
module Greedy {
  import opened Wrappers
  import opened Catalog
  import opened Seqs

  function Min(a: int, b: int): int {
    if a <= b then a else b
  }

  /** The elements of `s` that are still needed. */
  ghost function Needed(s: set<char>, need: map<char, int>): set<char> {
    set u | u in s && u in need && need[u] > 0
  }

  /** The gain of a material: how many still-needed elements it covers. */
  ghost function Gain(s: set<char>, need: map<char, int>): nat {
    |Needed(s, need)|
  }

  /**
   * The need left for an element whose need started at `init`, once `c`
   * selected materials have covered it: each exposure lowers a positive need
   * by one and a need that is not positive never changes.
   */
  function NeedAfter(init: int, c: nat): (n: int)
    ensures init >= 0 ==> 0 <= n <= init
    ensures init >= 0 ==> (n == 0 <==> c >= init)
    ensures init <= 0 ==> n == init
  {
    if init <= 0 then init else if c >= init then 0 else init - c
  }

  /** `need[u] = min(r, avail[u])` at the start of a solve. */
  ghost function InitialNeed(universe: set<char>, avail: map<char, int>, r: int): map<char, int> {
    map u | u in universe && u in avail :: Min(r, avail[u])
  }

  /** The selected materials that contain `u`. */
  ghost function Covered(sets_: seq<set<char>>, chosen: seq<nat>, u: char): set<nat> {
    set i | i in chosen && i < |sets_| && u in sets_[i]
  }

  /** The need map once the materials `chosen` have been selected. */
  ghost function NeedAt(sets_: seq<set<char>>, init: map<char, int>, universe: set<char>, chosen: seq<nat>): map<char, int> {
    map u | u in universe && u in init :: NeedAfter(init[u], |Covered(sets_, chosen, u)|)
  }

  /** The indices of the materials not yet selected. */
  ghost function Pool(m: nat, chosen: seq<nat>): set<nat> {
    set i: nat | i < m && i !in chosen
  }

  ghost function Elems(s: seq<nat>): set<nat> {
    set x | x in s
  }

  predicate Increasing(s: seq<nat>) {
    forall k, l :: 0 <= k < l < |s| ==> s[k] < s[l]
  }

  /**
   * `a * b`, by repeated addition. Scores are compared through this function so
   * that the products stay uninterpreted except where `MulIsTimes` relates
   * them to `*`.
   */
  function Mul(a: int, b: int): int
    decreases if b < 0 then -b else b
  {
    if b == 0 then 0 else if b > 0 then Mul(a, b - 1) + a else Mul(a, b + 1) - a
  }

  lemma {:induction false} MulIsTimes(a: int, b: int)
    ensures Mul(a, b) == a * b
    decreases if b < 0 then -b else b
  {
    if b > 0 {
      MulIsTimes(a, b - 1);
    } else if b < 0 {
      MulIsTimes(a, b + 1);
    }
  }

  /**
   * Material `j` scores no better than material `b`
   * (`gain_j / cost_j <= gain_b / cost_b`), and strictly worse when `j` comes
   * first in the scan, so that the earliest of equal scores wins.
   */
  ghost predicate NoBetter(costs: seq<int>, sets_: seq<set<char>>, need: map<char, int>, j: nat, b: nat)
    requires j < |sets_| && b < |sets_| && |costs| == |sets_|
  {
    var gj, gb := Gain(sets_[j], need), Gain(sets_[b], need);
    && Mul(gj, costs[b]) <= Mul(gb, costs[j])
    && (j < b ==> Mul(gj, costs[b]) < Mul(gb, costs[j]))
  }

  /**
   * `b` is the material the source picks from `pool` under the need map `need`:
   * it has a positive gain, the best gain-to-cost ratio, and the lowest index
   * among the materials with that ratio.
   */
  ghost predicate IsGreedyChoice(costs: seq<int>, sets_: seq<set<char>>, need: map<char, int>, pool: set<nat>, b: nat)
    requires |costs| == |sets_|
  {
    && b in pool && b < |sets_| && Gain(sets_[b], need) > 0
    && forall j :: j in pool && j < |sets_| ==> NoBetter(costs, sets_, need, j, b)
  }

  /** Every selection was the greedy choice given the selections before it. */
  ghost predicate GreedyTrace(costs: seq<int>, sets_: seq<set<char>>, init: map<char, int>, universe: set<char>, chosen: seq<nat>)
    requires |costs| == |sets_|
    decreases |chosen|
  {
    chosen == [] ||
      var before := chosen[..|chosen| - 1];
      && GreedyTrace(costs, sets_, init, universe, before)
      && IsGreedyChoice(costs, sets_, NeedAt(sets_, init, universe, before), Pool(|sets_|, before), chosen[|chosen| - 1])
  }

  /** No material left in `pool` covers an element that is still needed. */
  ghost predicate NoImprovingMove(sets_: seq<set<char>>, need: map<char, int>, pool: set<nat>) {
    forall i :: i in pool && i < |sets_| ==> Gain(sets_[i], need) == 0
  }

  /** The two quotients compare as their cross products do (all denominators positive). */
  lemma RatioStep(a: int, b: int, c: int, d: int, e: int, f: int)
    requires a >= 0 && b >= 1 && c >= 0 && d >= 1 && f >= 1
    requires Mul(a, d) <= Mul(c, b)
    requires Mul(e, d) > Mul(c, f)
    ensures Mul(a, f) < Mul(e, b)
  {
    MulIsTimes(a, d);
    MulIsTimes(c, b);
    MulIsTimes(e, d);
    MulIsTimes(c, f);
    MulIsTimes(a, f);
    MulIsTimes(e, b);
    CrossProducts(a, b, c, d, e, f);
  }

  /** `a/b <= c/d < e/f` gives `a/b < e/f`, stated with products. */
  lemma CrossProducts(a: int, b: int, c: int, d: int, e: int, f: int)
    requires a >= 0 && b >= 1 && c >= 0 && d >= 1 && f >= 1
    requires a * d <= c * b
    requires e * d > c * f
    ensures a * f < e * b
  {
    MulMono(a * d, c * b, f);
    MulStrict(c * f, e * d, b);
    assert a * d * f <= c * b * f;
    assert c * f * b < e * d * b;
    assert (a * f) * d < (e * b) * d;
    if a * f >= e * b {
      MulMono(e * b, a * f, d);
    }
  }

  lemma MulMono(x: int, y: int, z: int)
    requires x <= y && z >= 0
    ensures x * z <= y * z
  {
  }

  lemma MulStrict(x: int, y: int, z: int)
    requires x < y && z >= 1
    ensures x * z < y * z
  {
  }

  lemma PositiveProduct(x: int, y: int)
    requires x >= 1 && y >= 1
    ensures x * y >= 1
  {
  }

  /** The gain of a material, counted the way the source does, element by element. */
  method CountGain(s: set<char>, need: map<char, int>) returns (gain: nat)
    requires s <= need.Keys
    ensures gain == Gain(s, need)
  {
    gain := 0;
    var rest := s;
    while rest != {}
      invariant rest <= s
      invariant gain == |Needed(s - rest, need)|
      decreases rest
    {
      var u :| u in rest;
      if need[u] > 0 {
        assert Needed(s - (rest - {u}), need) == Needed(s - rest, need) + {u};
        gain := gain + 1;
      } else {
        assert Needed(s - (rest - {u}), need) == Needed(s - rest, need);
      }
      rest := rest - {u};
    }
    assert s - rest == s;
  }

  /**
   * One scan of `remaining`: the material with the best gain-to-cost ratio
   * among those with a positive gain, the first one on ties (strict `>`), or
   * `None` when no material has a positive gain.
   */
  method SelectBest(costs: seq<int>, sets_: seq<set<char>>, need: map<char, int>, remaining: seq<nat>)
    returns (best: Option<nat>)
    requires |costs| == |sets_|
    requires forall i :: 0 <= i < |costs| ==> costs[i] >= 1
    requires forall i :: 0 <= i < |sets_| ==> sets_[i] <= need.Keys
    requires forall k :: 0 <= k < |remaining| ==> remaining[k] < |sets_|
    requires Increasing(remaining)
    ensures best.None? <==> forall k :: 0 <= k < |remaining| ==> Gain(sets_[remaining[k]], need) == 0
    ensures best.Some? ==> IsGreedyChoice(costs, sets_, need, Elems(remaining), best.value)
  {
    best := None;
    var bestGain := 0;
    for t := 0 to |remaining|
      invariant best.None? ==> forall k :: 0 <= k < t ==> Gain(sets_[remaining[k]], need) == 0
      invariant best.Some? ==> best.value in remaining[..t] && best.value < |sets_|
      invariant best.Some? ==> bestGain == Gain(sets_[best.value], need) > 0
      invariant best.Some? ==> forall k :: 0 <= k < t ==> NoBetter(costs, sets_, need, remaining[k], best.value)
    {
      var i := remaining[t];
      var gain := CountGain(sets_[i], need);
      if gain <= 0 {
        if best.Some? {
          MulIsTimes(gain, costs[best.value]);
          MulIsTimes(bestGain, costs[i]);
          PositiveProduct(bestGain, costs[i]);
        }
        continue;
      }
      if best.Some? {
        MulIsTimes(gain, costs[best.value]);
        MulIsTimes(bestGain, costs[i]);
      }
      if best.None? || gain * costs[best.value] > bestGain * costs[i] {
        forall k | 0 <= k < t
          ensures NoBetter(costs, sets_, need, remaining[k], i)
        {
          var j := remaining[k];
          var gj := Gain(sets_[j], need);
          if best.None? {
            MulIsTimes(gj, costs[i]);
            MulIsTimes(gain, costs[j]);
            PositiveProduct(gain, costs[j]);
          } else {
            RatioStep(gj, costs[j], bestGain, costs[best.value], gain, costs[i]);
          }
        }
        best := Some(i);
        bestGain := gain;
      }
    }
    if best.Some? {
      forall j | j in Elems(remaining) && j < |sets_|
        ensures NoBetter(costs, sets_, need, j, best.value)
      {
        var k :| 0 <= k < |remaining| && remaining[k] == j;
      }
    }
  }

  /**
   * One exposure for every element of the selected material: a positive need
   * drops by one, and the coverage count of every element rises by one.
   */
  method ApplyExposure(s: set<char>, need: map<char, int>, cov: map<char, int>)
    returns (need': map<char, int>, cov': map<char, int>)
    requires s <= need.Keys && s <= cov.Keys
    ensures need'.Keys == need.Keys && cov'.Keys == cov.Keys
    ensures forall u :: u in need ==> need'[u] == if u in s && need[u] > 0 then need[u] - 1 else need[u]
    ensures forall u :: u in cov ==> cov'[u] == if u in s then cov[u] + 1 else cov[u]
  {
    need', cov' := need, cov;
    var rest := s;
    while rest != {}
      invariant rest <= s
      invariant need'.Keys == need.Keys && cov'.Keys == cov.Keys
      invariant forall u :: u in need ==>
                  need'[u] == if u in s - rest && need[u] > 0 then need[u] - 1 else need[u]
      invariant forall u :: u in cov ==> cov'[u] == if u in s - rest then cov[u] + 1 else cov[u]
      decreases rest
    {
      var u :| u in rest;
      if need'[u] > 0 {
        need' := need'[u := need'[u] - 1];
      }
      cov' := cov'[u := cov'[u] + 1];
      rest := rest - {u};
    }
  }

  /** `remaining.remove(x)`: the list without `x`, in the same order. */
  function Without(s: seq<nat>, x: nat): (r: seq<nat>)
    ensures forall y :: y in r <==> y in s && y != x
    ensures x !in s ==> r == s
  {
    if s == [] then []
    else if s[0] == x then Without(s[1..], x)
    else [s[0]] + Without(s[1..], x)
  }

  /** Removing an element from an ascending list leaves it ascending. */
  lemma {:induction false} WithoutIncreasing(s: seq<nat>, x: nat)
    requires Increasing(s)
    ensures Increasing(Without(s, x))
  {
    if s != [] {
      var tail := s[1..];
      assert Increasing(tail);
      WithoutIncreasing(tail, x);
      if s[0] != x {
        var rest := Without(tail, x);
        var r := [s[0]] + rest;
        assert forall y :: y in rest ==> s[0] < y;
        assert forall l :: 0 < l < |r| ==> r[l] == rest[l - 1] && r[l] in rest;
      }
    }
  }

  /** Removing an element that occurs in an ascending list makes it one shorter. */
  lemma {:induction false} WithoutLength(s: seq<nat>, x: nat)
    requires Increasing(s) && x in s
    ensures |Without(s, x)| == |s| - 1
  {
    var tail := s[1..];
    assert Increasing(tail);
    if s[0] == x {
      assert forall y :: y in tail ==> s[0] < y;
    } else {
      WithoutLength(tail, x);
    }
  }

  /** Selecting one more material adds one exposure to each element it contains. */
  lemma CoveredAppend(sets_: seq<set<char>>, chosen: seq<nat>, b: nat, u: char)
    requires b !in chosen && b < |sets_|
    ensures |Covered(sets_, chosen + [b], u)| == |Covered(sets_, chosen, u)| + if u in sets_[b] then 1 else 0
  {
    if u in sets_[b] {
      assert Covered(sets_, chosen + [b], u) == Covered(sets_, chosen, u) + {b};
    } else {
      assert Covered(sets_, chosen + [b], u) == Covered(sets_, chosen, u);
    }
  }

  /** Only materials that exist and contain `u` can cover it. */
  lemma CoveredWithinHolders(sets_: seq<set<char>>, chosen: seq<nat>, u: char)
    ensures Covered(sets_, chosen, u) <= Holders(sets_, u)
    ensures |Covered(sets_, chosen, u)| <= |Holders(sets_, u)|
  {
    var c, h := Covered(sets_, chosen, u), Holders(sets_, u);
    assert c <= h;
    assert h == c + (h - c);
  }

  /** The positive part of an element's need. */
  function Pos(need: map<char, int>, u: char): nat {
    if u in need && need[u] > 0 then need[u] else 0
  }

  /** The total outstanding need, summed over the elements of `us`. */
  ghost function TotalNeed(us: set<char>, need: map<char, int>): nat
    decreases us
  {
    if us == {} then 0
    else
      var u :| u in us;
      Pos(need, u) + TotalNeed(us - {u}, need)
  }

  /** The total need may be summed starting from any element. */
  lemma {:induction false} TotalNeedRemove(us: set<char>, need: map<char, int>, x: char)
    requires x in us
    ensures TotalNeed(us, need) == Pos(need, x) + TotalNeed(us - {x}, need)
    decreases us
  {
    var y :| y in us && TotalNeed(us, need) == Pos(need, y) + TotalNeed(us - {y}, need);
    if y != x {
      TotalNeedRemove(us - {y}, need, x);
      TotalNeedRemove(us - {x}, need, y);
      assert us - {y} - {x} == us - {x} - {y};
    }
  }

  /** Lowering needs pointwise lowers the total. */
  lemma {:induction false} TotalNeedMono(us: set<char>, a: map<char, int>, b: map<char, int>)
    requires forall u :: u in us ==> Pos(a, u) <= Pos(b, u)
    ensures TotalNeed(us, a) <= TotalNeed(us, b)
    decreases us
  {
    if us != {} {
      var x :| x in us;
      TotalNeedRemove(us, a, x);
      TotalNeedRemove(us, b, x);
      TotalNeedMono(us - {x}, a, b);
    }
  }

  /** Lowering needs pointwise, one of them strictly, strictly lowers the total. */
  lemma TotalNeedDrops(us: set<char>, a: map<char, int>, b: map<char, int>, x: char)
    requires forall u :: u in us ==> Pos(a, u) <= Pos(b, u)
    requires x in us && Pos(a, x) < Pos(b, x)
    ensures TotalNeed(us, a) < TotalNeed(us, b)
  {
    TotalNeedRemove(us, a, x);
    TotalNeedRemove(us, b, x);
    TotalNeedMono(us - {x}, a, b);
  }

  /** An exposure of a material with a positive gain lowers the total need. */
  lemma ExposureLowersTotal(universe: set<char>, s: set<char>, need: map<char, int>, need': map<char, int>)
    requires need.Keys == universe && need'.Keys == universe
    requires forall u :: u in need ==> need'[u] == if u in s && need[u] > 0 then need[u] - 1 else need[u]
    requires Gain(s, need) > 0
    ensures TotalNeed(universe, need') < TotalNeed(universe, need)
  {
    var x :| x in Needed(s, need);
    TotalNeedDrops(universe, need', need, x);
  }

  /** The bookkeeping the solver keeps between rounds: `cov` counts exposures, `need` follows from it. */
  ghost predicate Bookkept(sets_: seq<set<char>>, init: map<char, int>, universe: set<char>, chosen: seq<nat>,
                           need: map<char, int>, cov: map<char, int>)
  {
    && need.Keys == universe && cov.Keys == universe && init.Keys == universe
    && forall u :: u in universe ==>
         cov[u] == |Covered(sets_, chosen, u)| && need[u] == NeedAfter(init[u], cov[u])
  }

  lemma BookkeptNeedAt(sets_: seq<set<char>>, init: map<char, int>, universe: set<char>, chosen: seq<nat>,
                       need: map<char, int>, cov: map<char, int>)
    requires Bookkept(sets_, init, universe, chosen, need, cov)
    ensures need == NeedAt(sets_, init, universe, chosen)
  {
  }

  /** One selection, followed by its exposures, keeps the bookkeeping. */
  lemma BookkeptStep(sets_: seq<set<char>>, init: map<char, int>, universe: set<char>, chosen: seq<nat>,
                     need: map<char, int>, cov: map<char, int>, b: nat, need': map<char, int>, cov': map<char, int>)
    requires Bookkept(sets_, init, universe, chosen, need, cov)
    requires b < |sets_| && b !in chosen
    requires need'.Keys == need.Keys && cov'.Keys == cov.Keys
    requires forall u :: u in need ==> need'[u] == if u in sets_[b] && need[u] > 0 then need[u] - 1 else need[u]
    requires forall u :: u in cov ==> cov'[u] == if u in sets_[b] then cov[u] + 1 else cov[u]
    ensures Bookkept(sets_, init, universe, chosen + [b], need', cov')
  {
    forall u | u in universe
      ensures cov'[u] == |Covered(sets_, chosen + [b], u)|
    {
      CoveredAppend(sets_, chosen, b, u);
    }
  }

  /** `remaining` and `chosen` split the indices `0 .. m-1` between them. */
  ghost predicate Partitioned(m: nat, remaining: seq<nat>, chosen: seq<nat>) {
    && Increasing(remaining) && Distinct(chosen)
    && |remaining| + |chosen| == m
    && (forall k :: 0 <= k < |chosen| ==> chosen[k] < m)
    && (forall i: nat :: i in remaining <==> i < m && i !in chosen)
  }

  lemma PartitionedPool(m: nat, remaining: seq<nat>, chosen: seq<nat>)
    requires Partitioned(m, remaining, chosen)
    ensures Elems(remaining) == Pool(m, chosen)
    ensures forall k :: 0 <= k < |remaining| ==> remaining[k] < m
  {
    forall k | 0 <= k < |remaining|
      ensures remaining[k] < m
    {
      assert remaining[k] in remaining;
    }
  }

  lemma PartitionedStep(m: nat, remaining: seq<nat>, chosen: seq<nat>, b: nat)
    requires Partitioned(m, remaining, chosen) && b in remaining
    ensures Partitioned(m, Without(remaining, b), chosen + [b])
  {
    WithoutIncreasing(remaining, b);
    WithoutLength(remaining, b);
  }

  /** Appending the greedy choice for the current state extends a greedy trace. */
  lemma TraceStep(costs: seq<int>, sets_: seq<set<char>>, init: map<char, int>, universe: set<char>, chosen: seq<nat>, b: nat)
    requires |costs| == |sets_|
    requires GreedyTrace(costs, sets_, init, universe, chosen)
    requires IsGreedyChoice(costs, sets_, NeedAt(sets_, init, universe, chosen), Pool(|sets_|, chosen), b)
    ensures GreedyTrace(costs, sets_, init, universe, chosen + [b])
  {
    assert (chosen + [b])[..|chosen|] == chosen;
  }

  /** Selecting the greedy choice `b` keeps `remaining` and `chosen` a partition and extends the trace. */
  lemma SelectStep(costs: seq<int>, sets_: seq<set<char>>, init: map<char, int>, universe: set<char>,
                   remaining: seq<nat>, chosen: seq<nat>, need: map<char, int>, b: nat)
    requires |costs| == |sets_|
    requires need == NeedAt(sets_, init, universe, chosen)
    requires Partitioned(|sets_|, remaining, chosen)
    requires GreedyTrace(costs, sets_, init, universe, chosen)
    requires IsGreedyChoice(costs, sets_, need, Elems(remaining), b)
    ensures Partitioned(|sets_|, Without(remaining, b), chosen + [b])
    ensures GreedyTrace(costs, sets_, init, universe, chosen + [b])
  {
    PartitionedPool(|sets_|, remaining, chosen);
    TraceStep(costs, sets_, init, universe, chosen, b);
    PartitionedStep(|sets_|, remaining, chosen, b);
  }

  /** Applying the exposures of a material with a positive gain keeps the bookkeeping and lowers the total need. */
  lemma ExposeStep(sets_: seq<set<char>>, init: map<char, int>, universe: set<char>,
                   chosen: seq<nat>, need: map<char, int>, cov: map<char, int>,
                   b: nat, need': map<char, int>, cov': map<char, int>)
    requires Bookkept(sets_, init, universe, chosen, need, cov)
    requires b < |sets_| && b !in chosen && Gain(sets_[b], need) > 0
    requires need'.Keys == need.Keys && cov'.Keys == cov.Keys
    requires forall u :: u in need ==> need'[u] == if u in sets_[b] && need[u] > 0 then need[u] - 1 else need[u]
    requires forall u :: u in cov ==> cov'[u] == if u in sets_[b] then cov[u] + 1 else cov[u]
    ensures Bookkept(sets_, init, universe, chosen + [b], need', cov')
    ensures TotalNeed(universe, need') < TotalNeed(universe, need)
  {
    ExposureLowersTotal(universe, sets_[b], need, need');
    BookkeptStep(sets_, init, universe, chosen, need, cov, b, need', cov');
  }

  /** When no element is needed any more, no material has a positive gain. */
  lemma AllMetNoGain(sets_: seq<set<char>>, need: map<char, int>, pool: set<nat>)
    requires forall u :: u in need ==> need[u] == 0
    ensures NoImprovingMove(sets_, need, pool)
  {
    forall i | i in pool && i < |sets_|
      ensures Gain(sets_[i], need) == 0
    {
      assert Needed(sets_[i], need) == {};
    }
  }

  /**
   * The selection loop of `greedy_weighted_multicover`, entered with nothing
   * selected, every index remaining and the initial need `init`: each round
   * stops if no element is needed, otherwise selects the best remaining
   * material and applies its exposures, and stops if no material has a
   * positive gain.
   */
  method Rounds(costs: seq<int>, sets_: seq<set<char>>, ghost init: map<char, int>, universe: set<char>,
                need0: map<char, int>, cov0: map<char, int>)
    returns (chosen: seq<nat>, need: map<char, int>, cov: map<char, int>)
    requires |costs| == |sets_|
    requires forall i :: 0 <= i < |costs| ==> costs[i] >= 1
    requires forall i :: 0 <= i < |sets_| ==> sets_[i] <= universe
    requires Bookkept(sets_, init, universe, [], need0, cov0)
    ensures Bookkept(sets_, init, universe, chosen, need, cov)
    ensures Distinct(chosen) && forall k :: 0 <= k < |chosen| ==> chosen[k] < |sets_|
    ensures GreedyTrace(costs, sets_, init, universe, chosen)
    ensures NoImprovingMove(sets_, need, Pool(|sets_|, chosen))
    ensures |chosen| <= |sets_| && |chosen| <= TotalNeed(universe, init)
  {
    var m := |sets_|;
    chosen, need, cov := [], need0, cov0;
    assert need0 == init;
    var remaining: seq<nat> := seq(m, i requires 0 <= i < m => i);
    assert forall i: nat :: i in remaining <==> i < m by {
      forall i: nat | i < m
        ensures i in remaining
      {
        assert remaining[i] == i;
      }
    }
    while true
      invariant Bookkept(sets_, init, universe, chosen, need, cov)
      invariant Partitioned(m, remaining, chosen)
      invariant GreedyTrace(costs, sets_, init, universe, chosen)
      invariant |chosen| + TotalNeed(universe, need) <= TotalNeed(universe, init)
      decreases |remaining|
    {
      if forall u | u in universe :: need[u] == 0 {
        AllMetNoGain(sets_, need, Pool(m, chosen));
        break;
      }
      PartitionedPool(m, remaining, chosen);
      var best := SelectBest(costs, sets_, need, remaining);
      if best.None? {
        forall i | i in Pool(m, chosen)
          ensures Gain(sets_[i], need) == 0
        {
          var k :| 0 <= k < |remaining| && remaining[k] == i;
        }
        break;
      }

      var b := best.value;
      var need', cov' := ApplyExposure(sets_[b], need, cov);
      BookkeptNeedAt(sets_, init, universe, chosen, need, cov);
      SelectStep(costs, sets_, init, universe, remaining, chosen, need, b);
      ExposeStep(sets_, init, universe, chosen, need, cov, b, need', cov');
      chosen := chosen + [b];
      remaining := Without(remaining, b);
      need, cov := need', cov';
    }
  }

  /**
   * `greedy_weighted_multicover`. The returned selection is the greedy trace
   * from the initial need `min(r, avail[u])`: every pick was the best-ratio,
   * lowest-index material with a positive gain, and on return no unselected
   * material covers a still-needed element. `cov` counts the selected
   * materials containing each element and `need` is what is left of the
   * initial need after those exposures.
   */
  method GreedyWeightedMulticover(costs: seq<int>, sets_: seq<set<char>>, r: int, universe: set<char>)
    returns (chosen: seq<nat>, need: map<char, int>, avail: map<char, int>, cov: map<char, int>)
    requires |costs| == |sets_|
    requires forall i :: 0 <= i < |costs| ==> costs[i] >= 1
    requires forall i :: 0 <= i < |sets_| ==> sets_[i] <= universe
    ensures avail.Keys == universe && forall u :: u in universe ==> avail[u] == |Holders(sets_, u)|
    ensures need.Keys == universe && cov.Keys == universe
    ensures forall u :: u in universe ==> cov[u] == |Covered(sets_, chosen, u)|
    ensures need == NeedAt(sets_, InitialNeed(universe, avail, r), universe, chosen)
    ensures Distinct(chosen) && forall k :: 0 <= k < |chosen| ==> chosen[k] < |sets_|
    ensures GreedyTrace(costs, sets_, InitialNeed(universe, avail, r), universe, chosen)
    ensures NoImprovingMove(sets_, need, Pool(|sets_|, chosen))
    ensures |chosen| <= |sets_| && |chosen| <= TotalNeed(universe, InitialNeed(universe, avail, r))
    ensures (forall u :: u in universe ==> Min(r, avail[u]) == 0) ==>
              chosen == [] && need == InitialNeed(universe, avail, r) && cov == map u | u in universe :: 0
  {
    var m := |sets_|;
    avail := ComputeAvailability(sets_, universe);
    ghost var init := InitialNeed(universe, avail, r);
    need := map u | u in universe :: Min(r, avail[u]);
    assert need == init;
    cov := map u | u in universe :: 0;
    chosen := [];
    assert Bookkept(sets_, init, universe, chosen, need, cov);
    BookkeptNeedAt(sets_, init, universe, chosen, need, cov);
    if forall u | u in universe :: need[u] == 0 {
      AllMetNoGain(sets_, need, Pool(m, chosen));
    } else {
      chosen, need, cov := Rounds(costs, sets_, init, universe, need, cov);
    }
    BookkeptNeedAt(sets_, init, universe, chosen, need, cov);
  }
}
