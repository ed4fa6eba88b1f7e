/**
 * What the solver's result means: the greedy choice is unique, so the
 * selection is determined by the catalog and the requirement; needs stay
 * within their initial caps and exposures within availability; and because
 * the initial need is clamped to availability, the solver always meets every
 * clamped requirement.
 */
module GreedyProps {
  import opened Catalog
  import opened Greedy

  /** At most one material is the greedy choice for a given need and pool. */
  lemma GreedyChoiceUnique(costs: seq<int>, sets_: seq<set<char>>, need: map<char, int>, pool: set<nat>, b1: nat, b2: nat)
    requires |costs| == |sets_|
    requires IsGreedyChoice(costs, sets_, need, pool, b1)
    requires IsGreedyChoice(costs, sets_, need, pool, b2)
    ensures b1 == b2
  {
    assert NoBetter(costs, sets_, need, b1, b2);
    assert NoBetter(costs, sets_, need, b2, b1);
  }

  /** Every prefix of a greedy trace is one, and the next selection is the greedy choice after it. */
  lemma {:induction false} TraceAt(costs: seq<int>, sets_: seq<set<char>>, init: map<char, int>, universe: set<char>,
                                   chosen: seq<nat>, k: nat)
    requires |costs| == |sets_|
    requires GreedyTrace(costs, sets_, init, universe, chosen)
    requires k < |chosen|
    ensures GreedyTrace(costs, sets_, init, universe, chosen[..k])
    ensures IsGreedyChoice(costs, sets_, NeedAt(sets_, init, universe, chosen[..k]), Pool(|sets_|, chosen[..k]), chosen[k])
    decreases |chosen|
  {
    var before := chosen[..|chosen| - 1];
    if k < |chosen| - 1 {
      TraceAt(costs, sets_, init, universe, before, k);
      PrefixOfPrefix(chosen, |chosen| - 1, k);
    }
  }

  lemma PrefixOfPrefix(s: seq<nat>, n: nat, k: nat)
    requires k <= n <= |s|
    ensures s[..n][..k] == s[..k] && s[..n][k..] == s[k..n]
  {
  }

  lemma PrefixSnoc(s: seq<nat>, n: nat)
    requires n < |s|
    ensures s[..n + 1] == s[..n] + [s[n]]
  {
  }

  /** A greedy trace is a prefix of every greedy trace from the same start that is at least as long. */
  lemma {:induction false} TracesAgree(costs: seq<int>, sets_: seq<set<char>>, init: map<char, int>, universe: set<char>,
                                       c1: seq<nat>, c2: seq<nat>)
    requires |costs| == |sets_|
    requires GreedyTrace(costs, sets_, init, universe, c1)
    requires GreedyTrace(costs, sets_, init, universe, c2)
    requires |c1| <= |c2|
    ensures c1 == c2[..|c1|]
    decreases |c1|
  {
    if c1 != [] {
      var n := |c1| - 1;
      var p := c1[..n];
      TracesAgree(costs, sets_, init, universe, p, c2);
      TraceAt(costs, sets_, init, universe, c2, n);
      GreedyChoiceUnique(costs, sets_, NeedAt(sets_, init, universe, p), Pool(|sets_|, p), c1[n], c2[n]);
      PrefixSnoc(c1, n);
      PrefixSnoc(c2, n);
    }
  }

  /** A greedy trace that has reached a state with no improving move is not a proper prefix of another. */
  lemma TraceEndsAtNoImprovingMove(costs: seq<int>, sets_: seq<set<char>>, init: map<char, int>, universe: set<char>,
                                   c1: seq<nat>, c2: seq<nat>)
    requires |costs| == |sets_|
    requires GreedyTrace(costs, sets_, init, universe, c2)
    requires NoImprovingMove(sets_, NeedAt(sets_, init, universe, c1), Pool(|sets_|, c1))
    requires |c1| <= |c2| && c1 == c2[..|c1|]
    ensures c1 == c2
  {
    if |c1| < |c2| {
      TraceAt(costs, sets_, init, universe, c2, |c1|);
      assert false;
    }
  }

  /**
   * Determinism: a greedy trace that stops only when no unselected material
   * helps is unique, so two solves over the same catalog and requirement
   * return the same selection.
   */
  lemma SelectionDetermined(costs: seq<int>, sets_: seq<set<char>>, init: map<char, int>, universe: set<char>,
                            c1: seq<nat>, c2: seq<nat>)
    requires |costs| == |sets_|
    requires GreedyTrace(costs, sets_, init, universe, c1)
    requires GreedyTrace(costs, sets_, init, universe, c2)
    requires NoImprovingMove(sets_, NeedAt(sets_, init, universe, c1), Pool(|sets_|, c1))
    requires NoImprovingMove(sets_, NeedAt(sets_, init, universe, c2), Pool(|sets_|, c2))
    ensures c1 == c2
  {
    if |c1| <= |c2| {
      TracesAgree(costs, sets_, init, universe, c1, c2);
      TraceEndsAtNoImprovingMove(costs, sets_, init, universe, c1, c2);
    } else {
      TracesAgree(costs, sets_, init, universe, c2, c1);
      TraceEndsAtNoImprovingMove(costs, sets_, init, universe, c2, c1);
    }
  }

  /** For a non-negative requirement every need stays between 0 and `min(r, avail[u])`. */
  lemma NeedWithinInitial(sets_: seq<set<char>>, universe: set<char>, avail: map<char, int>, r: int, chosen: seq<nat>)
    requires r >= 0
    requires avail.Keys == universe && forall u :: u in universe ==> avail[u] == |Holders(sets_, u)|
    ensures forall u :: u in universe ==>
              0 <= NeedAt(sets_, InitialNeed(universe, avail, r), universe, chosen)[u] <= Min(r, avail[u])
  {
  }

  /** A selected material is never exposed to more elements than exist: `0 <= cov[u] <= avail[u]`. */
  lemma CoverageWithinAvailability(sets_: seq<set<char>>, chosen: seq<nat>, u: char)
    ensures 0 <= |Covered(sets_, chosen, u)| <= |Holders(sets_, u)|
  {
    CoveredWithinHolders(sets_, chosen, u);
  }

  /** `cov` never decreases: a longer selection covers every element at least as often. */
  lemma CoverageMonotone(sets_: seq<set<char>>, chosen: seq<nat>, k: nat, u: char)
    requires k <= |chosen|
    ensures |Covered(sets_, chosen[..k], u)| <= |Covered(sets_, chosen, u)|
  {
    var a, b := Covered(sets_, chosen[..k], u), Covered(sets_, chosen, u);
    assert a <= b;
    assert b == a + (b - a);
  }

  lemma ProperSubsetHasExtra(c: set<nat>, h: set<nat>)
    requires c <= h && |c| < |h|
    ensures h - c != {}
  {
    var d := h - c;
    assert h == c + d;
    assert c * d == {};
    assert |h| == |c| + |d|;
  }

  /** A material that contains a still-needed element and was not selected has a positive gain. */
  lemma UnselectedHolderHelps(sets_: seq<set<char>>, chosen: seq<nat>, need: map<char, int>, u: char, i: nat)
    requires i in Holders(sets_, u) - Covered(sets_, chosen, u)
    requires u in need && need[u] > 0
    ensures i in Pool(|sets_|, chosen) && Gain(sets_[i], need) > 0
  {
    assert u in Needed(sets_[i], need);
  }

  /**
   * The solver always succeeds on the clamped requirement: once no
   * unselected material covers a still-needed element, no element is needed
   * any more, and each has been covered at least `min(r, avail[u])` times.
   * A positive need would leave some material that contains the element
   * unselected, since fewer than `avail[u]` of them were taken.
   */
  lemma MeetsClampedNeed(sets_: seq<set<char>>, universe: set<char>, avail: map<char, int>, r: int,
                         chosen: seq<nat>, need: map<char, int>, cov: map<char, int>)
    requires avail.Keys == universe && forall u :: u in universe ==> avail[u] == |Holders(sets_, u)|
    requires cov.Keys == universe && forall u :: u in universe ==> cov[u] == |Covered(sets_, chosen, u)|
    requires need == NeedAt(sets_, InitialNeed(universe, avail, r), universe, chosen)
    requires NoImprovingMove(sets_, need, Pool(|sets_|, chosen))
    ensures forall u :: u in universe ==> need[u] <= 0 && cov[u] >= Min(r, avail[u])
    ensures r >= 0 ==> forall u :: u in universe ==> need[u] == 0
  {
    forall u | u in universe
      ensures need[u] <= 0
    {
      if need[u] > 0 {
        var c, h := Covered(sets_, chosen, u), Holders(sets_, u);
        CoveredWithinHolders(sets_, chosen, u);
        var init := InitialNeed(universe, avail, r);
        assert need[u] == NeedAfter(init[u], |c|);
        ProperSubsetHasExtra(c, h);
        var i :| i in h - c;
        UnselectedHolderHelps(sets_, chosen, need, u, i);
      }
    }
  }

  /**
   * With a negative requirement every initial need is negative, so no material
   * ever has a positive gain and the solver selects nothing: it stops at the
   * no-gain exit with every need still negative.
   */
  lemma NegativeRequirementSelectsNothing(costs: seq<int>, sets_: seq<set<char>>, universe: set<char>,
                                          avail: map<char, int>, r: int, chosen: seq<nat>)
    requires |costs| == |sets_| && r < 0
    requires GreedyTrace(costs, sets_, InitialNeed(universe, avail, r), universe, chosen)
    ensures chosen == []
    ensures forall u :: u in universe && u in avail ==> NeedAt(sets_, InitialNeed(universe, avail, r), universe, chosen)[u] < 0
  {
  }
}
