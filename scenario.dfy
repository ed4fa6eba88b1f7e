/**
 * A worked solve: universe {A, B, C}, requirement 1, and three materials
 * M1 (cost 2, {A, B}), M2 (cost 1, {B, C}) and M3 (cost 3, {A, C}). Every
 * element is available twice and needed once. The first round picks M2 (gain
 * 2 at cost 1), the second M1 (gain 1 at cost 2 beats gain 1 at cost 3), after
 * which nothing is needed. The solver's result is therefore `[1, 0]` at a
 * total cost of 3.
 */
module Scenario {
  import opened Catalog
  import opened Greedy
  import opened GreedyProps
  import opened Report

  function Costs(): seq<int> { [2, 1, 3] }
  function Sets(): seq<set<char>> { [{'A', 'B'}, {'B', 'C'}, {'A', 'C'}] }
  function Universe(): set<char> { {'A', 'B', 'C'} }

  /** Every element of the universe lies in exactly two of the three materials. */
  lemma ExampleAvailability(avail: map<char, int>)
    requires avail.Keys == Universe() && forall u :: u in Universe() ==> avail[u] == |Holders(Sets(), u)|
    ensures avail == map['A' := 2, 'B' := 2, 'C' := 2]
  {
    var s := Sets();
    assert Holders(s, 'A') == {0, 2} by {
      forall i: nat ensures i in Holders(s, 'A') <==> i == 0 || i == 2 {}
    }
    assert Holders(s, 'B') == {0, 1} by {
      forall i: nat ensures i in Holders(s, 'B') <==> i == 0 || i == 1 {}
    }
    assert Holders(s, 'C') == {1, 2} by {
      forall i: nat ensures i in Holders(s, 'C') <==> i == 1 || i == 2 {}
    }
  }

  function Init(): map<char, int> { map['A' := 1, 'B' := 1, 'C' := 1] }

  /** With every element available twice, the initial need is 1 everywhere. */
  lemma ExampleInitialNeed()
    ensures InitialNeed(Universe(), map['A' := 2, 'B' := 2, 'C' := 2], 1) == Init()
  {
  }

  lemma NeedBefore()
    ensures NeedAt(Sets(), Init(), Universe(), []) == Init()
  {
    forall u | u in Universe()
      ensures Covered(Sets(), [], u) == {}
    {
    }
  }

  lemma NeedAfterM2()
    ensures NeedAt(Sets(), Init(), Universe(), [1]) == map['A' := 1, 'B' := 0, 'C' := 0]
  {
    var s := Sets();
    assert Covered(s, [1], 'A') == {};
    assert Covered(s, [1], 'B') == {1};
    assert Covered(s, [1], 'C') == {1};
  }

  lemma NeedAfterM2M1()
    ensures NeedAt(Sets(), Init(), Universe(), [1, 0]) == map['A' := 0, 'B' := 0, 'C' := 0]
  {
    var s := Sets();
    assert Covered(s, [1, 0], 'A') == {0};
    assert Covered(s, [1, 0], 'B') == {0, 1};
    assert Covered(s, [1, 0], 'C') == {1};
  }

  /** Round 1: every material covers two needed elements, and M2 is the cheapest. */
  lemma FirstRound()
    ensures IsGreedyChoice(Costs(), Sets(), Init(), Pool(3, []), 1)
  {
    var s, need := Sets(), Init();
    assert Needed(s[0], need) == s[0];
    assert Needed(s[1], need) == s[1];
    assert Needed(s[2], need) == s[2];
    assert Pool(3, []) == {0, 1, 2} by {
      forall i: nat ensures i in Pool(3, []) <==> i < 3 {}
    }
    MulIsTimes(2, 1);
    MulIsTimes(2, 2);
    MulIsTimes(2, 3);
  }

  /** Round 2: only A is needed; M1 and M3 cover it once, and M1 is cheaper. */
  lemma SecondRound()
    ensures IsGreedyChoice(Costs(), Sets(), map['A' := 1, 'B' := 0, 'C' := 0], Pool(3, [1]), 0)
  {
    var s, need := Sets(), map['A' := 1, 'B' := 0, 'C' := 0];
    assert Needed(s[0], need) == {'A'};
    assert Needed(s[2], need) == {'A'};
    assert Pool(3, [1]) == {0, 2} by {
      forall i: nat ensures i in Pool(3, [1]) <==> i == 0 || i == 2 {}
    }
    MulIsTimes(1, 2);
    MulIsTimes(1, 3);
  }

  /** After M2 and M1 nothing is needed, so M3 has nothing to add. */
  lemma Finished()
    ensures NoImprovingMove(Sets(), map['A' := 0, 'B' := 0, 'C' := 0], Pool(3, [1, 0]))
  {
    var need := map['A' := 0, 'B' := 0, 'C' := 0];
    forall i | i in Pool(3, [1, 0]) && i < 3
      ensures Gain(Sets()[i], need) == 0
    {
      assert Needed(Sets()[i], need) == {};
    }
  }

  lemma ExampleTrace()
    ensures GreedyTrace(Costs(), Sets(), Init(), Universe(), [1, 0])
    ensures NoImprovingMove(Sets(), NeedAt(Sets(), Init(), Universe(), [1, 0]), Pool(3, [1, 0]))
  {
    NeedBefore();
    NeedAfterM2();
    NeedAfterM2M1();
    FirstRound();
    SecondRound();
    Finished();
    assert [1, 0][..1] == [1];
    assert [1][..0] == [];
  }

  /**
   * Whatever the solver returns for this catalog (a greedy trace from the
   * initial need that ends with no improving move, as
   * `Greedy.GreedyWeightedMulticover` ensures) is `[M2, M1]`, total cost 3.
   */
  lemma WorkedExample(avail: map<char, int>, chosen: seq<nat>)
    requires avail.Keys == Universe() && forall u :: u in Universe() ==> avail[u] == |Holders(Sets(), u)|
    requires GreedyTrace(Costs(), Sets(), InitialNeed(Universe(), avail, 1), Universe(), chosen)
    requires NoImprovingMove(Sets(), NeedAt(Sets(), InitialNeed(Universe(), avail, 1), Universe(), chosen),
                             Pool(|Sets()|, chosen))
    ensures chosen == [1, 0]
    ensures TotalCost(Costs(), chosen) == 3
  {
    ExampleAvailability(avail);
    ExampleInitialNeed();
    ExampleTrace();
    SelectionDetermined(Costs(), Sets(), Init(), Universe(), chosen, [1, 0]);
  }

  /**
   * An element that no material holds is never a reason to select anything
   * (its initial need is 0) and, for a positive requirement, it is reported
   * as scarce with availability 0.
   */
  lemma UnheldElementIsScarce(sets_: seq<set<char>>, universe: set<char>, avail: map<char, int>, r: int, x: char)
    requires avail.Keys == universe && forall u :: u in universe ==> avail[u] == |Holders(sets_, u)|
    requires x in universe && forall i :: 0 <= i < |sets_| ==> x !in sets_[i]
    requires r > 0
    ensures InitialNeed(universe, avail, r)[x] == 0
    ensures (x, 0) in Scarce(universe, avail, r)
  {
    HoldersEmpty(sets_, x);
    ScarceSpec(universe, avail, r);
  }
}
