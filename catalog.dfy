/**
 * The material catalog of `Multicover/multicover.py`: reading material records
 * (`load_materials`) and counting, for every universe element, the materials
 * that contain it (`compute_availability`).
 *
 * A CSV row is given here as a `Record` whose cost field has already been run
 * through Python's `int()` (`None` when that raises) and whose `Kanji` field is
 * `None` when the column is missing.
 */
module Catalog {
  import opened Wrappers
  import opened Text

  datatype Record = Record(name: string, cost: Option<int>, kanji: Option<string>)

  /** An accepted material: a label, a positive price and the elements it covers. */
  datatype Material = Material(name: string, cost: int, cover: set<char>)

  /** The scan bound used when no limit is given (`math.inf` stands for 10**12). */
  const UNLIMITED: int := 1_000_000_000_000

  /** The scan bound: the given limit, or `UNLIMITED` when there is none. */
  function Cap(limit: Option<int>): (c: int)
    ensures limit.Some? ==> c == limit.value
    ensures limit.None? ==> c == UNLIMITED
  {
    limit.GetOr(UNLIMITED)
  }

  /** A cost that fails to parse, or is not positive, becomes 1. */
  function CoerceCost(field: Option<int>): (c: int)
    ensures c >= 1
    ensures field.Some? && field.value > 0 ==> c == field.value
    ensures field.None? || field.value <= 0 ==> c == 1
  {
    match field
    case None => 1
    case Some(v) => if v <= 0 then 1 else v
  }

  /** The universe elements among the characters of the stripped payload. */
  function Coverage(payload: string, universe: set<char>): (s: set<char>)
    ensures s <= universe
  {
    set c | c in Strip(payload) && c in universe
  }

  /**
   * The coverage of a payload is its universe characters; only whitespace at
   * either end of the payload is not looked at.
   */
  lemma CoverageChars(payload: string, universe: set<char>)
    ensures forall c :: c in Coverage(payload, universe) ==> c in payload && c in universe
    ensures forall c :: c in payload && c in universe && !IsSpace(c) ==> c in Coverage(payload, universe)
  {
    StripChars(payload);
  }

  /** The material a record becomes, or `None` when it covers no universe element. */
  function Accept(rec: Record, universe: set<char>): (m: Option<Material>)
    ensures m.Some? ==> m.value.cost >= 1 && m.value.cover != {} && m.value.cover <= universe
    ensures m.None? <==> Coverage(rec.kanji.GetOr(""), universe) == {}
  {
    var kset := Coverage(rec.kanji.GetOr(""), universe);
    if kset == {} then None
    else Some(Material(Strip(rec.name), CoerceCost(rec.cost), kset))
  }

  /** The verdict on each record, in source order. */
  function Outcomes(records: seq<Record>, universe: set<char>): (outs: seq<Option<Material>>)
    ensures |outs| == |records|
    ensures forall i :: 0 <= i < |records| ==>
              (outs[i].None? <==> Coverage(records[i].kanji.GetOr(""), universe) == {})
    ensures forall i :: 0 <= i < |records| && outs[i].Some? ==>
              outs[i].value.cost == CoerceCost(records[i].cost) &&
              outs[i].value.cover == Coverage(records[i].kanji.GetOr(""), universe)
  {
    seq(|records|, i requires 0 <= i < |records| => Accept(records[i], universe))
  }

  /** The materials among the verdicts, in order. */
  function Keep(outs: seq<Option<Material>>): (ms: seq<Material>)
    ensures |ms| <= |outs|
  {
    if outs == [] then []
    else
      var front := Keep(outs[..|outs| - 1]);
      match outs[|outs| - 1]
      case None => front
      case Some(m) => front + [m]
  }

  /** Keeping is order-preserving: it distributes over concatenation. */
  lemma {:induction false} KeepAppend(a: seq<Option<Material>>, b: seq<Option<Material>>)
    ensures Keep(a + b) == Keep(a) + Keep(b)
    decreases |b|
  {
    if b == [] {
      assert a + b == a;
    } else {
      var b' := b[..|b| - 1];
      KeepAppend(a, b');
      assert (a + b)[..|a + b| - 1] == a + b';
    }
  }

  /** Every kept material comes from a verdict that accepted it. */
  lemma {:induction false} KeepFrom(outs: seq<Option<Material>>, m: Material)
    requires m in Keep(outs)
    ensures Some(m) in outs
    decreases |outs|
  {
    var front := outs[..|outs| - 1];
    if m in Keep(front) {
      KeepFrom(front, m);
      assert forall x :: x in front ==> x in outs;
    } else {
      assert outs[|outs| - 1] == Some(m);
    }
  }

  /** The materials that the first `k` records yield. */
  function Accepted(records: seq<Record>, universe: set<char>, k: nat): (ms: seq<Material>)
    requires k <= |records|
    ensures |ms| <= k
  {
    Keep(Outcomes(records, universe)[..k])
  }

  /** Every material the records yield has a positive cost and a non-empty coverage within the universe. */
  lemma AcceptedWellFormed(records: seq<Record>, universe: set<char>, k: nat, m: Material)
    requires k <= |records| && m in Accepted(records, universe, k)
    ensures m.cost >= 1 && m.cover != {} && m.cover <= universe
  {
    var outs := Outcomes(records, universe)[..k];
    KeepFrom(outs, m);
    var i :| 0 <= i < k && outs[i] == Some(m);
    assert Accept(records[i], universe) == Some(m);
  }

  /** One more record adds its material, if it yields one, at the end. */
  lemma AcceptedStep(records: seq<Record>, universe: set<char>, k: nat)
    requires k < |records|
    ensures Accepted(records, universe, k + 1) ==
            Accepted(records, universe, k) + AsSeq(Accept(records[k], universe))
  {
    var outs := Outcomes(records, universe);
    assert outs[..k + 1][..k] == outs[..k];
  }

  /** The empty or one-element list holding an optional material. */
  function AsSeq(m: Option<Material>): (s: seq<Material>)
    ensures |s| <= 1
  {
    match m
    case None => []
    case Some(v) => [v]
  }

  /**
   * Where loading stops: every record before position `scanned` was inspected
   * while fewer than `cap` materials had been accepted, and scanning ended
   * either at the end of the source or with `cap` materials accepted.
   */
  ghost predicate StopsAt(records: seq<Record>, cap: int, universe: set<char>, scanned: nat) {
    && scanned <= |records|
    && (forall j :: 0 <= j < scanned ==> |Accepted(records, universe, j)| < cap)
    && (scanned < |records| ==> |Accepted(records, universe, scanned)| >= cap)
  }

  /** The three parallel lists the loader returns, read as one list of materials. */
  function Zip(names: seq<string>, costs: seq<int>, sets_: seq<set<char>>): seq<Material>
    requires |names| == |costs| == |sets_|
  {
    seq(|names|, i requires 0 <= i < |names| => Material(names[i], costs[i], sets_[i]))
  }

  /** What the loop of `LoadMaterials` does with record `k` extends the accepted list the same way. */
  lemma LoadStep(records: seq<Record>, universe: set<char>, k: nat,
                 names: seq<string>, costs: seq<int>, sets_: seq<set<char>>,
                 name: string, cost: int, kset: set<char>)
    requires k < |records| && |names| == |costs| == |sets_|
    requires Zip(names, costs, sets_) == Accepted(records, universe, k)
    requires name == Strip(records[k].name) && cost == CoerceCost(records[k].cost)
    requires kset == Coverage(records[k].kanji.GetOr(""), universe)
    ensures kset == {} ==> Zip(names, costs, sets_) == Accepted(records, universe, k + 1)
    ensures kset != {} ==> Zip(names + [name], costs + [cost], sets_ + [kset]) == Accepted(records, universe, k + 1)
  {
    AcceptedStep(records, universe, k);
    if kset != {} {
      assert Zip(names + [name], costs + [cost], sets_ + [kset]) == Zip(names, costs, sets_) + [Material(name, cost, kset)];
    }
  }

  /**
   * `load_materials`: scans the records in order, stops as soon as `limit`
   * materials have been accepted, and keeps each record that covers at least
   * one universe element. `scanned` is how many records were inspected.
   */
  method LoadMaterials(records: seq<Record>, limit: Option<int>, universe: set<char>)
    returns (names: seq<string>, costs: seq<int>, sets_: seq<set<char>>, ghost scanned: nat)
    ensures |names| == |costs| == |sets_|
    ensures StopsAt(records, Cap(limit), universe, scanned)
    ensures Zip(names, costs, sets_) == Accepted(records, universe, scanned)
  {
    var cap := Cap(limit);
    names, costs, sets_ := [], [], [];
    var k := 0;
    while k < |records|
      invariant k <= |records|
      invariant |names| == |costs| == |sets_|
      invariant Zip(names, costs, sets_) == Accepted(records, universe, k)
      invariant forall j :: 0 <= j < k ==> |Accepted(records, universe, j)| < cap
    {
      if |names| >= cap {
        break;
      }
      var row := records[k];
      var name := Strip(row.name);
      var cost := match row.cost case Some(v) => v case None => 1;
      if cost <= 0 {
        cost := 1;
      }
      assert cost == CoerceCost(row.cost);
      var kanjiStr := Strip(row.kanji.GetOr(""));
      var kset := set c | c in kanjiStr && c in universe;
      LoadStep(records, universe, k, names, costs, sets_, name, cost, kset);
      if kset == {} {
        k := k + 1;
        continue;
      }
      names, costs, sets_ := names + [name], costs + [cost], sets_ + [kset];
      k := k + 1;
    }
    scanned := k;
  }

  /** The loader never returns more materials than its limit. */
  lemma LoadWithinCap(records: seq<Record>, cap: int, universe: set<char>, scanned: nat)
    requires StopsAt(records, cap, universe, scanned)
    ensures |Accepted(records, universe, scanned)| <= if cap < 0 then 0 else cap
  {
    if scanned > 0 {
      AcceptedStep(records, universe, scanned - 1);
    }
  }

  /**
   * Scanning stops exactly when the accepted count reaches the limit: a load
   * that stopped before the end of the source holds exactly `cap` materials
   * (none at all, before the first record, when the limit is 0).
   */
  lemma StopsOnReachingCap(records: seq<Record>, cap: int, universe: set<char>, scanned: nat)
    requires StopsAt(records, cap, universe, scanned)
    requires 0 <= cap && scanned < |records|
    ensures |Accepted(records, universe, scanned)| == cap
  {
    LoadWithinCap(records, cap, universe, scanned);
  }

  /** Where loading stops is determined by the records and the limit. */
  lemma StopsAtUnique(records: seq<Record>, cap: int, universe: set<char>, s1: nat, s2: nat)
    requires StopsAt(records, cap, universe, s1) && StopsAt(records, cap, universe, s2)
    ensures s1 == s2
  {
  }

  /**
   * With a limit of one and an acceptable first record, loading stops after
   * that record: nothing after it is inspected, however valid.
   */
  lemma CapOneStopsAfterFirst(records: seq<Record>, universe: set<char>, scanned: nat)
    requires |records| >= 1 && Accept(records[0], universe).Some?
    requires StopsAt(records, 1, universe, scanned)
    ensures scanned == 1
    ensures Accepted(records, universe, scanned) == [Accept(records[0], universe).value]
  {
    AcceptedStep(records, universe, 0);
    assert StopsAt(records, 1, universe, 1);
    StopsAtUnique(records, 1, universe, scanned, 1);
  }

  /** The indices below `k` of the sets that contain `u`. */
  ghost function HoldersBelow(sets_: seq<set<char>>, u: char, k: nat): set<nat>
    requires k <= |sets_|
  {
    set i: nat | i < k && u in sets_[i]
  }

  /** The indices of all the sets that contain `u`. */
  ghost function Holders(sets_: seq<set<char>>, u: char): set<nat> {
    HoldersBelow(sets_, u, |sets_|)
  }

  lemma HoldersStep(sets_: seq<set<char>>, u: char, k: nat)
    requires k < |sets_|
    ensures |HoldersBelow(sets_, u, k + 1)| == |HoldersBelow(sets_, u, k)| + if u in sets_[k] then 1 else 0
  {
    if u in sets_[k] {
      assert HoldersBelow(sets_, u, k + 1) == HoldersBelow(sets_, u, k) + {k};
    } else {
      assert HoldersBelow(sets_, u, k + 1) == HoldersBelow(sets_, u, k);
    }
  }

  /** An element is held by at most as many materials as there are. */
  lemma {:induction false} HoldersBound(sets_: seq<set<char>>, u: char, k: nat)
    requires k <= |sets_|
    ensures |HoldersBelow(sets_, u, k)| <= k
  {
    if k > 0 {
      HoldersBound(sets_, u, k - 1);
      HoldersStep(sets_, u, k - 1);
    }
  }

  /** No material holds `u` exactly when `u` has no holder. */
  lemma HoldersEmpty(sets_: seq<set<char>>, u: char)
    ensures |Holders(sets_, u)| == 0 <==> forall i :: 0 <= i < |sets_| ==> u !in sets_[i]
  {
    if |Holders(sets_, u)| != 0 {
      var i :| i in Holders(sets_, u);
      assert u in sets_[i];
    } else {
      forall i | 0 <= i < |sets_|
        ensures u !in sets_[i]
      {
        assert i !in Holders(sets_, u);
      }
    }
  }

  /**
   * `compute_availability`: for every universe element, the number of
   * materials that contain it. The caller must only pass sets drawn from the
   * universe (the source indexes the count table by each element).
   */
  method ComputeAvailability(sets_: seq<set<char>>, universe: set<char>) returns (avail: map<char, int>)
    requires forall i :: 0 <= i < |sets_| ==> sets_[i] <= universe
    ensures avail.Keys == universe
    ensures forall u :: u in universe ==> avail[u] == |Holders(sets_, u)|
  {
    avail := map u | u in universe :: 0;
    var k := 0;
    while k < |sets_|
      invariant k <= |sets_|
      invariant avail.Keys == universe
      invariant forall u :: u in universe ==> avail[u] == |HoldersBelow(sets_, u, k)|
    {
      var rest := sets_[k];
      while rest != {}
        invariant rest <= sets_[k]
        invariant avail.Keys == universe
        invariant forall u :: u in universe ==>
                    avail[u] == |HoldersBelow(sets_, u, k)| + if u in sets_[k] - rest then 1 else 0
        decreases rest
      {
        var u :| u in rest;
        avail := avail[u := avail[u] + 1];
        rest := rest - {u};
      }
      forall u | u in universe
        ensures avail[u] == |HoldersBelow(sets_, u, k + 1)|
      {
        HoldersStep(sets_, u, k);
      }
      k := k + 1;
    }
  }
}
