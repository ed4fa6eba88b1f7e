/**
 * The producer side of `Multicover/data_collection.py`: `extract_n5_kanji`,
 * which keeps the first occurrence of every kanji of the syllabus in a
 * paragraph, and the loop of `main` that turns the paragraphs of one excerpt
 * into rows `(name, cost, kanji)`. The syllabus `N5_KANJI` is a parameter.
 */
module Collection {
  import opened Wrappers
  import opened Text
  import opened Catalog
  import opened Seqs

  /** The characters of `s` that belong to `kanji`, each at its first occurrence, in order. */
  function KeepFirst(s: string, kanji: set<char>): string
    decreases |s|
  {
    if s == [] then []
    else
      var front := KeepFirst(s[..|s| - 1], kanji);
      var c := s[|s| - 1];
      if c in kanji && c !in front then front + [c] else front
  }

  /** The position of the first occurrence of `c` in `s`, or `|s|` when there is none. */
  function FirstIndex(s: string, c: char): (i: nat)
    ensures i <= |s|
    ensures c in s ==> i < |s| && s[i] == c
    ensures forall j :: 0 <= j < i ==> s[j] != c
    decreases |s|
  {
    if s == [] then 0 else if s[0] == c then 0 else 1 + FirstIndex(s[1..], c)
  }

  /**
   * `extract_n5_kanji`: one pass over the paragraph, remembering which kanji
   * were already seen.
   */
  method ExtractN5Kanji(paragraph: string, kanji: set<char>) returns (r: string)
    ensures r == KeepFirst(paragraph, kanji)
  {
    var seen: set<char> := {};
    var ordered: seq<char> := [];
    for i := 0 to |paragraph|
      invariant ordered == KeepFirst(paragraph[..i], kanji)
      invariant forall c :: c in seen <==> c in ordered
    {
      var ch := paragraph[i];
      assert paragraph[..i + 1][..i] == paragraph[..i];
      if ch in kanji && ch !in seen {
        seen := seen + {ch};
        ordered := ordered + [ch];
      }
    }
    assert paragraph[..|paragraph|] == paragraph;
    r := ordered;
  }

  /** The result holds exactly the kanji that occur in the paragraph. */
  lemma {:induction false} KeepFirstChars(s: string, kanji: set<char>)
    ensures forall c :: c in KeepFirst(s, kanji) <==> c in s && c in kanji
    decreases |s|
  {
    if s != [] {
      var p := s[..|s| - 1];
      KeepFirstChars(p, kanji);
      assert s == p + [s[|s| - 1]];
      assert forall c :: c in s <==> c in p || c == s[|s| - 1];
    }
  }

  /** No kanji is repeated in the result. */
  lemma {:induction false} KeepFirstDistinct(s: string, kanji: set<char>)
    ensures Distinct(KeepFirst(s, kanji))
    decreases |s|
  {
    if s != [] {
      var front := KeepFirst(s[..|s| - 1], kanji);
      KeepFirstDistinct(s[..|s| - 1], kanji);
      var c := s[|s| - 1];
      if c in kanji && c !in front {
        var r := front + [c];
        forall k, l | 0 <= k < l < |r|
          ensures r[k] != r[l]
        {
          if l == |front| {
            assert r[k] == front[k] && front[k] in front;
          }
        }
      }
    }
  }

  /** A string without repeats has as many distinct characters as it has characters. */
  lemma {:induction false} DistinctCard(s: string)
    requires Distinct(s)
    ensures |set c | c in s| == |s|
    decreases |s|
  {
    if s != [] {
      var p := s[..|s| - 1];
      var c := s[|s| - 1];
      assert Distinct(p);
      DistinctCard(p);
      assert c !in p;
      assert (set x | x in s) == (set x | x in p) + {c};
    }
  }

  /** The result is never longer than the syllabus. */
  lemma KeepFirstShort(s: string, kanji: set<char>)
    ensures |KeepFirst(s, kanji)| <= |kanji|
  {
    var r := KeepFirst(s, kanji);
    KeepFirstChars(s, kanji);
    KeepFirstDistinct(s, kanji);
    DistinctCard(r);
    var chars := set c | c in r;
    assert chars <= kanji;
    assert kanji == chars + (kanji - chars);
  }

  /** The first occurrence of a character in a prefix is its first occurrence in the whole string. */
  lemma {:induction false} FirstIndexPrefix(s: string, m: nat, c: char)
    requires m <= |s| && c in s[..m]
    ensures FirstIndex(s, c) == FirstIndex(s[..m], c) < m
    decreases |s|
  {
    if s[0] != c {
      assert s[..m][1..] == s[1..][..m - 1];
      FirstIndexPrefix(s[1..], m - 1, c);
    }
  }

  /** A character met for the first time at position `m` has its first occurrence there. */
  lemma {:induction false} FirstIndexAt(s: string, m: nat, c: char)
    requires m < |s| && s[m] == c && c !in s[..m]
    ensures FirstIndex(s, c) == m
    decreases m
  {
    if m > 0 {
      assert s[0] in s[..m];
      assert s[1..][..m - 1] == s[1..m];
      assert forall x :: x in s[1..m] ==> x in s[..m];
      FirstIndexAt(s[1..], m - 1, c);
    }
  }

  /** The kanji come out in the order of their first occurrence in the paragraph. */
  lemma {:induction false} KeepFirstOrder(s: string, kanji: set<char>)
    ensures forall i, j :: 0 <= i < j < |KeepFirst(s, kanji)| ==>
              FirstIndex(s, KeepFirst(s, kanji)[i]) < FirstIndex(s, KeepFirst(s, kanji)[j])
    decreases |s|
  {
    if s != [] {
      var n := |s| - 1;
      var p := s[..n];
      var front := KeepFirst(p, kanji);
      KeepFirstOrder(p, kanji);
      KeepFirstChars(p, kanji);
      forall i | 0 <= i < |front|
        ensures FirstIndex(s, front[i]) == FirstIndex(p, front[i]) < n
      {
        assert front[i] in front;
        FirstIndexPrefix(s, n, front[i]);
      }
      var c := s[n];
      if c in kanji && c !in front {
        FirstIndexAt(s, n, c);
        var r := front + [c];
        forall i, j | 0 <= i < j < |r|
          ensures FirstIndex(s, r[i]) < FirstIndex(s, r[j])
        {
          assert r[i] == front[i];
        }
      }
    }
  }

  /** A string of distinct syllabus kanji is left as it is. */
  lemma {:induction false} KeepFirstFixed(t: string, kanji: set<char>)
    requires Distinct(t) && forall c :: c in t ==> c in kanji
    ensures KeepFirst(t, kanji) == t
    decreases |t|
  {
    if t != [] {
      var p := t[..|t| - 1];
      var c := t[|t| - 1];
      assert Distinct(p);
      KeepFirstFixed(p, kanji);
      assert c !in p;
      assert t == p + [c];
    }
  }

  /** Extracting twice is extracting once. */
  lemma KeepFirstIdempotent(s: string, kanji: set<char>)
    ensures KeepFirst(KeepFirst(s, kanji), kanji) == KeepFirst(s, kanji)
  {
    KeepFirstChars(s, kanji);
    KeepFirstDistinct(s, kanji);
    KeepFirstFixed(KeepFirst(s, kanji), kanji);
  }

  /** A row appended to the materials file: name, cost and kanji, all as text. */
  datatype Row = Row(name: string, cost: string, kanji: string)

  /** The row for the paragraph at (0-based) position `i`: named after its 1-based position. */
  function RowAt(name: string, paragraphs: seq<string>, kanji: set<char>, i: nat): Row
    requires i < |paragraphs|
  {
    Row(name + " " + Decimal(i + 1), Decimal(|paragraphs[i]|), KeepFirst(paragraphs[i], kanji))
  }

  /** The rows built from the first `n` paragraphs: one per paragraph that holds a kanji. */
  function RowsOf(name: string, paragraphs: seq<string>, kanji: set<char>, n: nat): seq<Row>
    requires n <= |paragraphs|
  {
    if n == 0 then []
    else
      RowsOf(name, paragraphs, kanji, n - 1) +
        (if KeepFirst(paragraphs[n - 1], kanji) == [] then [] else [RowAt(name, paragraphs, kanji, n - 1)])
  }

  /** The positions of the paragraphs among the first `n` that hold a kanji. */
  function Kept(paragraphs: seq<string>, kanji: set<char>, n: nat): seq<nat>
    requires n <= |paragraphs|
  {
    if n == 0 then []
    else Kept(paragraphs, kanji, n - 1) + (if KeepFirst(paragraphs[n - 1], kanji) == [] then [] else [n - 1])
  }

  /**
   * The rows loop of `main`: paragraphs are numbered from 1, and a paragraph
   * without any kanji is skipped, leaving a gap in the numbering.
   */
  method BuildRows(name: string, paragraphs: seq<string>, kanji: set<char>) returns (rows: seq<Row>)
    ensures rows == RowsOf(name, paragraphs, kanji, |paragraphs|)
  {
    rows := [];
    for i := 0 to |paragraphs|
      invariant rows == RowsOf(name, paragraphs, kanji, i)
    {
      var idx := i + 1;
      var para := paragraphs[i];
      var kanjiConcat := ExtractN5Kanji(para, kanji);
      if kanjiConcat == [] {
        continue;
      }
      rows := rows + [Row(name + " " + Decimal(idx), Decimal(|para|), kanjiConcat)];
    }
  }

  /** The kept positions are ascending, below `n`, and are exactly the paragraphs that hold a kanji. */
  lemma {:induction false} KeptSpec(paragraphs: seq<string>, kanji: set<char>, n: nat)
    requires n <= |paragraphs|
    ensures forall j :: 0 <= j < |Kept(paragraphs, kanji, n)| ==> Kept(paragraphs, kanji, n)[j] < n
    ensures forall i: nat :: i in Kept(paragraphs, kanji, n) <==> i < n && KeepFirst(paragraphs[i], kanji) != []
    ensures forall j, l :: 0 <= j < l < |Kept(paragraphs, kanji, n)| ==> Kept(paragraphs, kanji, n)[j] < Kept(paragraphs, kanji, n)[l]
  {
    if n > 0 {
      KeptSpec(paragraphs, kanji, n - 1);
      var front := Kept(paragraphs, kanji, n - 1);
      if KeepFirst(paragraphs[n - 1], kanji) != [] {
        var ks := front + [n - 1];
        forall j, l | 0 <= j < l < |ks|
          ensures ks[j] < ks[l]
        {
          if l == |front| {
            assert ks[j] == front[j];
          }
        }
      }
    }
  }

  /** The `j`-th row is the row of the `j`-th paragraph that holds a kanji. */
  lemma {:induction false} RowsOfKept(name: string, paragraphs: seq<string>, kanji: set<char>, n: nat)
    requires n <= |paragraphs|
    ensures |RowsOf(name, paragraphs, kanji, n)| == |Kept(paragraphs, kanji, n)|
    ensures forall j :: 0 <= j < |Kept(paragraphs, kanji, n)| ==>
              Kept(paragraphs, kanji, n)[j] < |paragraphs| &&
              RowsOf(name, paragraphs, kanji, n)[j] == RowAt(name, paragraphs, kanji, Kept(paragraphs, kanji, n)[j])
  {
    if n > 0 {
      RowsOfKept(name, paragraphs, kanji, n - 1);
      KeptSpec(paragraphs, kanji, n - 1);
    }
  }

  /**
   * Every row has a non-empty kanji field, and its cost is the decimal length
   * of its paragraph, at least 1.
   */
  lemma RowsWellFormed(name: string, paragraphs: seq<string>, kanji: set<char>, row: Row)
    requires row in RowsOf(name, paragraphs, kanji, |paragraphs|)
    ensures row.kanji != []
    ensures exists i :: 0 <= i < |paragraphs| && |paragraphs[i]| >= 1 && row == RowAt(name, paragraphs, kanji, i)
  {
    RowsOfKept(name, paragraphs, kanji, |paragraphs|);
    KeptSpec(paragraphs, kanji, |paragraphs|);
    var j :| 0 <= j < |RowsOf(name, paragraphs, kanji, |paragraphs|)| && RowsOf(name, paragraphs, kanji, |paragraphs|)[j] == row;
    var i := Kept(paragraphs, kanji, |paragraphs|)[j];
    assert i in Kept(paragraphs, kanji, |paragraphs|);
    KeepFirstChars(paragraphs[i], kanji);
    assert KeepFirst(paragraphs[i], kanji)[0] in paragraphs[i];
  }

  /** `int(s)` on the cost column as the loader reads it: `None` when it does not parse. */
  function ReadCost(field: string): (r: Option<int>)
    ensures r.Some? ==> r.value >= 0
    ensures r.None? <==> field == [] || exists i :: 0 <= i < |field| && !IsDigit(field[i])
  {
    match ParseDigits(field)
    case Some(n) => Some(n)
    case None => None
  }

  /**
   * What the loader makes of a row this loop wrote: its cost is the length of
   * its paragraph and its coverage is the set of its kanji, provided the
   * syllabus lies in the universe and holds no whitespace.
   */
  lemma RowLoadsAsMaterial(name: string, paragraphs: seq<string>, kanji: set<char>, universe: set<char>, row: Row)
    requires row in RowsOf(name, paragraphs, kanji, |paragraphs|)
    requires kanji <= universe && forall c :: c in kanji ==> !IsSpace(c)
    ensures Accept(Record(row.name, ReadCost(row.cost), Some(row.kanji)), universe).Some?
    ensures var m := Accept(Record(row.name, ReadCost(row.cost), Some(row.kanji)), universe).value;
            (exists i :: 0 <= i < |paragraphs| && row == RowAt(name, paragraphs, kanji, i) && m.cost == |paragraphs[i]|) &&
            m.cover == set c | c in row.kanji
  {
    RowsWellFormed(name, paragraphs, kanji, row);
    var i :| 0 <= i < |paragraphs| && |paragraphs[i]| >= 1 && row == RowAt(name, paragraphs, kanji, i);
    ParseDecimal(|paragraphs[i]|);
    KeepFirstChars(paragraphs[i], kanji);
    var k := row.kanji;
    assert k == KeepFirst(paragraphs[i], kanji);
    assert !IsSpace(k[0]) && !IsSpace(k[|k| - 1]) by {
      assert k[0] in k && k[|k| - 1] in k;
    }
    assert Strip(k) == k;
    assert k[0] in Coverage(k, universe);
    assert Coverage(k, universe) == set c | c in k;
  }
}
