/**
 * `split_paragraphs` of `Multicover/data_collection.py`: line endings are
 * normalised to `\n`, the text is stripped, split at blank lines with the
 * pattern `\n\s*\n+`, and every non-blank piece is stripped.
 *
 * The regular-expression search is written out for this one pattern: at each
 * position, left to right, a match is a newline followed by whitespace up to
 * the last newline of that whitespace run (the greedy `\s*` gives back only
 * the newline that `\n+` needs).
 */
module Paragraphs {
  import opened Wrappers
  import opened Text

  /** `text.replace("\r\n", "\n").replace("\r", "\n")`: no carriage return is left. */
  function NormaliseNewlines(text: string): (r: string)
    ensures '\r' !in r
  {
    ReplaceCharRemoves(Replace(text, "\r\n", "\n"), '\r', '\n');
    Replace(Replace(text, "\r\n", "\n"), "\r", "\n")
  }

  /** Replacing by whitespace in a whitespace-only string leaves it whitespace-only. */
  lemma {:induction false} ReplaceKeepsBlank(s: string, pat: string, rep: string)
    requires |pat| > 0
    requires forall i :: 0 <= i < |s| ==> IsSpace(s[i])
    requires forall i :: 0 <= i < |rep| ==> IsSpace(rep[i])
    ensures forall i :: 0 <= i < |Replace(s, pat, rep)| ==> IsSpace(Replace(s, pat, rep)[i])
    decreases |s|
  {
    if |s| >= |pat| {
      if s[..|pat|] == pat {
        ReplaceKeepsBlank(s[|pat|..], pat, rep);
      } else {
        ReplaceKeepsBlank(s[1..], pat, rep);
      }
    }
  }

  /** The end of the run of whitespace that starts at `i`. */
  function SpaceRunEnd(s: string, i: nat): (e: nat)
    requires i <= |s|
    ensures i <= e <= |s|
    ensures forall j :: i <= j < e ==> IsSpace(s[j])
    ensures e == |s| || !IsSpace(s[e])
    decreases |s| - i
  {
    if i == |s| || !IsSpace(s[i]) then i else SpaceRunEnd(s, i + 1)
  }

  /** The last newline at an index in `[lo, hi)`, if any. */
  function LastNewline(s: string, lo: nat, hi: nat): (k: Option<nat>)
    requires lo <= hi <= |s|
    ensures k.Some? ==> lo <= k.value < hi && s[k.value] == '\n'
    ensures k.Some? ==> forall j :: k.value < j < hi ==> s[j] != '\n'
    ensures k.None? ==> forall j :: lo <= j < hi ==> s[j] != '\n'
    decreases hi - lo
  {
    if hi == lo then None
    else if s[hi - 1] == '\n' then Some(hi - 1)
    else LastNewline(s, lo, hi - 1)
  }

  /**
   * The end of the match of `\n\s*\n+` that starts at `p`, if one does: the
   * match is a newline, then whitespace only, and ends just after a newline
   * that is followed by no other newline before the next non-whitespace
   * character.
   */
  function SeparatorAt(s: string, p: nat): (e: Option<nat>)
    requires p < |s|
    ensures e.Some? ==> p + 2 <= e.value <= |s| && s[p] == '\n' && s[e.value - 1] == '\n'
    ensures e.Some? ==> forall j :: p <= j < e.value ==> IsSpace(s[j])
    ensures s[p] != '\n' ==> e.None?
    ensures s[p] == '\n' && (exists q :: p < q < SpaceRunEnd(s, p + 1) && s[q] == '\n') ==> e.Some?
    ensures e.Some? ==> e.value <= SpaceRunEnd(s, p + 1) && forall j :: e.value <= j < SpaceRunEnd(s, p + 1) ==> s[j] != '\n'
  {
    if s[p] != '\n' then None
    else
      match LastNewline(s, p + 1, SpaceRunEnd(s, p + 1))
      case None => None
      case Some(k) => Some(k + 1)
  }

  /**
   * `re.split(r"\n\s*\n+", s)`, resumed at position `p` of the search with
   * the current piece starting at `start`.
   */
  function SplitFrom(s: string, start: nat, p: nat): (parts: seq<string>)
    requires start <= p <= |s|
    ensures |parts| >= 1
    decreases |s| - p
  {
    if p == |s| then [s[start..]]
    else
      match SeparatorAt(s, p)
      case Some(e) => [s[start..p]] + SplitFrom(s, e, e)
      case None => SplitFrom(s, start, p + 1)
  }

  /** `[p.strip() for p in parts if p.strip()]`. */
  function CleanParts(parts: seq<string>): seq<string>
    decreases |parts|
  {
    if parts == [] then []
    else (if Strip(parts[0]) != [] then [Strip(parts[0])] else []) + CleanParts(parts[1..])
  }

  /** `split_paragraphs(text)`. */
  function SplitParagraphs(text: string): seq<string> {
    var t := Strip(NormaliseNewlines(text));
    if t == [] then [] else CleanParts(SplitFrom(t, 0, 0))
  }

  /** Every piece of a split is made of characters of the text. */
  lemma {:induction false} SplitFromChars(s: string, start: nat, p: nat)
    requires start <= p <= |s|
    ensures forall q, c :: q in SplitFrom(s, start, p) && c in q ==> c in s
    decreases |s| - p
  {
    if p < |s| {
      match SeparatorAt(s, p)
      case Some(e) =>
        SplitFromChars(s, e, e);
        assert forall c :: c in s[start..p] ==> c in s;
      case None =>
        SplitFromChars(s, start, p + 1);
    } else {
      assert forall c :: c in s[start..] ==> c in s;
    }
  }

  /** The first piece of a split holds the character it starts with, unless that is a newline. */
  lemma {:induction false} SplitFromFirst(s: string, start: nat, p: nat)
    requires start <= p <= |s| && start < |s|
    requires start == p ==> s[start] != '\n'
    ensures |SplitFrom(s, start, p)| > 0 && s[start] in SplitFrom(s, start, p)[0]
    decreases |s| - p
  {
    if p < |s| {
      match SeparatorAt(s, p)
      case Some(e) =>
        assert s[start..p][0] == s[start];
      case None =>
        SplitFromFirst(s, start, p + 1);
    } else {
      assert s[start..][0] == s[start];
    }
  }

  /** Every cleaned piece is a stripped piece of the input. */
  lemma {:induction false} CleanPartsFrom(parts: seq<string>)
    ensures forall q :: q in CleanParts(parts) ==> exists part :: part in parts && q == Strip(part)
    decreases |parts|
  {
    if parts != [] {
      CleanPartsFrom(parts[1..]);
      forall q | q in CleanParts(parts)
        ensures exists part :: part in parts && q == Strip(part)
      {
        if q !in CleanParts(parts[1..]) {
          assert q == Strip(parts[0]);
        } else {
          var part :| part in parts[1..] && q == Strip(part);
          assert part in parts;
        }
      }
    }
  }

  /** Every cleaned piece is non-empty and neither starts nor ends with whitespace. */
  lemma {:induction false} CleanPartsTrimmed(parts: seq<string>)
    ensures forall q :: q in CleanParts(parts) ==> q != [] && !IsSpace(q[0]) && !IsSpace(q[|q| - 1])
    decreases |parts|
  {
    if parts != [] {
      CleanPartsTrimmed(parts[1..]);
      StripEnds(parts[0]);
    }
  }

  /** Cleaning keeps every piece that is not blank, in its stripped form. */
  lemma {:induction false} CleanPartsKeeps(parts: seq<string>)
    ensures forall part :: part in parts && Strip(part) != [] ==> Strip(part) in CleanParts(parts)
    decreases |parts|
  {
    if parts != [] {
      CleanPartsKeeps(parts[1..]);
      forall part | part in parts && Strip(part) != []
        ensures Strip(part) in CleanParts(parts)
      {
        if part != parts[0] {
          assert part in parts[1..];
        }
      }
    }
  }

  /**
   * `split_paragraphs` returns no paragraph exactly when the text, once its
   * line endings are normalised, is empty or whitespace only.
   */
  lemma NoParagraphsIffBlank(text: string)
    ensures SplitParagraphs(text) == [] <==>
            forall i :: 0 <= i < |NormaliseNewlines(text)| ==> IsSpace(NormaliseNewlines(text)[i])
  {
    var n := NormaliseNewlines(text);
    var t := Strip(n);
    StripChars(n);
    if t != [] {
      StripEnds(n);
      SplitFromFirst(t, 0, 0);
      var parts := SplitFrom(t, 0, 0);
      StripChars(parts[0]);
      CleanPartsKeeps(parts);
      assert Strip(parts[0]) in CleanParts(parts);
    }
  }

  /** In particular a text made of whitespace only has no paragraph. */
  lemma BlankTextHasNoParagraphs(text: string)
    requires forall i :: 0 <= i < |text| ==> IsSpace(text[i])
    ensures SplitParagraphs(text) == []
  {
    ReplaceKeepsBlank(text, "\r\n", "\n");
    ReplaceKeepsBlank(Replace(text, "\r\n", "\n"), "\r", "\n");
    NoParagraphsIffBlank(text);
  }

  /**
   * Every paragraph is non-empty, starts and ends with a character that is
   * not whitespace, and holds no carriage return.
   */
  lemma ParagraphsAreTrimmed(text: string)
    ensures forall q :: q in SplitParagraphs(text) ==>
              q != [] && !IsSpace(q[0]) && !IsSpace(q[|q| - 1]) && '\r' !in q
  {
    var n := NormaliseNewlines(text);
    var t := Strip(n);
    if t != [] {
      var parts := SplitFrom(t, 0, 0);
      CleanPartsFrom(parts);
      CleanPartsTrimmed(parts);
      SplitFromChars(t, 0, 0);
      StripChars(n);
      forall q | q in CleanParts(parts)
        ensures '\r' !in q
      {
        var part :| part in parts && q == Strip(part);
        StripChars(part);
      }
    }
  }

  /** The separators that `SplitFrom` cuts out, in order. */
  function SeparatorsFrom(s: string, start: nat, p: nat): seq<string>
    requires start <= p <= |s|
    decreases |s| - p
  {
    if p == |s| then []
    else
      match SeparatorAt(s, p)
      case Some(e) => [s[p..e]] + SeparatorsFrom(s, e, e)
      case None => SeparatorsFrom(s, start, p + 1)
  }

  /** The pieces with the separators between them, put back together. */
  function Join(pieces: seq<string>, seps: seq<string>): string
    requires |pieces| == |seps| + 1
    decreases |seps|
  {
    if seps == [] then pieces[0] else pieces[0] + seps[0] + Join(pieces[1..], seps[1..])
  }

  /** There is one more piece than there are separators. */
  lemma {:induction false} SplitFromCount(s: string, start: nat, p: nat)
    requires start <= p <= |s|
    ensures |SplitFrom(s, start, p)| == |SeparatorsFrom(s, start, p)| + 1
    decreases |s| - p
  {
    if p < |s| {
      match SeparatorAt(s, p)
      case Some(e) => SplitFromCount(s, e, e);
      case None => SplitFromCount(s, start, p + 1);
    }
  }

  /**
   * `re.split` loses nothing: the pieces, with the matched separators put back
   * between them, rebuild the text.
   */
  lemma {:induction false} SplitFromRebuilds(s: string, start: nat, p: nat)
    requires start <= p <= |s|
    ensures |SplitFrom(s, start, p)| == |SeparatorsFrom(s, start, p)| + 1
    ensures Join(SplitFrom(s, start, p), SeparatorsFrom(s, start, p)) == s[start..]
    decreases |s| - p
  {
    SplitFromCount(s, start, p);
    if p < |s| {
      match SeparatorAt(s, p)
      case Some(e) =>
        SplitFromRebuilds(s, e, e);
        var pieces, seps := SplitFrom(s, start, p), SeparatorsFrom(s, start, p);
        assert pieces[1..] == SplitFrom(s, e, e) && seps[1..] == SeparatorsFrom(s, e, e);
        assert Join(pieces, seps) == s[start..p] + s[p..e] + s[e..];
        assert s[start..] == s[start..p] + s[p..e] + s[e..];
      case None =>
        SplitFromRebuilds(s, start, p + 1);
    }
  }

  /** Every separator is a blank line: a whitespace-only run that starts and ends with a newline. */
  lemma {:induction false} SeparatorsAreBlankLines(s: string, start: nat, p: nat)
    requires start <= p <= |s|
    ensures forall sep :: sep in SeparatorsFrom(s, start, p) ==>
              |sep| >= 2 && sep[0] == '\n' && sep[|sep| - 1] == '\n' && forall j :: 0 <= j < |sep| ==> IsSpace(sep[j])
    decreases |s| - p
  {
    if p < |s| {
      match SeparatorAt(s, p)
      case Some(e) => SeparatorsAreBlankLines(s, e, e);
      case None => SeparatorsAreBlankLines(s, start, p + 1);
    }
  }

  /**
   * Every piece is a slice of the text in which no separator starts: the
   * scan tried every position of the piece and found no match there.
   */
  lemma {:induction false} SplitFromPieces(s: string, start: nat, p: nat)
    requires start <= p <= |s|
    requires forall x :: start <= x < p ==> SeparatorAt(s, x).None?
    ensures forall q :: q in SplitFrom(s, start, p) ==>
              exists a, b :: 0 <= a <= b <= |s| && q == s[a..b] && forall x :: a <= x < b ==> SeparatorAt(s, x).None?
    decreases |s| - p
  {
    if p < |s| {
      match SeparatorAt(s, p)
      case Some(e) =>
        SplitFromPieces(s, e, e);
        assert forall x :: start <= x < p ==> SeparatorAt(s, x).None?;
      case None =>
        SplitFromPieces(s, start, p + 1);
    } else {
      assert SplitFrom(s, start, p) == [s[start..]];
      assert s[start..] == s[start..|s|];
    }
  }

  /** A whitespace run inside a slice runs at least as far in the whole text. */
  lemma SpaceRunEndSlice(t: string, o: nat, q: string, x: nat)
    requires o + |q| <= |t| && q == t[o..o + |q|] && x <= |q|
    ensures o + SpaceRunEnd(q, x) <= SpaceRunEnd(t, o + x)
  {
  }

  /** A blank line inside a slice is a blank line of the whole text. */
  lemma SeparatorInSlice(t: string, o: nat, q: string, i: nat)
    requires o + |q| <= |t| && q == t[o..o + |q|] && i < |q|
    requires SeparatorAt(q, i).Some?
    ensures SeparatorAt(t, o + i).Some?
  {
    var k := SeparatorAt(q, i).value - 1;
    SpaceRunEndSlice(t, o, q, i + 1);
    assert t[o + i] == q[i] && t[o + k] == q[k];
  }

  /** `q` occurs in `t` at offset `o`. */
  predicate OccursAt(t: string, o: nat, q: string) {
    o + |q| <= |t| && q == t[o..o + |q|]
  }

  /** Stripping a slice of a text leaves a slice of the text lying within it. */
  lemma StrippedSlice(t: string, a: nat, b: nat)
    requires a <= b <= |t|
    ensures exists o: nat :: a <= o && o + |Strip(t[a..b])| <= b && OccursAt(t, o, Strip(t[a..b]))
  {
    var part := t[a..b];
    StripSlice(part);
    var i: nat, j: nat :| TrimmedAt(part, i, j) && Strip(part) == part[i..j];
    SliceOfSlice(t, a, b, i, j);
    assert OccursAt(t, a + i, Strip(part));
  }

  /** A stripped piece of a slice without separators holds no blank line. */
  lemma StrippedPieceHasNoBlankLine(t: string, a: nat, b: nat, i: nat)
    requires a <= b <= |t| && forall x :: a <= x < b ==> SeparatorAt(t, x).None?
    requires i < |Strip(t[a..b])|
    ensures SeparatorAt(Strip(t[a..b]), i).None?
  {
    var q := Strip(t[a..b]);
    StrippedSlice(t, a, b);
    var o: nat :| a <= o && o + |q| <= b && OccursAt(t, o, q);
    if SeparatorAt(q, i).Some? {
      SeparatorInSlice(t, o, q, i);
      assert false;
    }
  }

  /**
   * `split_paragraphs` splits at every blank line: no paragraph holds a
   * newline followed by whitespace containing another newline.
   */
  lemma ParagraphsHaveNoBlankLine(text: string)
    ensures forall q, i :: q in SplitParagraphs(text) && 0 <= i < |q| ==> SeparatorAt(q, i).None?
  {
    var t := Strip(NormaliseNewlines(text));
    if t != [] {
      var parts := SplitFrom(t, 0, 0);
      CleanPartsFrom(parts);
      SplitFromPieces(t, 0, 0);
      forall q, i | q in CleanParts(parts) && 0 <= i < |q|
        ensures SeparatorAt(q, i).None?
      {
        var part :| part in parts && q == Strip(part);
        var a, b :| 0 <= a <= b <= |t| && part == t[a..b] && forall x :: a <= x < b ==> SeparatorAt(t, x).None?;
        StrippedPieceHasNoBlankLine(t, a, b, i);
      }
    }
  }

  /** A character of a join that is not whitespace lies in one of the pieces, when the separators are whitespace only. */
  lemma {:induction false} JoinChars(pieces: seq<string>, seps: seq<string>, c: char)
    requires |pieces| == |seps| + 1
    requires forall sep, j :: sep in seps && 0 <= j < |sep| ==> IsSpace(sep[j])
    requires c in Join(pieces, seps) && !IsSpace(c)
    ensures exists piece :: piece in pieces && c in piece
    decreases |seps|
  {
    if seps != [] {
      var rest := Join(pieces[1..], seps[1..]);
      assert Join(pieces, seps) == pieces[0] + seps[0] + rest;
      if c in pieces[0] {
      } else if c in seps[0] {
        assert false;
      } else {
        JoinChars(pieces[1..], seps[1..], c);
        var piece :| piece in pieces[1..] && c in piece;
        assert piece in pieces;
      }
    }
  }

  /**
   * `split_paragraphs` loses no text: every character of the normalised text
   * that is not whitespace lands in some paragraph.
   */
  lemma ParagraphsKeepContent(text: string, c: char)
    requires c in NormaliseNewlines(text) && !IsSpace(c)
    ensures exists q :: q in SplitParagraphs(text) && c in q
  {
    var t := Strip(NormaliseNewlines(text));
    StripChars(NormaliseNewlines(text));
    var parts, seps := SplitFrom(t, 0, 0), SeparatorsFrom(t, 0, 0);
    SplitFromRebuilds(t, 0, 0);
    assert t[0..] == t;
    SeparatorsAreBlankLines(t, 0, 0);
    JoinChars(parts, seps, c);
    var piece :| piece in parts && c in piece;
    StripChars(piece);
    CleanPartsKeeps(parts);
    assert Strip(piece) in SplitParagraphs(text);
  }
}
