/**
 * The two string primitives the notepad's Find and Replace commands run on
 * the text of the editor: Tk's forward, exact, case-sensitive `Text.search`
 * (used in a loop to collect the spans to highlight) and Python's
 * `str.replace` (every leftmost non-overlapping occurrence).
 * Offsets are plain integers into the text instead of Tk's "line.col" indices.
 */
module Strings {

  datatype Option<T> = None | Some(value: T)

  /**
   * The pattern `p` occurs in `s` starting at offset `i`: it fits, and it
   * matches character by character.
   */
  predicate OccursAt(s: string, p: string, i: int)
    decreases |p|
  {
    0 <= i && i + |p| <= |s| && (p == [] || (s[i] == p[0] && OccursAt(s, p[1..], i + 1)))
  }

  /** An occurrence is a slice of `s` equal to `p`. */
  lemma {:induction false} OccursAtSlice(s: string, p: string, i: int)
    ensures OccursAt(s, p, i) <==> 0 <= i && i + |p| <= |s| && s[i..i + |p|] == p
    decreases |p|
  {
    if p != [] && 0 <= i && i + |p| <= |s| {
      OccursAtSlice(s, p[1..], i + 1);
      assert s[i..i + |p|] == [s[i]] + s[i + 1..i + |p|];
      assert p == [p[0]] + p[1..];
    }
  }

  /** Occurrences in a suffix `s[d..]` are the occurrences in `s`, moved left by `d`. */
  lemma ShiftOccurs(s: string, p: string, d: nat, j: int)
    requires d <= |s|
    ensures OccursAt(s[d..], p, j) <==> 0 <= j && OccursAt(s, p, d + j)
  {
    OccursAtSlice(s[d..], p, j);
    OccursAtSlice(s, p, d + j);
    if 0 <= j && j + |p| <= |s| - d {
      assert s[d..][j..j + |p|] == s[d + j..d + j + |p|];
    }
  }

  /**
   * Tk's `search(p, start, END)` in its default mode (exact, case-sensitive,
   * forwards, no wrap-around): the least offset at or after `start` where `p`
   * occurs, or None when there is none before the end.
   */
  function Search(s: string, p: string, start: nat): (r: Option<nat>)
    ensures r.Some? ==> start <= r.value && OccursAt(s, p, r.value)
    ensures r.Some? ==> forall j :: start <= j < r.value ==> !OccursAt(s, p, j)
    ensures r.None? ==> forall j :: start <= j ==> !OccursAt(s, p, j)
    decreases |s| - start
  {
    if start + |p| > |s| then None
    else if OccursAt(s, p, start) then Some(start)
    else Search(s, p, start + 1)
  }

  /** `p` occurs nowhere in `s` at an offset in [lo, hi). */
  ghost predicate NoneBetween(s: string, p: string, lo: int, hi: int)
  {
    forall j :: lo <= j < hi ==> !OccursAt(s, p, j)
  }

  /** `p` occurs nowhere in `s` at an offset at or after `lo`. */
  ghost predicate NoneFrom(s: string, p: string, lo: int)
  {
    forall j :: lo <= j ==> !OccursAt(s, p, j)
  }

  /** Each span begins at or after the end of the one before it (the first at or after `from`) and ends within `n`. */
  ghost predicate Separated(from: int, spans: seq<(int, int)>, n: int)
    decreases |spans|
  {
    spans == [] || (from <= spans[0].0 <= spans[0].1 <= n && Separated(spans[0].1, spans[1..], n))
  }

  /**
   * The spans the Find loop tags when it starts at `start`: search, tag the hit
   * `(i, i + |p|)`, resume the search just past it, until the search fails.
   */
  function SpansFrom(s: string, p: string, start: nat): (spans: seq<(int, int)>)
    requires |p| > 0
    ensures Separated(start, spans, |s|)
    decreases |s| - start
  {
    match Search(s, p, start)
    case None => []
    case Some(i) => [(i, i + |p|)] + SpansFrom(s, p, i + |p|)
  }

  /**
   * One step of the Find loop: when the spans tagged so far followed by the
   * scan from `start` make up the whole scan, and the search from `start`
   * hits at `i`, tagging `(i, i + |p|)` and resuming past it keeps that so.
   */
  lemma ScanStep(s: string, p: string, start: nat, i: nat, done: seq<(int, int)>)
    requires |p| > 0 && Search(s, p, start) == Some(i)
    requires done + SpansFrom(s, p, start) == SpansFrom(s, p, 0)
    ensures (done + [(i, i + |p|)]) + SpansFrom(s, p, i + |p|) == SpansFrom(s, p, 0)
  {
    var rest := SpansFrom(s, p, i + |p|);
    assert SpansFrom(s, p, start) == [(i, i + |p|)] + rest;
    assert done + ([(i, i + |p|)] + rest) == (done + [(i, i + |p|)]) + rest;
  }

  /** The last step of the Find loop: when the search from `start` fails, the spans tagged so far are the whole scan. */
  lemma ScanEnd(s: string, p: string, start: nat, done: seq<(int, int)>)
    requires |p| > 0 && Search(s, p, start) == None
    requires done + SpansFrom(s, p, start) == SpansFrom(s, p, 0)
    ensures done == FindSpans(s, p)
  {
    assert done + [] == done;
  }

  /** The highlights of a Find for `p`: none for the empty pattern, otherwise the scan from offset 0. */
  function FindSpans(s: string, p: string): (spans: seq<(int, int)>)
    ensures Separated(0, spans, |s|)
  {
    if p == [] then [] else SpansFrom(s, p, 0)
  }

  /**
   * What a left-to-right scan from `start` must produce, stated without the
   * scan: the first span is the first occurrence of `p` at or after `start`
   * (an occurrence, with nothing before it), the rest is the same from the end
   * of that span on, and when there is no span there is no occurrence left.
   */
  ghost predicate Greedy(s: string, p: string, start: int, spans: seq<(int, int)>)
    decreases |spans|
  {
    if spans == [] then NoneFrom(s, p, start)
    else
      && start <= spans[0].0
      && spans[0].1 == spans[0].0 + |p|
      && OccursAt(s, p, spans[0].0)
      && NoneBetween(s, p, start, spans[0].0)
      && Greedy(s, p, spans[0].1, spans[1..])
  }

  /** The scan meets its declarative description. */
  lemma {:induction false} SpansFromGreedy(s: string, p: string, start: nat)
    requires |p| > 0
    ensures Greedy(s, p, start, SpansFrom(s, p, start))
    decreases |s| - start
  {
    match Search(s, p, start)
    case None =>
    case Some(i) =>
      SpansFromGreedy(s, p, i + |p|);
      var spans := SpansFrom(s, p, start);
      assert spans[0] == (i, i + |p|) && spans[1..] == SpansFrom(s, p, i + |p|);
  }

  /** The search lands on the first occurrence at or after `start`, whichever way it is described. */
  lemma SearchFinds(s: string, p: string, start: nat, a: int)
    requires start <= a && OccursAt(s, p, a) && NoneBetween(s, p, start, a)
    ensures Search(s, p, start) == Some(a)
  {
  }

  /** With no occurrence at or after `start`, the search fails. */
  lemma SearchFails(s: string, p: string, start: nat)
    requires NoneFrom(s, p, start)
    ensures Search(s, p, start) == None
  {
  }

  /** The description determines the spans: only the scan's result meets it. */
  lemma {:induction false} GreedyUnique(s: string, p: string, start: nat, spans: seq<(int, int)>)
    requires |p| > 0
    requires Greedy(s, p, start, spans)
    ensures spans == SpansFrom(s, p, start)
    decreases |spans|
  {
    if spans == [] {
      SearchFails(s, p, start);
    } else {
      var a := spans[0].0;
      assert spans[0] == (a, a + |p|);
      SearchFinds(s, p, start, a);
      assert SpansFrom(s, p, start) == [(a, a + |p|)] + SpansFrom(s, p, a + |p|);
      GreedyUnique(s, p, a + |p|, spans[1..]);
      assert spans == [spans[0]] + spans[1..];
    }
  }

  /**
   * Find's spans, characterised in both directions: for a non-empty pattern,
   * a span list is the one Find produces exactly when it meets `Greedy` from
   * offset 0; for the empty pattern Find produces none.
   */
  lemma FindSpansCharacterized(s: string, p: string, spans: seq<(int, int)>)
    ensures p == [] ==> FindSpans(s, p) == []
    ensures p != [] ==> (spans == FindSpans(s, p) <==> Greedy(s, p, 0, spans))
  {
    if p != [] {
      SpansFromGreedy(s, p, 0);
      if Greedy(s, p, 0, spans) {
        GreedyUnique(s, p, 0, spans);
      }
    }
  }

  /** Where the k-th span may start at the earliest: `start`, or the end of the span before it. */
  function GapStart(start: int, spans: seq<(int, int)>, k: int): int
    requires 0 <= k <= |spans|
  {
    if k == 0 then start else spans[k - 1].1
  }

  /**
   * The k-th span of a greedy list, on its own: it is an occurrence of `p`
   * inside `s`, it starts no earlier than the end of the span before it (or
   * `start`), and nothing occurs in the gap before it.
   */
  lemma {:induction false} GreedyAt(s: string, p: string, start: int, spans: seq<(int, int)>, k: nat)
    requires Greedy(s, p, start, spans) && k < |spans|
    ensures spans[k].1 == spans[k].0 + |p| && OccursAt(s, p, spans[k].0)
    ensures GapStart(start, spans, k) <= spans[k].0
    ensures NoneBetween(s, p, GapStart(start, spans, k), spans[k].0)
    decreases k
  {
    if k > 0 {
      GreedyAt(s, p, spans[0].1, spans[1..], k - 1);
      assert spans[1..][k - 1] == spans[k];
      if k > 1 {
        assert spans[1..][k - 2] == spans[k - 1];
      }
    }
  }

  /** Nothing occurs after the last span of a greedy list (or after `start` when it is empty). */
  lemma {:induction false} GreedyEnd(s: string, p: string, start: int, spans: seq<(int, int)>)
    requires Greedy(s, p, start, spans)
    ensures NoneFrom(s, p, GapStart(start, spans, |spans|))
    decreases |spans|
  {
    if spans != [] {
      GreedyEnd(s, p, spans[0].1, spans[1..]);
      if |spans| > 1 {
        assert spans[1..][|spans| - 2] == spans[|spans| - 1];
      }
    }
  }

  /** The k-th span of a greedy list from 0 is a non-empty slice of `s` equal to `p`, at or after the end of the span before it. */
  lemma GreedySpanExact(s: string, p: string, spans: seq<(int, int)>, k: nat)
    requires p != [] && Greedy(s, p, 0, spans) && k < |spans|
    ensures 0 <= spans[k].0 < spans[k].1 <= |s| && s[spans[k].0..spans[k].1] == p
    ensures k > 0 ==> spans[k - 1].1 <= spans[k].0
  {
    GreedyAt(s, p, 0, spans, k);
    OccursAtSlice(s, p, spans[k].0);
  }

  /** Each span the scan tags is an exact, non-empty occurrence inside `s`, and each begins at or after the end of the one before. */
  lemma FindSpansExact(s: string, p: string)
    requires p != []
    ensures var spans := FindSpans(s, p);
      && (forall k :: 0 <= k < |spans| ==> 0 <= spans[k].0 < spans[k].1 <= |s| && s[spans[k].0..spans[k].1] == p)
      && (forall k :: 0 < k < |spans| ==> spans[k - 1].1 <= spans[k].0)
  {
    var spans := FindSpans(s, p);
    SpansFromGreedy(s, p, 0);
    forall k | 0 <= k < |spans|
      ensures 0 <= spans[k].0 < spans[k].1 <= |s| && s[spans[k].0..spans[k].1] == p
      ensures k > 0 ==> spans[k - 1].1 <= spans[k].0
    {
      GreedySpanExact(s, p, spans, k);
    }
  }

  /** No occurrence of `p` is left untagged: none before the first span, between two spans, or after the last. */
  lemma FindSpansComplete(s: string, p: string)
    requires p != []
    ensures var spans := FindSpans(s, p);
      && NoneBetween(s, p, 0, if spans == [] then |s| else spans[0].0)
      && (forall k :: 0 < k < |spans| ==> NoneBetween(s, p, spans[k - 1].1, spans[k].0))
      && (spans != [] ==> NoneFrom(s, p, spans[|spans| - 1].1))
  {
    var spans := FindSpans(s, p);
    SpansFromGreedy(s, p, 0);
    forall k | 0 < k < |spans|
      ensures NoneBetween(s, p, spans[k - 1].1, spans[k].0)
    {
      GreedyAt(s, p, 0, spans, k);
    }
    if spans != [] {
      GreedyAt(s, p, 0, spans, 0);
    }
    GreedyEnd(s, p, 0, spans);
  }

  // ---------------------------------------------------------------------------
  // Python's str.replace

  /** `s.replace("", r)`: `r` before every character of `s` and once more at the end. */
  function Interleave(s: string, r: string): (res: string)
    ensures r == [] ==> res == s
  {
    if s == [] then r else r + [s[0]] + Interleave(s[1..], r)
  }

  /**
   * `s.replace(f, r)`: every leftmost non-overlapping occurrence of `f`,
   * scanned from the left, becomes `r`; an empty `f` inserts `r` around every
   * character.  Replacing a pattern by itself gives back the text.
   */
  function ReplaceAll(s: string, f: string, r: string): (res: string)
    ensures r == f ==> res == s
    decreases |s|
  {
    if f == [] then Interleave(s, r)
    else if |s| < |f| then s
    else if OccursAt(s, f, 0) then
      OccursAtSlice(s, f, 0);
      assert s == s[..|f|] + s[|f|..];
      r + ReplaceAll(s[|f|..], f, r)
    else [s[0]] + ReplaceAll(s[1..], f, r)
  }

  /** Where `f` does not occur at offset `c`, the character there is kept and the replacement goes on from the next. */
  lemma ReplaceSkipAt(s: string, f: string, r: string, c: nat)
    requires f != [] && c + |f| <= |s| && !OccursAt(s, f, c)
    ensures ReplaceAll(s[c..], f, r) == [s[c]] + ReplaceAll(s[c + 1..], f, r)
  {
    ShiftOccurs(s, f, c, 0);
    assert s[c..][1..] == s[c + 1..];
  }

  /** Where `f` occurs at offset `i`, it becomes `r` and the replacement goes on just past it. */
  lemma ReplaceHitAt(s: string, f: string, r: string, i: nat)
    requires f != [] && i <= |s| && OccursAt(s, f, i)
    ensures ReplaceAll(s[i..], f, r) == r + ReplaceAll(s[i + |f|..], f, r)
  {
    ShiftOccurs(s, f, i, 0);
    assert s[i..][|f|..] == s[i + |f|..];
  }

  /** A non-empty pattern that does not occur from offset `c` on leaves that suffix unchanged. */
  lemma {:induction false} ReplaceAbsentFrom(s: string, f: string, r: string, c: nat)
    requires f != [] && c <= |s| && NoneFrom(s, f, c)
    ensures ReplaceAll(s[c..], f, r) == s[c..]
    decreases |s| - c
  {
    if c + |f| <= |s| {
      ReplaceSkipAt(s, f, r, c);
      ReplaceAbsentFrom(s, f, r, c + 1);
      assert [s[c]] + s[c + 1..] == s[c..];
    }
  }

  /** A non-empty pattern that does not occur leaves the text unchanged. */
  lemma ReplaceAbsent(s: string, f: string, r: string)
    requires f != []
    requires forall j :: !OccursAt(s, f, j)
    ensures ReplaceAll(s, f, r) == s
  {
    ReplaceAbsentFrom(s, f, r, 0);
    assert s[0..] == s;
  }

  /** Re-bracketing a concatenation that starts with one character. */
  lemma ConsRegroup(x: char, a: string, b: string, c: string)
    ensures [x] + (a + b + c) == ([x] + a) + b + c
  {
  }

  /** A slice is its first character followed by the rest of it. */
  lemma ConsSlice(s: string, c: nat, i: nat)
    requires c < i <= |s|
    ensures [s[c]] + s[c + 1..i] == s[c..i]
  {
  }

  /**
   * When, from offset `c` on, the first occurrence of `f` is at `i`, the text
   * from `c` up to it is kept, the occurrence becomes `r`, and the replacement
   * resumes just past it.
   */
  lemma {:induction false} ReplaceFirst(s: string, f: string, r: string, c: nat, i: nat)
    requires f != [] && c <= i
    requires OccursAt(s, f, i)
    requires NoneBetween(s, f, c, i)
    ensures ReplaceAll(s[c..], f, r) == s[c..i] + r + ReplaceAll(s[i + |f|..], f, r)
    decreases i - c
  {
    var tail := ReplaceAll(s[i + |f|..], f, r);
    if c == i {
      ReplaceHitAt(s, f, r, i);
      assert s[c..i] == [];
    } else {
      ReplaceSkipAt(s, f, r, c);
      ReplaceFirst(s, f, r, c + 1, i);
      ConsRegroup(s[c], s[c + 1..i], r, tail);
      ConsSlice(s, c, i);
    }
  }

  /**
   * Replacing each span of `spans` (laid out left to right from `from`) by `r`
   * and keeping the text between them.
   */
  function Splice(s: string, spans: seq<(int, int)>, r: string, from: int): string
    requires 0 <= from <= |s|
    requires Separated(from, spans, |s|)
    decreases |spans|
  {
    if spans == [] then s[from..]
    else s[from..spans[0].0] + r + Splice(s, spans[1..], r, spans[0].1)
  }

  /** Splicing a list whose first span is (a, b). */
  lemma SpliceCons(s: string, a: int, b: int, rest: seq<(int, int)>, r: string, from: int)
    requires 0 <= from <= |s| && Separated(from, [(a, b)] + rest, |s|)
    ensures Separated(b, rest, |s|)
    ensures Splice(s, [(a, b)] + rest, r, from) == s[from..a] + r + Splice(s, rest, r, b)
  {
    assert ([(a, b)] + rest)[1..] == rest;
  }

  /** Replace, from offset `start` on, substitutes `r` for exactly the spans the Find scan tags from `start`. */
  lemma {:induction false} ReplaceFromIsSplice(s: string, f: string, r: string, start: nat)
    requires f != [] && start <= |s|
    ensures ReplaceAll(s[start..], f, r) == Splice(s, SpansFrom(s, f, start), r, start)
    decreases |s| - start
  {
    match Search(s, f, start)
    case None =>
      ReplaceAbsentFrom(s, f, r, start);
    case Some(i) =>
      var rest := SpansFrom(s, f, i + |f|);
      var spans := SpansFrom(s, f, start);
      assert spans == [(i, i + |f|)] + rest;
      calc {
        ReplaceAll(s[start..], f, r);
        { ReplaceFirst(s, f, r, start, i); }
        s[start..i] + r + ReplaceAll(s[i + |f|..], f, r);
        { ReplaceFromIsSplice(s, f, r, i + |f|); }
        s[start..i] + r + Splice(s, rest, r, i + |f|);
        { SpliceCons(s, i, i + |f|, rest, r, start); }
        Splice(s, spans, r, start);
      }
  }

  /**
   * Replace and Find agree: for a non-empty pattern, Replace substitutes `r`
   * for precisely the spans Find highlights, and keeps every other character.
   */
  lemma ReplaceIsSpliceOfFindSpans(s: string, f: string, r: string)
    requires f != []
    ensures ReplaceAll(s, f, r) == Splice(s, FindSpans(s, f), r, 0)
  {
    ReplaceFromIsSplice(s, f, r, 0);
    assert s[0..] == s;
  }

  /** Where the i-th copy of `r` starts in `s.replace("", r)`: each copy and the character after it take |r| + 1 places. */
  function Slot(i: nat, r: string): nat
  {
    if i == 0 then 0 else Slot(i - 1, r) + |r| + 1
  }

  /** The slots are the multiples of |r| + 1. */
  lemma {:induction false} SlotIsMultiple(i: nat, r: string)
    ensures Slot(i, r) == i * (|r| + 1)
  {
    if i > 0 {
      SlotIsMultiple(i - 1, r);
      assert (i - 1) * (|r| + 1) + |r| + 1 == i * (|r| + 1);
    }
  }

  /** The length of `s.replace("", r)`, and the copy of `r` that ends it. */
  lemma {:induction false} InterleaveEnd(s: string, r: string)
    ensures |Interleave(s, r)| == Slot(|s|, r) + |r|
    ensures Interleave(s, r)[Slot(|s|, r)..] == r
    decreases |s|
  {
    if s != [] {
      InterleaveEnd(s[1..], r);
      var rest := Interleave(s[1..], r);
      assert Interleave(s, r) == (r + [s[0]]) + rest;
      assert Interleave(s, r)[Slot(|s|, r)..] == rest[Slot(|s| - 1, r)..];
    }
  }

  /** In `s.replace("", r)`, the i-th character of `s` stands right after the i-th copy of `r`. */
  lemma {:induction false} InterleaveAt(s: string, r: string, i: nat)
    requires i < |s|
    ensures Slot(i, r) + |r| < |Interleave(s, r)|
    ensures Interleave(s, r)[Slot(i, r)..Slot(i, r) + |r|] == r
    ensures Interleave(s, r)[Slot(i, r) + |r|] == s[i]
    decreases i
  {
    var res := Interleave(s, r);
    var rest := Interleave(s[1..], r);
    assert res == (r + [s[0]]) + rest;
    if i == 0 {
      assert res[..|r|] == r;
    } else {
      InterleaveAt(s[1..], r, i - 1);
      var q := Slot(i - 1, r);
      assert res[q + |r| + 1..q + |r| + 1 + |r|] == rest[q..q + |r|];
      assert res[q + |r| + 1 + |r|] == rest[q + |r|];
    }
  }

  /**
   * Python's behaviour for an empty pattern, which the editor does not guard:
   * a copy of `r` stands before every character of `s` and one more at the
   * end, and the characters of `s` keep their order between the copies.
   */
  lemma ReplaceEmptyInserts(s: string, r: string)
    ensures var res := ReplaceAll(s, [], r);
      && |res| == Slot(|s|, r) + |r|
      && (forall i: nat :: i < |s| ==>
            && Slot(i, r) + |r| < |res|
            && res[Slot(i, r)..Slot(i, r) + |r|] == r
            && res[Slot(i, r) + |r|] == s[i])
      && res[Slot(|s|, r)..] == r
  {
    var res := ReplaceAll(s, [], r);
    assert res == Interleave(s, r);
    InterleaveEnd(s, r);
    forall i: nat | i < |s|
      ensures && Slot(i, r) + |r| < |res|
              && res[Slot(i, r)..Slot(i, r) + |r|] == r
              && res[Slot(i, r) + |r|] == s[i]
    {
      InterleaveAt(s, r, i);
    }
  }

  /** `s.replace("ab", "x")` on "ab ab ab" gives "x x x". */
  lemma ReplaceExample()
    ensures ReplaceAll("ab ab ab", "ab", "x") == "x x x"
  {
  }
}
