/**
 * The two list transformations every row table of the app is built from:
 * `Array.prototype.filter` (deleting rows) and a `map` that rewrites only the
 * rows a predicate selects (editing rows). Appending is plain concatenation.
 */
module Table {
  import Text

  /** `s.filter(p)`: the elements satisfying `p`, in their original order. */
  function Keep<T>(s: seq<T>, p: T -> bool): (r: seq<T>)
    ensures |r| <= |s|
    ensures forall i :: 0 <= i < |r| ==> r[i] in s && p(r[i])
    ensures forall i :: 0 <= i < |s| && p(s[i]) ==> s[i] in r
    ensures |r| == |s| <==> forall i :: 0 <= i < |s| ==> p(s[i])
    ensures (forall i :: 0 <= i < |s| ==> p(s[i])) ==> r == s
    ensures |r| == 0 <==> forall i :: 0 <= i < |s| ==> !p(s[i])
    decreases |s|
  {
    if |s| == 0 then []
    else if p(s[0]) then [s[0]] + Keep(s[1..], p)
    else Keep(s[1..], p)
  }

  /** Filtering distributes over concatenation, so the kept elements keep their relative order. */
  lemma {:induction false} KeepAppend<T>(a: seq<T>, b: seq<T>, p: T -> bool)
    ensures Keep(a + b, p) == Keep(a, p) + Keep(b, p)
    decreases |a|
  {
    if |a| > 0 {
      var ab := a + b;
      assert ab[0] == a[0] && ab[1..] == a[1..] + b;
      KeepAppend(a[1..], b, p);
      if p(a[0]) {
        assert Keep(ab, p) == [a[0]] + Keep(a[1..] + b, p);
        assert Keep(a, p) == [a[0]] + Keep(a[1..], p);
      } else {
        assert Keep(ab, p) == Keep(a[1..] + b, p);
        assert Keep(a, p) == Keep(a[1..], p);
      }
    } else {
      assert a + b == b;
    }
  }

  /** The positions from `from` on whose element satisfies `p`, in increasing order. */
  function PositionsFrom<T>(s: seq<T>, p: T -> bool, from: nat): (idx: seq<nat>)
    requires from <= |s|
    ensures forall k :: 0 <= k < |idx| ==> from <= idx[k] < |s| && p(s[idx[k]])
    ensures forall k, l :: 0 <= k < l < |idx| ==> idx[k] < idx[l]
    ensures forall j :: from <= j < |s| && p(s[j]) ==> j in idx
    decreases |s| - from
  {
    if from == |s| then []
    else if p(s[from]) then [from] + PositionsFrom(s, p, from + 1)
    else PositionsFrom(s, p, from + 1)
  }

  /** `xs` read at `idx` stays so when one element and its position go in front. */
  lemma ReadAtCons<T>(s: seq<T>, at: nat, xs: seq<T>, idx: seq<nat>)
    requires at < |s| && |idx| == |xs|
    requires forall k :: 0 <= k < |xs| ==> idx[k] < |s| && xs[k] == s[idx[k]]
    ensures forall k :: 0 <= k < |xs| + 1 ==> ([at] + idx)[k] < |s| && ([s[at]] + xs)[k] == s[([at] + idx)[k]]
  {
    forall k | 0 <= k < |xs| + 1 ensures ([at] + idx)[k] < |s| && ([s[at]] + xs)[k] == s[([at] + idx)[k]] {
      if k > 0 {
        assert ([s[at]] + xs)[k] == xs[k - 1] && ([at] + idx)[k] == idx[k - 1];
      }
    }
  }

  /** `Keep` of a suffix looks at the suffix's first element, then keeps from the next position on. */
  lemma KeepSuffixStep<T>(s: seq<T>, p: T -> bool, from: nat)
    requires from < |s|
    ensures Keep(s[from..], p)
      == if p(s[from]) then [s[from]] + Keep(s[from + 1..], p) else Keep(s[from + 1..], p)
  {
    assert s[from..][1..] == s[from + 1..];
  }

  /** `Keep` of a suffix is that suffix read at `PositionsFrom`. */
  lemma {:induction false} KeepAtPositions<T>(s: seq<T>, p: T -> bool, from: nat)
    requires from <= |s|
    ensures |PositionsFrom(s, p, from)| == |Keep(s[from..], p)|
    ensures forall k :: 0 <= k < |Keep(s[from..], p)| ==> Keep(s[from..], p)[k] == s[PositionsFrom(s, p, from)[k]]
    decreases |s| - from
  {
    if from < |s| {
      KeepAtPositions(s, p, from + 1);
      KeepSuffixStep(s, p, from);
      if p(s[from]) {
        ReadAtCons(s, from, Keep(s[from + 1..], p), PositionsFrom(s, p, from + 1));
      }
    }
  }

  /**
   * Filtering keeps exactly the selected elements, each once, in their original
   * order: `Keep(s, p)` is `s` read at an increasing list of the positions whose
   * element satisfies `p`, and every such position is in the list.
   */
  lemma KeepIsOrderedSubsequence<T>(s: seq<T>, p: T -> bool)
    ensures var idx := PositionsFrom(s, p, 0);
      && |idx| == |Keep(s, p)|
      && (forall k :: 0 <= k < |idx| ==> idx[k] < |s| && Keep(s, p)[k] == s[idx[k]])
      && (forall k, l :: 0 <= k < l < |idx| ==> idx[k] < idx[l])
      && (forall j :: 0 <= j < |s| && p(s[j]) ==> j in idx)
  {
    KeepAtPositions(s, p, 0);
    assert s[0..] == s;
  }

  /** The positions from `from` on whose element satisfies `p`, as a set. */
  function Hits<T>(s: seq<T>, p: T -> bool, from: nat): set<nat>
    requires from <= |s|
  {
    set j: nat | from <= j < |s| && p(s[j])
  }

  /** Stepping `from` past one position drops that position from the hits, if it was one. */
  lemma HitsStep<T>(s: seq<T>, p: T -> bool, from: nat)
    requires from < |s|
    ensures |Hits(s, p, from)| == |Hits(s, p, from + 1)| + (if p(s[from]) then 1 else 0)
  {
    var rest := Hits(s, p, from + 1);
    assert from !in rest;
    if p(s[from]) {
      HitsSplit(s, p, from);
      assert |{from} + rest| == |rest| + 1;
    } else {
      HitsSplit(s, p, from);
    }
  }

  /** The hits from `from` on are the hits after it, plus `from` itself when it is one. */
  lemma HitsSplit<T>(s: seq<T>, p: T -> bool, from: nat)
    requires from < |s|
    ensures Hits(s, p, from) == (if p(s[from]) then {from} else {}) + Hits(s, p, from + 1)
  {
  }

  /** How many positions from `from` on satisfy `p`, counted one position at a time. */
  function CountFrom<T>(s: seq<T>, p: T -> bool, from: nat): nat
    requires from <= |s|
    decreases |s| - from
  {
    if from == |s| then 0 else (if p(s[from]) then 1 else 0) + CountFrom(s, p, from + 1)
  }

  /** The set of hits from `from` on has as many elements as the count. */
  lemma {:induction false} HitsCount<T>(s: seq<T>, p: T -> bool, from: nat)
    requires from <= |s|
    ensures |Hits(s, p, from)| == CountFrom(s, p, from)
    decreases |s| - from
  {
    if from == |s| {
      HitsPastEnd(s, p);
    } else {
      HitsCount(s, p, from + 1);
      HitsStep(s, p, from);
    }
  }

  /** There are no hits past the end. */
  lemma HitsPastEnd<T>(s: seq<T>, p: T -> bool)
    ensures Hits(s, p, |s|) == {}
  {
  }

  /** PositionsFrom lists as many positions as the count. */
  lemma {:induction false} PositionsCount<T>(s: seq<T>, p: T -> bool, from: nat)
    requires from <= |s|
    ensures |PositionsFrom(s, p, from)| == CountFrom(s, p, from)
    decreases |s| - from
  {
    if from < |s| {
      PositionsCount(s, p, from + 1);
    }
  }

  /** `s.filter(p).length` is the number of positions whose element satisfies `p`. */
  lemma KeepCount<T>(s: seq<T>, p: T -> bool)
    ensures |Keep(s, p)| == |Hits(s, p, 0)|
  {
    KeepIsOrderedSubsequence(s, p);
    PositionsCount(s, p, 0);
    HitsCount(s, p, 0);
  }

  /** `s.map(x => p(x) ? f(x) : x)`: the selected elements are rewritten, the others stay as they are. */
  function UpdateWhere<T>(s: seq<T>, p: T -> bool, f: T -> T): (r: seq<T>)
    ensures |r| == |s|
    ensures forall i :: 0 <= i < |s| && p(s[i]) ==> r[i] == f(s[i])
    ensures forall i :: 0 <= i < |s| && !p(s[i]) ==> r[i] == s[i]
    decreases |s|
  {
    if |s| == 0 then []
    else [if p(s[0]) then f(s[0]) else s[0]] + UpdateWhere(s[1..], p, f)
  }

  /** The name `addRow` gives a new row in a table that already holds `count` rows. */
  function SpeakerName(count: nat): (name: string)
    ensures |name| > 8 && name[..8] == "Speaker "
    ensures Text.AllDigits(name[8..]) && Text.ParseNat(name[8..]) == count + 1
    ensures name[8] != '0'
  {
    var name := "Speaker " + Text.NatToString(count + 1);
    assert name[8..] == Text.NatToString(count + 1);
    name
  }
}
