/**
 * The in-line matcher: the leftmost occurrence of a pattern at or after a
 * cursor, and the scan that collects every non-overlapping occurrence by
 * moving the cursor past each match (src/lib.rs:57-70 and 90-103).
 */
module Matcher {
  import opened Text
  import opened Wrappers

  /** The pattern `p` occurs in `t` starting at byte offset `i`. */
  ghost predicate OccursAt(t: Bytes, p: Bytes, i: int) {
    0 <= i && i + |p| <= |t| && forall k :: 0 <= k < |p| ==> t[i + k] == p[k]
  }

  /** No occurrence of `p` in `t` starts in `[lo, hi)`. */
  ghost predicate NoneIn(t: Bytes, p: Bytes, lo: int, hi: int) {
    forall j :: lo <= j < hi ==> !OccursAt(t, p, j)
  }

  lemma OccursAtSlice(t: Bytes, p: Bytes, i: nat)
    requires OccursAt(t, p, i)
    ensures t[i..i + |p|] == p
  {
    var w := t[i..i + |p|];
    assert forall k :: 0 <= k < |p| ==> w[k] == t[i + k];
  }

  /**
   * `t[from..].find(p)` made absolute: the first position at or after
   * `from` where `p` occurs (see `FindLeftmost`).
   */
  function Find(t: Bytes, p: Bytes, from: nat): (r: Option<nat>)
    requires from <= |t|
    ensures r.Some? ==> from <= r.value && r.value + |p| <= |t|
    decreases |t| - from
  {
    if from + |p| > |t| then None
    else if t[from..from + |p|] == p then Some(from)
    else Find(t, p, from + 1)
  }

  /**
   * `Find` returns the leftmost occurrence at or after `from`, and `None`
   * exactly when no occurrence starts at or after `from`.
   */
  lemma {:induction false} FindLeftmost(t: Bytes, p: Bytes, from: nat)
    requires from <= |t|
    ensures Find(t, p, from).Some? ==>
      OccursAt(t, p, Find(t, p, from).value) && NoneIn(t, p, from, Find(t, p, from).value)
    ensures Find(t, p, from).None? ==> NoneIn(t, p, from, |t| + 1)
    decreases |t| - from
  {
    if from + |p| > |t| {
    } else if t[from..from + |p|] == p {
      var w := t[from..from + |p|];
      assert forall k :: 0 <= k < |p| ==> w[k] == t[from + k];
    } else {
      FindLeftmost(t, p, from + 1);
      if OccursAt(t, p, from) {
        OccursAtSlice(t, p, from);
      }
    }
  }

  /** Where the scan resumes before looking for the `k`-th match. */
  function Cursor(offs: seq<nat>, plen: nat, from: nat, k: nat): nat
    requires k <= |offs|
  {
    if k == 0 then from else offs[k - 1] + plen
  }

  /**
   * `offs` is the result of a leftmost-first, non-overlapping scan of `t`
   * for `p` starting at `from`: each offset is the first occurrence at or
   * after the cursor, the cursor then moves past the whole match, and once
   * the last match is taken no occurrence starts at or after the cursor.
   */
  ghost predicate GreedyScan(t: Bytes, p: Bytes, from: nat, offs: seq<nat>) {
    && (forall k {:trigger Cursor(offs, |p|, from, k)} :: 0 <= k < |offs| ==>
          && Cursor(offs, |p|, from, k) <= offs[k]
          && OccursAt(t, p, offs[k])
          && NoneIn(t, p, Cursor(offs, |p|, from, k), offs[k]))
    && NoneIn(t, p, Cursor(offs, |p|, from, |offs|), |t| + 1)
  }

  lemma GreedyCons(t: Bytes, p: Bytes, from: nat, i: nat, rest: seq<nat>)
    requires from <= i && OccursAt(t, p, i) && NoneIn(t, p, from, i)
    requires GreedyScan(t, p, i + |p|, rest)
    ensures GreedyScan(t, p, from, [i] + rest)
  {
    var offs := [i] + rest;
    forall k | 1 <= k <= |offs|
      ensures Cursor(offs, |p|, from, k) == Cursor(rest, |p|, i + |p|, k - 1)
    {
    }
  }

  /**
   * The offsets of all non-overlapping occurrences of `p` in `t` at or
   * after `from`, left to right. The pattern must be non-empty: with an
   * empty pattern the cursor never advances.
   */
  function Offsets(t: Bytes, p: Bytes, from: nat): seq<nat>
    requires |p| > 0 && from <= |t|
    decreases |t| - from
  {
    match Find(t, p, from)
    case None => []
    case Some(i) => [i] + Offsets(t, p, i + |p|)
  }

  lemma OffsetsStep(t: Bytes, p: Bytes, from: nat, i: nat)
    requires |p| > 0 && from <= |t|
    requires Find(t, p, from) == Some(i)
    ensures Offsets(t, p, from) == [i] + Offsets(t, p, i + |p|)
  {
  }

  /** `Offsets` performs a greedy scan. */
  lemma {:induction false} OffsetsGreedy(t: Bytes, p: Bytes, from: nat)
    requires |p| > 0 && from <= |t|
    ensures GreedyScan(t, p, from, Offsets(t, p, from))
    decreases |t| - from
  {
    FindLeftmost(t, p, from);
    var found := Find(t, p, from);
    if found.None? {
      assert Offsets(t, p, from) == [];
      assert Cursor([], |p|, from, 0) == from;
    } else {
      var i := found.value;
      assert i + |p| <= |t|;
      OffsetsGreedy(t, p, i + |p|);
      GreedyCons(t, p, from, i, Offsets(t, p, i + |p|));
      OffsetsStep(t, p, from, i);
    }
  }

  /** Offsets of a scan that starts at `from`, pairwise at least `plen` apart, inside `[from, len - plen]`. */
  ghost predicate Separated(offs: seq<nat>, plen: nat, from: nat, len: nat) {
    && (forall k :: 0 <= k < |offs| ==> from <= offs[k] && offs[k] + plen <= len)
    && (forall a, b :: 0 <= a < b < |offs| ==> offs[a] + plen <= offs[b])
  }

  lemma {:induction false} GreedySeparatedUpTo(t: Bytes, p: Bytes, from: nat, offs: seq<nat>, n: nat)
    requires GreedyScan(t, p, from, offs)
    requires n <= |offs|
    ensures Separated(offs[..n], |p|, from, |t|)
  {
    if n > 0 {
      GreedySeparatedUpTo(t, p, from, offs, n - 1);
      var last := offs[n - 1];
      assert Cursor(offs, |p|, from, n - 1) <= last && OccursAt(t, p, last);
      assert offs[..n] == offs[..n - 1] + [last];
      assert n >= 2 ==> offs[..n - 1][n - 2] == offs[n - 2];
    }
  }

  /** A greedy scan's matches lie inside the text, after the start, in increasing order, without overlapping. */
  lemma GreedySeparated(t: Bytes, p: Bytes, from: nat, offs: seq<nat>)
    requires GreedyScan(t, p, from, offs)
    ensures Separated(offs, |p|, from, |t|)
    ensures forall k :: 0 <= k < |offs| ==> OccursAt(t, p, offs[k])
  {
    forall k | 0 <= k < |offs|
      ensures OccursAt(t, p, offs[k])
    {
      assert Cursor(offs, |p|, from, k) <= offs[k];
    }
    GreedySeparatedUpTo(t, p, from, offs, |offs|);
    assert offs[..|offs|] == offs;
  }

  lemma {:induction false} GreedyAgreeUpTo(t: Bytes, p: Bytes, from: nat, a: seq<nat>, b: seq<nat>, k: nat)
    requires GreedyScan(t, p, from, a) && GreedyScan(t, p, from, b)
    requires k <= |a| && k <= |b|
    ensures a[..k] == b[..k]
  {
    if k > 0 {
      GreedyAgreeUpTo(t, p, from, a, b, k - 1);
      assert k >= 2 ==> a[k - 2] == b[k - 2] by {
        if k >= 2 {
          assert a[..k - 1][k - 2] == b[..k - 1][k - 2];
        }
      }
      var c := Cursor(a, |p|, from, k - 1);
      assert c == Cursor(b, |p|, from, k - 1);
      assert OccursAt(t, p, a[k - 1]) && OccursAt(t, p, b[k - 1]);
      assert a[..k] == a[..k - 1] + [a[k - 1]];
      assert b[..k] == b[..k - 1] + [b[k - 1]];
    }
  }

  /** A greedy scan with an offset past the `n`-th has an occurrence at or after its cursor there. */
  lemma GreedyLater(t: Bytes, p: Bytes, from: nat, offs: seq<nat>, n: nat)
    requires GreedyScan(t, p, from, offs) && n <= |offs|
    ensures n < |offs| ==> !NoneIn(t, p, Cursor(offs, |p|, from, n), |t| + 1)
  {
    if n < |offs| {
      assert Cursor(offs, |p|, from, n) <= offs[n] && OccursAt(t, p, offs[n]);
    }
  }

  /** There is only one greedy scan: the characterization pins the offsets down. */
  lemma GreedyUnique(t: Bytes, p: Bytes, from: nat, a: seq<nat>, b: seq<nat>)
    requires GreedyScan(t, p, from, a) && GreedyScan(t, p, from, b)
    ensures a == b
  {
    var n := if |a| <= |b| then |a| else |b|;
    GreedyAgreeUpTo(t, p, from, a, b, n);
    assert n >= 1 ==> a[n - 1] == b[n - 1] by {
      if n >= 1 {
        assert a[..n][n - 1] == b[..n][n - 1];
      }
    }
    var c := Cursor(a, |p|, from, n);
    assert c == Cursor(b, |p|, from, n);
    GreedyLater(t, p, from, a, n);
    GreedyLater(t, p, from, b, n);
    assert |a| == |b|;
    assert a == a[..n] && b == b[..n];
  }

  /** `Offsets` is exactly the greedy scan: any greedy scan is what it computes. */
  lemma OffsetsCharacterized(t: Bytes, p: Bytes, from: nat, offs: seq<nat>)
    requires |p| > 0 && from <= |t|
    ensures GreedyScan(t, p, from, offs) <==> offs == Offsets(t, p, from)
  {
    OffsetsGreedy(t, p, from);
    if GreedyScan(t, p, from, offs) {
      GreedyUnique(t, p, from, offs, Offsets(t, p, from));
    }
  }

  lemma MulSucc(m: nat, d: nat)
    ensures (m + 1) * d == m * d + d
  {
  }

  lemma MulMono(a: nat, b: nat, d: nat)
    requires a <= b
    ensures a * d <= b * d
  {
  }

  lemma DivBound(m: nat, d: nat, x: nat)
    requires d > 0 && m * d <= x
    ensures m <= x / d
  {
    var q := x / d;
    assert q * d + x % d == x;
    if m > q {
      MulMono(q + 1, m, d);
      MulSucc(q, d);
    }
  }

  lemma {:induction false} OffsetsLengthBound(t: Bytes, p: Bytes, from: nat)
    requires |p| > 0 && from <= |t|
    ensures |Offsets(t, p, from)| * |p| <= |t| - from
    decreases |t| - from
  {
    var found := Find(t, p, from);
    if found.None? {
      assert Offsets(t, p, from) == [];
    } else {
      var i := found.value;
      OffsetsLengthBound(t, p, i + |p|);
      OffsetsStep(t, p, from, i);
      MulSucc(|Offsets(t, p, i + |p|)|, |p|);
    }
  }

  /** A line of length `|t|` holds at most `|t| / |p|` matches. */
  lemma {:induction false} OffsetsCountBound(t: Bytes, p: Bytes)
    requires |p| > 0
    ensures |Offsets(t, p, 0)| <= |t| / |p|
  {
    OffsetsLengthBound(t, p, 0);
    DivBound(|Offsets(t, p, 0)|, |p|, |t|);
  }

  /** One turn of the scan loop keeps the offsets found so far plus those still ahead unchanged. */
  lemma ScanStep(t: Bytes, p: Bytes, start: nat, position: nat, next: nat, offs: seq<nat>)
    requires |p| > 0 && start <= |t|
    requires Find(t, p, start) == Some(position) && next == position + |p|
    ensures next <= |t|
    ensures (offs + [position]) + Offsets(t, p, next) == offs + Offsets(t, p, start)
  {
    OffsetsStep(t, p, start, position);
    assert (offs + [position]) + Offsets(t, p, next) == offs + ([position] + Offsets(t, p, next));
  }

  /**
   * The loop `while let Some(position) = zeile[start_position..].find(p)`:
   * collect each match and resume just past it.
   */
  method ScanLine(t: Bytes, p: Bytes) returns (offs: seq<nat>)
    requires |p| > 0
    ensures offs == Offsets(t, p, 0)
  {
    offs := [];
    var start := 0;
    var found := Find(t, p, start);
    while found.Some?
      invariant start <= |t|
      invariant found == Find(t, p, start)
      invariant offs + Offsets(t, p, start) == Offsets(t, p, 0)
      decreases |t| - start
    {
      var position := found.value;
      var next := position + |p|;
      ScanStep(t, p, start, position, next, offs);
      offs := offs + [position];
      start := next;
      found := Find(t, p, start);
    }
    assert Offsets(t, p, start) == [];
    assert offs + [] == offs;
  }

  /** The offsets a line yields under the configured comparison. */
  function LineOffsets(line: Bytes, p: Bytes, fold: bool): seq<nat>
    requires |p| > 0
  {
    Offsets(Fold(line, fold), Fold(p, fold), 0)
  }
}
