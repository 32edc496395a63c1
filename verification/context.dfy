/**
 * The context lines printed under a match (`zeige_kontext` in
 * src/main.rs): the file is read again, split into lines, and the lines
 * up to `k` before and up to `k` after the match line are listed with
 * their 1-based numbers. The match line itself is never listed.
 */
module Context {
  import opened Text
  import opened Wrappers
  import opened LineSplit

  function Min(a: nat, b: nat): nat {
    if a < b then a else b
  }

  /** The first index of the window before `cur`: `cur - k`, not going below 0. */
  function WindowStart(cur: nat, k: nat): nat {
    if cur > k then cur - k else 0
  }

  /** The indices `lo, lo + 1, .., hi - 1` that are below `n`, in order (a `for` loop with an `if i < n` guard). */
  function Range(lo: nat, hi: nat, n: nat): (r: seq<nat>)
    ensures forall j :: 0 <= j < |r| ==> lo <= r[j] < hi && r[j] < n
    decreases hi - lo
  {
    if lo >= hi then []
    else (if lo < n then [lo] else []) + Range(lo + 1, hi, n)
  }

  ghost predicate Increasing(s: seq<nat>) {
    forall a, b :: 0 <= a < b < |s| ==> s[a] < s[b]
  }

  lemma {:induction false} RangeMembers(lo: nat, hi: nat, n: nat, i: nat)
    ensures i in Range(lo, hi, n) <==> lo <= i < hi && i < n
    decreases hi - lo
  {
    if lo < hi {
      RangeMembers(lo + 1, hi, n, i);
    }
  }

  /** Extending the loop range by one index appends that index when it is below `n`. */
  lemma {:induction false} RangeSnoc(lo: nat, hi: nat, n: nat)
    requires lo <= hi
    ensures Range(lo, hi + 1, n) == Range(lo, hi, n) + (if hi < n then [hi] else [])
    decreases hi - lo
  {
    if lo < hi {
      RangeSnoc(lo + 1, hi, n);
    }
  }

  lemma {:induction false} RangeIncreasing(lo: nat, hi: nat, n: nat)
    ensures Increasing(Range(lo, hi, n))
    decreases hi - lo
  {
    if lo < hi {
      RangeIncreasing(lo + 1, hi, n);
    }
  }

  /**
   * The 0-based indices listed around the 0-based match line `cur` of a
   * file of `n` lines: the ones before it, then the ones after it.
   */
  function Window(cur: nat, k: nat, n: nat): (w: seq<nat>)
    ensures forall j :: 0 <= j < |w| ==> w[j] < n
  {
    Range(WindowStart(cur, k), cur, n) + Range(cur + 1, Min(cur + k + 1, n), n)
  }

  /**
   * The window is exactly the indices within `k` of `cur`, inside the file,
   * other than `cur` itself.
   */
  lemma WindowMembers(cur: nat, k: nat, n: nat, i: nat)
    ensures i in Window(cur, k, n) <==> cur - k <= i <= cur + k && i < n && i != cur
  {
    RangeMembers(WindowStart(cur, k), cur, n, i);
    RangeMembers(cur + 1, Min(cur + k + 1, n), n, i);
  }

  /** The window is listed in increasing order, every index names a line of the file, and none is `cur`. */
  lemma WindowIncreasing(cur: nat, k: nat, n: nat)
    ensures Increasing(Window(cur, k, n))
    ensures forall j :: 0 <= j < |Window(cur, k, n)| ==> Window(cur, k, n)[j] < n && Window(cur, k, n)[j] != cur
  {
    var a, b := Range(WindowStart(cur, k), cur, n), Range(cur + 1, Min(cur + k + 1, n), n);
    RangeIncreasing(WindowStart(cur, k), cur, n);
    RangeIncreasing(cur + 1, Min(cur + k + 1, n), n);
    var w := a + b;
    forall x, y | 0 <= x < y < |w|
      ensures w[x] < w[y]
    {
      if y < |a| {
      } else if x < |a| {
        assert w[x] == a[x] && w[y] == b[y - |a|];
      } else {
        assert w[x] == b[x - |a|] && w[y] == b[y - |a|];
      }
    }
    forall j | 0 <= j < |w|
      ensures w[j] < n && w[j] != cur
    {
      if j >= |a| {
        assert w[j] == b[j - |a|];
      }
    }
  }

  /** A listed context line: its 1-based number and its text. */
  datatype ContextLine = ContextLine(number: Pos, text: Bytes)

  /** The listed lines for the indices `idx` of `ls`. */
  function Numbered(ls: seq<Bytes>, idx: seq<nat>): seq<ContextLine>
    requires forall j :: 0 <= j < |idx| ==> idx[j] < |ls|
  {
    seq(|idx|, j requires 0 <= j < |idx| => ContextLine(idx[j] + 1, ls[idx[j]]))
  }

  /**
   * `zeige_kontext`: nothing at all for a window of 0 or a failed re-read
   * (`None`); otherwise the header is printed (`Some`) and then the lines
   * of the window. `lineNo` is the record's 1-based line number.
   */
  function ContextBlock(reread: Option<Bytes>, lineNo: Pos, k: nat): Option<seq<ContextLine>> {
    if k == 0 then None
    else
      match reread
      case None => None
      case Some(contents) =>
        var ls := Lines(contents);
        Some(Numbered(ls, Window(lineNo - 1, k, |ls|)))
  }

  lemma NumberedOrder(ls: seq<Bytes>, idx: seq<nat>)
    requires forall j :: 0 <= j < |idx| ==> idx[j] < |ls|
    requires Increasing(idx)
    ensures var block := Numbered(ls, idx);
      && (forall j :: 0 <= j < |block| ==> block[j].number <= |ls| && block[j].text == ls[block[j].number - 1])
      && (forall a, b :: 0 <= a < b < |block| ==> block[a].number < block[b].number)
  {
  }

  lemma NumberedHas(ls: seq<Bytes>, idx: seq<nat>, m: Pos)
    requires forall j :: 0 <= j < |idx| ==> idx[j] < |ls|
    ensures var block := Numbered(ls, idx);
      (exists j :: 0 <= j < |block| && block[j].number == m) <==> m - 1 in idx
  {
    var block := Numbered(ls, idx);
    if m - 1 in idx {
      var j :| 0 <= j < |idx| && idx[j] == m - 1;
      assert block[j].number == m;
    }
  }

  /** The lines listed for a window carry the text of their line, in increasing line order. */
  lemma WindowLinesOrder(ls: seq<Bytes>, lineNo: Pos, k: nat)
    ensures var block := Numbered(ls, Window(lineNo - 1, k, |ls|));
      && (forall j :: 0 <= j < |block| ==> block[j].number <= |ls| && block[j].text == ls[block[j].number - 1])
      && (forall a, b :: 0 <= a < b < |block| ==> block[a].number < block[b].number)
  {
    WindowIncreasing(lineNo - 1, k, |ls|);
    NumberedOrder(ls, Window(lineNo - 1, k, |ls|));
  }

  /**
   * Line number `m` is listed for the window around the 1-based line
   * `lineNo` iff it is within `k` of `lineNo`, at most `|ls|`, and not `lineNo`.
   */
  lemma WindowLinesHas(ls: seq<Bytes>, lineNo: Pos, k: nat, m: Pos)
    ensures var block := Numbered(ls, Window(lineNo - 1, k, |ls|));
      (exists j :: 0 <= j < |block| && block[j].number == m)
        <==> lineNo - k <= m <= lineNo + k && m <= |ls| && m != lineNo
  {
    var w := Window(lineNo - 1, k, |ls|);
    WindowMembers(lineNo - 1, k, |ls|, m - 1);
    NumberedHas(ls, w, m);
  }

  /**
   * What a listed block shows for the window around the 1-based line
   * `lineNo`: each entry carries the text of its line, numbers increase,
   * and line number `m` appears iff it is a line of the file within `k`
   * of `lineNo` and not `lineNo` itself.
   */
  ghost predicate ListsWindow(block: seq<ContextLine>, ls: seq<Bytes>, lineNo: Pos, k: nat, m: Pos) {
    && (forall j :: 0 <= j < |block| ==> block[j].number <= |ls| && block[j].text == ls[block[j].number - 1])
    && (forall a, b :: 0 <= a < b < |block| ==> block[a].number < block[b].number)
    && ((exists j :: 0 <= j < |block| && block[j].number == m)
        <==> lineNo - k <= m <= lineNo + k && m <= |ls| && m != lineNo)
  }

  lemma WindowBlock(block: seq<ContextLine>, ls: seq<Bytes>, lineNo: Pos, k: nat, m: Pos)
    requires block == Numbered(ls, Window(lineNo - 1, k, |ls|))
    ensures ListsWindow(block, ls, lineNo, k, m)
  {
    WindowLinesOrder(ls, lineNo, k);
    WindowLinesHas(ls, lineNo, k, m);
  }

  /** The context block of a successful re-read lists exactly the window, as `ListsWindow` describes. */
  lemma ContextBlockLines(contents: Bytes, lineNo: Pos, k: nat, m: Pos)
    requires k > 0
    ensures ListsWindow(ContextBlock(Some(contents), lineNo, k).value, Lines(contents), lineNo, k, m)
  {
    var ls := Lines(contents);
    WindowBlock(ContextBlock(Some(contents), lineNo, k).value, ls, lineNo, k, m);
  }

  lemma NumberedAppend(ls: seq<Bytes>, a: seq<nat>, b: seq<nat>)
    requires forall j :: 0 <= j < |a| ==> a[j] < |ls|
    requires forall j :: 0 <= j < |b| ==> b[j] < |ls|
    ensures Numbered(ls, a + b) == Numbered(ls, a) + Numbered(ls, b)
  {
  }

  /** One more turn of the loop adds line `i` when it exists, and nothing otherwise. */
  lemma NumberedSnoc(ls: seq<Bytes>, lo: nat, i: nat)
    requires lo <= i
    ensures Numbered(ls, Range(lo, i + 1, |ls|))
         == Numbered(ls, Range(lo, i, |ls|)) + (if i < |ls| then [ContextLine(i + 1, ls[i])] else [])
  {
    RangeSnoc(lo, i, |ls|);
    if i < |ls| {
      NumberedAppend(ls, Range(lo, i, |ls|), [i]);
      assert Numbered(ls, [i]) == [ContextLine(i + 1, ls[i])];
    } else {
      assert Range(lo, i + 1, |ls|) == Range(lo, i, |ls|) + [];
    }
  }

  /** One `for i in lo..hi { if i < zeilen.len() { .. } }` loop of `zeige_kontext`. */
  method ListRange(ls: seq<Bytes>, lo: nat, hi: nat) returns (block: seq<ContextLine>)
    ensures block == Numbered(ls, Range(lo, hi, |ls|))
  {
    block := [];
    if hi <= lo {
      return;
    }
    var i := lo;
    while i < hi
      invariant lo <= i <= hi
      invariant block == Numbered(ls, Range(lo, i, |ls|))
    {
      NumberedSnoc(ls, lo, i);
      if i < |ls| {
        block := block + [ContextLine(i + 1, ls[i])];
      }
      i := i + 1;
    }
  }

  /** Both loops of `zeige_kontext`, over the lines `ls` of the re-read file. */
  method ContextLoop(ls: seq<Bytes>, lineNo: Pos, k: nat) returns (block: seq<ContextLine>)
    ensures block == Numbered(ls, Window(lineNo - 1, k, |ls|))
  {
    var cur := lineNo - 1;
    var start := if cur > k then cur - k else 0;
    var before := ListRange(ls, start, cur);
    var ende := Min(cur + k + 1, |ls|);
    var after := ListRange(ls, cur + 1, ende);
    assert Window(cur, k, |ls|) == Range(start, cur, |ls|) + Range(cur + 1, ende, |ls|);
    NumberedAppend(ls, Range(start, cur, |ls|), Range(cur + 1, ende, |ls|));
    block := before + after;
  }
}
