/**
 * The line scanner of src/lib.rs: split the contents into lines, scan each
 * line for non-overlapping occurrences of the pattern, and emit one record
 * per occurrence carrying the 1-based line number, the 1-based byte column
 * and a copy of the original line. The case-insensitive search compares
 * folded copies but reports offsets into, and stores, the original line.
 */
module Scanner {
  import opened Text
  import opened LineSplit
  import opened Matcher

  /** One occurrence: line number, column (both 1-based) and the line it was found in. */
  datatype Match = Match(line: Pos, column: Pos, text: Bytes)

  /** `p` occurs at byte offset `i` of `line` under the comparison `fold` selects. */
  ghost predicate MatchesAt(line: Bytes, p: Bytes, fold: bool, i: int) {
    OccursAt(Fold(line, fold), Fold(p, fold), i)
  }

  /** The records of line number `n` for the offsets found in it. */
  function LineRecords(n: Pos, line: Bytes, offs: seq<nat>): (rs: seq<Match>)
    ensures |rs| == |offs|
    ensures forall k :: 0 <= k < |offs| ==> rs[k] == Match(n, offs[k] + 1, line)
  {
    seq(|offs|, k requires 0 <= k < |offs| => Match(n, offs[k] + 1, line))
  }

  /**
   * Each record names one of `lines` (numbered from `base + 1`), carries that
   * line unchanged, and points at an occurrence of the pattern inside it.
   */
  ghost predicate Sound(rs: seq<Match>, lines: seq<Bytes>, p: Bytes, fold: bool, base: nat) {
    forall k :: 0 <= k < |rs| ==> SoundAt(rs[k], lines, p, fold, base)
  }

  ghost predicate SoundAt(r: Match, lines: seq<Bytes>, p: Bytes, fold: bool, base: nat) {
    && base < r.line <= base + |lines|
    && r.text == lines[r.line - base - 1]
    && r.column - 1 + |p| <= |r.text|
    && MatchesAt(r.text, p, fold, r.column - 1)
  }

  /** Strictly increasing (line, column) order. */
  predicate Before(a: Match, b: Match) {
    a.line < b.line || (a.line == b.line && a.column < b.column)
  }

  ghost predicate Ordered(rs: seq<Match>) {
    forall i, j :: 0 <= i < j < |rs| ==> Before(rs[i], rs[j])
  }

  /** Two records of one line are at least a pattern length apart. */
  ghost predicate Disjoint(rs: seq<Match>, plen: nat) {
    forall i, j :: 0 <= i < j < |rs| && rs[i].line == rs[j].line ==> rs[i].column + plen <= rs[j].column
  }

  /** Each `hits[i]` is the greedy scan of `lines[i]` under the configured comparison. */
  ghost predicate ScannedLines(lines: seq<Bytes>, hits: seq<seq<nat>>, p: Bytes, fold: bool) {
    && |hits| == |lines|
    && forall i :: 0 <= i < |lines| ==> GreedyScan(Fold(lines[i], fold), Fold(p, fold), 0, hits[i])
  }

  lemma LineRecordsWellFormed(lines: seq<Bytes>, offs: seq<nat>, p: Bytes, fold: bool, base: nat)
    requires lines != [] && |p| > 0
    requires Separated(offs, |p|, 0, |lines[0]|)
    requires forall k :: 0 <= k < |offs| ==> MatchesAt(lines[0], p, fold, offs[k])
    ensures var rs := LineRecords(base + 1, lines[0], offs);
      Sound(rs, lines, p, fold, base) && Ordered(rs) && Disjoint(rs, |p|)
  {
  }

  lemma ConcatSound(a: seq<Match>, b: seq<Match>, lines: seq<Bytes>, p: Bytes, fold: bool, base: nat)
    requires lines != []
    requires Sound(a, lines, p, fold, base) && Sound(b, lines[1..], p, fold, base + 1)
    ensures Sound(a + b, lines, p, fold, base)
  {
    var ab := a + b;
    forall k | 0 <= k < |ab|
      ensures SoundAt(ab[k], lines, p, fold, base)
    {
      if k < |a| {
        assert ab[k] == a[k];
      } else {
        var r := b[k - |a|];
        assert ab[k] == r && SoundAt(r, lines[1..], p, fold, base + 1);
        assert lines[1..][r.line - (base + 1) - 1] == lines[r.line - base - 1];
      }
    }
  }

  lemma ConcatOrdered(a: seq<Match>, b: seq<Match>, base: nat)
    requires Ordered(a) && Ordered(b)
    requires forall k :: 0 <= k < |a| ==> a[k].line == base + 1
    requires forall k :: 0 <= k < |b| ==> b[k].line > base + 1
    ensures Ordered(a + b) && forall i, j :: 0 <= i < |a| <= j < |a + b| ==> (a + b)[i].line < (a + b)[j].line
  {
    var ab := a + b;
    forall k | |a| <= k < |ab|
      ensures ab[k] == b[k - |a|]
    {
    }
  }

  lemma ConcatDisjoint(a: seq<Match>, b: seq<Match>, plen: nat)
    requires Disjoint(a, plen) && Disjoint(b, plen)
    requires forall i, j :: 0 <= i < |a| <= j < |a + b| ==> (a + b)[i].line < (a + b)[j].line
    ensures Disjoint(a + b, plen)
  {
    var ab := a + b;
    forall k | |a| <= k < |ab|
      ensures ab[k] == b[k - |a|]
    {
    }
  }

  lemma ConcatWellFormed(a: seq<Match>, b: seq<Match>, lines: seq<Bytes>, p: Bytes, fold: bool, base: nat)
    requires lines != []
    requires Sound(a, lines, p, fold, base) && Ordered(a) && Disjoint(a, |p|)
    requires forall k :: 0 <= k < |a| ==> a[k].line == base + 1
    requires Sound(b, lines[1..], p, fold, base + 1) && Ordered(b) && Disjoint(b, |p|)
    ensures Sound(a + b, lines, p, fold, base) && Ordered(a + b) && Disjoint(a + b, |p|)
  {
    ConcatSound(a, b, lines, p, fold, base);
    ConcatOrdered(a, b, base);
    ConcatDisjoint(a, b, |p|);
  }

  /** The records of `lines`, numbered from `base + 1`, given the offsets found in each line. */
  function Records(lines: seq<Bytes>, hits: seq<seq<nat>>, base: nat): seq<Match>
    requires |hits| == |lines|
    decreases |lines|
  {
    if lines == [] then []
    else LineRecords(base + 1, lines[0], hits[0]) + Records(lines[1..], hits[1..], base + 1)
  }

  /** Records built from greedy scans are sound, ordered and non-overlapping. */
  lemma {:induction false} RecordsWellFormed(lines: seq<Bytes>, hits: seq<seq<nat>>, p: Bytes, fold: bool, base: nat)
    requires |p| > 0 && ScannedLines(lines, hits, p, fold)
    ensures var rs := Records(lines, hits, base);
      Sound(rs, lines, p, fold, base) && Ordered(rs) && Disjoint(rs, |p|)
    decreases |lines|
  {
    if lines != [] {
      var first := LineRecords(base + 1, lines[0], hits[0]);
      assert ScannedLines(lines[1..], hits[1..], p, fold) by {
        forall i | 0 <= i < |lines| - 1
          ensures GreedyScan(Fold(lines[1..][i], fold), Fold(p, fold), 0, hits[1..][i])
        {
          assert lines[1..][i] == lines[i + 1] && hits[1..][i] == hits[i + 1];
        }
      }
      RecordsWellFormed(lines[1..], hits[1..], p, fold, base + 1);
      assert GreedyScan(Fold(lines[0], fold), Fold(p, fold), 0, hits[0]);
      GreedySeparated(Fold(lines[0], fold), Fold(p, fold), 0, hits[0]);
      LineRecordsWellFormed(lines, hits[0], p, fold, base);
      ConcatWellFormed(first, Records(lines[1..], hits[1..], base + 1), lines, p, fold, base);
    }
  }

  /** The offsets the matcher finds in each line. */
  function Hits(lines: seq<Bytes>, p: Bytes, fold: bool): (hits: seq<seq<nat>>)
    requires |p| > 0
    ensures |hits| == |lines|
  {
    seq(|lines|, i requires 0 <= i < |lines| => LineOffsets(lines[i], p, fold))
  }

  /** Each line's hits are a greedy scan of that line. */
  lemma HitsScanned(lines: seq<Bytes>, p: Bytes, fold: bool)
    requires |p| > 0
    ensures ScannedLines(lines, Hits(lines, p, fold), p, fold)
  {
    var hits := Hits(lines, p, fold);
    forall i | 0 <= i < |lines|
      ensures GreedyScan(Fold(lines[i], fold), Fold(p, fold), 0, hits[i])
    {
      OffsetsGreedy(Fold(lines[i], fold), Fold(p, fold), 0);
    }
  }

  /** `suche_case_sensitive`: records of byte-equal occurrences. */
  function SearchSensitive(contents: Bytes, p: Bytes): (rs: seq<Match>)
    requires |p| > 0
    ensures contents == [] ==> rs == []
  {
    var lines := Lines(contents);
    Records(lines, Hits(lines, p, false), 0)
  }

  /** `suche_case_insensitive`: records of occurrences equal after ASCII folding. */
  function SearchInsensitive(contents: Bytes, p: Bytes): (rs: seq<Match>)
    requires |p| > 0
    ensures contents == [] ==> rs == []
  {
    var lines := Lines(contents);
    Records(lines, Hits(lines, p, true), 0)
  }

  /** `suche` once the file is read: dispatch on the fold flag. */
  function Search(contents: Bytes, p: Bytes, fold: bool): (rs: seq<Match>)
    requires |p| > 0
    ensures contents == [] ==> rs == []
  {
    if fold then SearchInsensitive(contents, p) else SearchSensitive(contents, p)
  }

  lemma SearchIsRecords(contents: Bytes, p: Bytes, fold: bool)
    requires |p| > 0
    ensures Search(contents, p, fold) == Records(Lines(contents), Hits(Lines(contents), p, fold), 0)
  {
    if fold {
      assert Search(contents, p, fold) == SearchInsensitive(contents, p);
    } else {
      assert Search(contents, p, fold) == SearchSensitive(contents, p);
    }
  }

  /**
   * Every record the search returns is a real occurrence on the line it
   * names, with that line's text; records come in (line, column) order
   * and never overlap.
   */
  lemma SearchWellFormed(contents: Bytes, p: Bytes, fold: bool)
    requires |p| > 0
    ensures var rs := Search(contents, p, fold);
      Sound(rs, Lines(contents), p, fold, 0) && Ordered(rs) && Disjoint(rs, |p|)
  {
    var lines := Lines(contents);
    SearchIsRecords(contents, p, fold);
    HitsScanned(lines, p, fold);
    RecordsWellFormed(lines, Hits(lines, p, fold), p, fold, 0);
  }

  /** One record of the search: an existing line, stored unchanged, with a match at the column. */
  lemma SearchRecord(contents: Bytes, p: Bytes, fold: bool, k: nat)
    requires |p| > 0 && k < |Search(contents, p, fold)|
    ensures var r := Search(contents, p, fold)[k];
      && r.line <= |Lines(contents)| && r.text == Lines(contents)[r.line - 1]
      && r.column - 1 + |p| <= |r.text|
      && MatchesAt(r.text, p, fold, r.column - 1)
  {
    var rs := Search(contents, p, fold);
    assert SoundAt(rs[k], Lines(contents), p, fold, 0) by {
      SearchWellFormed(contents, p, fold);
    }
  }

  lemma MatchText(line: Bytes, p: Bytes, fold: bool, i: nat)
    requires MatchesAt(line, p, fold, i)
    ensures i + |p| <= |line|
    ensures !fold ==> line[i..i + |p|] == p
    ensures fold ==> LowerAll(line)[i..i + |p|] == LowerAll(p)
  {
    OccursAtSlice(Fold(line, fold), Fold(p, fold), i);
  }

  /** What a sound record of the first line block says about its own text. */
  lemma SoundAtText(r: Match, lines: seq<Bytes>, p: Bytes, fold: bool)
    requires SoundAt(r, lines, p, fold, 0)
    ensures r.line <= |lines| && r.text == lines[r.line - 1]
    ensures r.column - 1 + |p| <= |r.text|
    ensures !fold ==> r.text[r.column - 1..r.column - 1 + |p|] == p
    ensures fold ==> LowerAll(r.text)[r.column - 1..r.column - 1 + |p|] == LowerAll(p)
  {
    MatchText(r.text, p, fold, r.column - 1);
  }

  /** A case-sensitive record holds the pattern itself at its column, in the line it stores. */
  lemma SensitiveRecordText(contents: Bytes, p: Bytes, k: nat)
    requires |p| > 0 && k < |Search(contents, p, false)|
    ensures var r := Search(contents, p, false)[k];
      && r.line <= |Lines(contents)| && r.text == Lines(contents)[r.line - 1]
      && r.column - 1 + |p| <= |r.text|
      && r.text[r.column - 1..r.column - 1 + |p|] == p
  {
    var rs := Search(contents, p, false);
    assert SoundAt(rs[k], Lines(contents), p, false, 0) by {
      SearchWellFormed(contents, p, false);
    }
    SoundAtText(rs[k], Lines(contents), p, false);
  }

  /**
   * A case-insensitive record holds the pattern up to ASCII case at its
   * column, while the line it stores is the original, unfolded line.
   */
  lemma InsensitiveRecordText(contents: Bytes, p: Bytes, k: nat)
    requires |p| > 0 && k < |Search(contents, p, true)|
    ensures var r := Search(contents, p, true)[k];
      && r.line <= |Lines(contents)| && r.text == Lines(contents)[r.line - 1]
      && r.column - 1 + |p| <= |r.text|
      && LowerAll(r.text)[r.column - 1..r.column - 1 + |p|] == LowerAll(p)
  {
    var rs := Search(contents, p, true);
    assert SoundAt(rs[k], Lines(contents), p, true, 0) by {
      SearchWellFormed(contents, p, true);
    }
    SoundAtText(rs[k], Lines(contents), p, true);
  }

  /** The offsets (column - 1) of the records on line `n`, in order. */
  function ColumnsOn(rs: seq<Match>, n: Pos): seq<nat> {
    if rs == [] then []
    else (if rs[0].line == n then [rs[0].column - 1] else []) + ColumnsOn(rs[1..], n)
  }

  lemma {:induction false} ColumnsOnAppend(a: seq<Match>, b: seq<Match>, n: Pos)
    ensures ColumnsOn(a + b, n) == ColumnsOn(a, n) + ColumnsOn(b, n)
  {
    if a != [] {
      var h := if a[0].line == n then [a[0].column - 1] else [];
      ConcatTail(a, b);
      assert ColumnsOn(a + b, n) == h + ColumnsOn(a[1..] + b, n);
      ColumnsOnAppend(a[1..], b, n);
      ConcatAssoc(h, ColumnsOn(a[1..], n), ColumnsOn(b, n));
    } else {
      assert a + b == b;
    }
  }

  lemma {:induction false} ColumnsOnLineRecords(m: Pos, line: Bytes, offs: seq<nat>, n: Pos)
    ensures ColumnsOn(LineRecords(m, line, offs), n) == if m == n then offs else []
  {
    if offs != [] {
      assert LineRecords(m, line, offs)[1..] == LineRecords(m, line, offs[1..]);
      ColumnsOnLineRecords(m, line, offs[1..], n);
    }
  }

  lemma RecordsStep(lines: seq<Bytes>, hits: seq<seq<nat>>, base: nat)
    requires |hits| == |lines| && lines != []
    ensures Records(lines, hits, base)
         == LineRecords(base + 1, lines[0], hits[0]) + Records(lines[1..], hits[1..], base + 1)
  {
  }

  /** The hits of line number `n` when `hits` describes the lines numbered from `base + 1`; none outside them. */
  function HitsOf(hits: seq<seq<nat>>, base: nat, n: Pos): seq<nat> {
    if base < n <= base + |hits| then hits[n - base - 1] else []
  }

  /** The inductive step of `RecordsColumns`: one more line in front. */
  lemma RecordsColumnsStep(lines: seq<Bytes>, hits: seq<seq<nat>>, base: nat, n: Pos)
    requires |hits| == |lines| && lines != []
    requires ColumnsOn(Records(lines[1..], hits[1..], base + 1), n) == HitsOf(hits[1..], base + 1, n)
    ensures ColumnsOn(Records(lines, hits, base), n) == HitsOf(hits, base, n)
  {
    var first := LineRecords(base + 1, lines[0], hits[0]);
    var rest := Records(lines[1..], hits[1..], base + 1);
    assert Records(lines, hits, base) == first + rest by {
      RecordsStep(lines, hits, base);
    }
    assert ColumnsOn(first, n) == if n == base + 1 then hits[0] else [] by {
      ColumnsOnLineRecords(base + 1, lines[0], hits[0], n);
    }
    ColumnsOnAppend(first, rest, n);
    if n == base + 1 {
      assert HitsOf(hits[1..], base + 1, n) == [];
      assert hits[0] + [] == hits[0];
    } else {
      assert HitsOf(hits[1..], base + 1, n) == HitsOf(hits, base, n) by {
        if base + 1 < n <= base + |hits| {
          assert hits[1..][n - base - 2] == hits[n - base - 1];
        }
      }
      assert [] + HitsOf(hits, base, n) == HitsOf(hits, base, n);
    }
  }

  /** The records of line `n` are exactly that line's hits, and a line number outside `lines` has none. */
  lemma {:induction false} RecordsColumns(lines: seq<Bytes>, hits: seq<seq<nat>>, base: nat, n: Pos)
    requires |hits| == |lines|
    ensures ColumnsOn(Records(lines, hits, base), n) == HitsOf(hits, base, n)
    decreases |lines|
  {
    if lines != [] {
      RecordsColumns(lines[1..], hits[1..], base + 1, n);
      RecordsColumnsStep(lines, hits, base, n);
    } else {
      assert Records(lines, hits, base) == [] && HitsOf(hits, base, n) == [];
    }
  }

  /** The records of line `n` are the offsets the matcher finds in that line, plus one. */
  lemma SearchColumns(contents: Bytes, p: Bytes, fold: bool, n: Pos)
    requires |p| > 0 && n <= |Lines(contents)|
    ensures ColumnsOn(Search(contents, p, fold), n) == LineOffsets(Lines(contents)[n - 1], p, fold)
  {
    var ls := Lines(contents);
    var hits := Hits(ls, p, fold);
    SearchIsRecords(contents, p, fold);
    RecordsColumns(ls, hits, 0, n);
  }

  /**
   * Leftmost-first completeness of the search: the columns recorded for a
   * line are exactly a greedy, non-overlapping scan of that line, and a
   * line number past the last line has no records.
   */
  lemma SearchLineColumns(contents: Bytes, p: Bytes, fold: bool, n: Pos)
    requires |p| > 0
    ensures n <= |Lines(contents)| ==>
      GreedyScan(Fold(Lines(contents)[n - 1], fold), Fold(p, fold), 0, ColumnsOn(Search(contents, p, fold), n))
    ensures n > |Lines(contents)| ==> ColumnsOn(Search(contents, p, fold), n) == []
  {
    var ls := Lines(contents);
    if n <= |ls| {
      SearchColumns(contents, p, fold, n);
      OffsetsGreedy(Fold(ls[n - 1], fold), Fold(p, fold), 0);
    } else {
      SearchIsRecords(contents, p, fold);
      RecordsColumns(ls, Hits(ls, p, fold), 0, n);
    }
  }

  /** A line holds at most `|line| / |p|` records; one shorter than the pattern holds none. */
  lemma SearchLineCount(contents: Bytes, p: Bytes, fold: bool, n: Pos)
    requires |p| > 0 && n <= |Lines(contents)|
    ensures |ColumnsOn(Search(contents, p, fold), n)| <= |Lines(contents)[n - 1]| / |p|
    ensures |Lines(contents)[n - 1]| < |p| ==> ColumnsOn(Search(contents, p, fold), n) == []
  {
    var line := Lines(contents)[n - 1];
    SearchColumns(contents, p, fold, n);
    OffsetsCountBound(Fold(line, fold), Fold(p, fold));
  }

  /** `a` and `b` have the same hits, and `b` stores the folded lines `a` stores. */
  ghost predicate SameHitsFolded(a: seq<Match>, b: seq<Match>) {
    && |a| == |b|
    && forall k :: 0 <= k < |a| ==>
         a[k].line == b[k].line && a[k].column == b[k].column && b[k].text == LowerAll(a[k].text)
  }

  lemma {:induction false} RecordsFolded(lines: seq<Bytes>, hits: seq<seq<nat>>, base: nat)
    requires |hits| == |lines|
    ensures SameHitsFolded(Records(lines, hits, base), Records(LowerLines(lines), hits, base))
    decreases |lines|
  {
    if lines != [] {
      var low := LowerLines(lines);
      assert low[1..] == LowerLines(lines[1..]);
      RecordsFolded(lines[1..], hits[1..], base + 1);
      var a1 := LineRecords(base + 1, lines[0], hits[0]);
      var a2 := Records(lines[1..], hits[1..], base + 1);
      var b1 := LineRecords(base + 1, low[0], hits[0]);
      var b2 := Records(low[1..], hits[1..], base + 1);
      var a, b := a1 + a2, b1 + b2;
      forall k | 0 <= k < |a|
        ensures a[k].line == b[k].line && a[k].column == b[k].column && b[k].text == LowerAll(a[k].text)
      {
        if k >= |a1| {
          assert a[k] == a2[k - |a1|] && b[k] == b2[k - |a1|];
        }
      }
    }
  }

  /**
   * The case-insensitive search is the case-sensitive search of the folded
   * contents for the folded pattern: same line numbers, same columns; only
   * the stored line differs, since it keeps its original case.
   */
  lemma InsensitiveIsSensitiveOnFolded(contents: Bytes, p: Bytes)
    requires |p| > 0
    ensures SameHitsFolded(SearchInsensitive(contents, p), SearchSensitive(LowerAll(contents), LowerAll(p)))
  {
    var lines := Lines(contents);
    LinesLower(contents);
    var hits := Hits(lines, p, true);
    assert Hits(LowerLines(lines), LowerAll(p), false) == hits by {
      LowerAllIdempotent(p);
      forall i | 0 <= i < |lines|
        ensures LineOffsets(LowerLines(lines)[i], LowerAll(p), false) == hits[i]
      {
      }
    }
    RecordsFolded(lines, hits, 0);
  }

  lemma {:induction false} RecordsSnoc(ls: seq<Bytes>, hs: seq<seq<nat>>, l: Bytes, h: seq<nat>, base: nat)
    requires |hs| == |ls|
    ensures Records(ls + [l], hs + [h], base) == Records(ls, hs, base) + LineRecords(base + |ls| + 1, l, h)
    decreases |ls|
  {
    if ls != [] {
      assert (ls + [l])[1..] == ls[1..] + [l];
      assert (hs + [h])[1..] == hs[1..] + [h];
      RecordsSnoc(ls[1..], hs[1..], l, h, base + 1);
    } else {
      assert ls + [l] == [l] && hs + [h] == [h];
    }
  }

  /** The records of the first `index + 1` lines extend those of the first `index` by line `index + 1`. */
  lemma RecordsPrefixSnoc(lines: seq<Bytes>, hits: seq<seq<nat>>, index: nat)
    requires |hits| == |lines| && index < |lines|
    ensures Records(lines[..index + 1], hits[..index + 1], 0)
         == Records(lines[..index], hits[..index], 0) + LineRecords(index + 1, lines[index], hits[index])
  {
    RecordsSnoc(lines[..index], hits[..index], lines[index], hits[index], 0);
    assert lines[..index + 1] == lines[..index] + [lines[index]];
    assert hits[..index + 1] == hits[..index] + [hits[index]];
  }

  /** One turn of the loop over the lines appends the records of line `index + 1`. */
  lemma SearchLoopStep(lines: seq<Bytes>, p: Bytes, fold: bool, index: nat, offs: seq<nat>)
    requires |p| > 0 && index < |lines|
    requires offs == Offsets(Fold(lines[index], fold), Fold(p, fold), 0)
    ensures var hits := Hits(lines, p, fold);
      Records(lines[..index + 1], hits[..index + 1], 0)
        == Records(lines[..index], hits[..index], 0) + LineRecords(index + 1, lines[index], offs)
  {
    var hits := Hits(lines, p, fold);
    assert hits[index] == offs;
    RecordsPrefixSnoc(lines, hits, index);
  }

  /** The search as the source writes it: a loop over the lines, each scanned by `ScanLine`. */
  method SearchLoop(contents: Bytes, p: Bytes, fold: bool) returns (rs: seq<Match>)
    requires |p| > 0
    ensures rs == Search(contents, p, fold)
  {
    var lines := Lines(contents);
    ghost var hits := Hits(lines, p, fold);
    var needle := Fold(p, fold);
    rs := [];
    var index := 0;
    while index < |lines|
      invariant index <= |lines|
      invariant rs == Records(lines[..index], hits[..index], 0)
    {
      var line := lines[index];
      var offs := ScanLine(Fold(line, fold), needle);
      SearchLoopStep(lines, p, fold, index, offs);
      rs := rs + LineRecords(index + 1, line, offs);
      index := index + 1;
    }
    assert lines[..index] == lines && hits[..index] == hits;
    SearchIsRecords(contents, p, fold);
  }
}
