/**
 * The match highlighter of src/main.rs (`faerbe_suchstring`): it runs the
 * same cursor scan as the line scanner and rebuilds the line as the
 * verbatim gap before each match, the decorated original-case slice of the
 * match, and finally the rest of the line.
 *
 * The rebuilt line is modelled as a sequence of segments; `Render` applies
 * a decoration (the terminal colour in the program) to the marked ones and
 * `Strip` drops the decoration.
 */
module Highlighter {
  import opened Text
  import opened Wrappers
  import opened Matcher
  import opened LineSplit
  import opened Scanner

  /** A piece of the rebuilt line: copied verbatim, or to be decorated. */
  datatype Segment = Plain(bytes: Bytes) | Marked(bytes: Bytes)

  /** The rebuilt line without decoration. */
  function Strip(segs: seq<Segment>): Bytes {
    if segs == [] then [] else segs[0].bytes + Strip(segs[1..])
  }

  /** The rebuilt line as printed, each marked segment passed through `deco`. */
  function Render(segs: seq<Segment>, deco: Bytes -> Bytes): Bytes {
    if segs == [] then []
    else
      var head := match segs[0] case Plain(b) => b case Marked(b) => deco(b);
      head + Render(segs[1..], deco)
  }

  /** The marked segments, each with the offset at which it starts in `Strip(segs)` (plus `at`). */
  function Spans(segs: seq<Segment>, at: nat): seq<(nat, Bytes)> {
    if segs == [] then []
    else
      var rest := Spans(segs[1..], at + |segs[0].bytes|);
      match segs[0]
      case Plain(_) => rest
      case Marked(b) => [(at, b)] + rest
  }

  /**
   * The segments of `line[pos..]`, scanning from the cursor `pos`. The scan
   * looks for `pat` in `cmp`, the line as compared (folded or not); the
   * segments are cut from the original `line`, which has the same length.
   */
  function HighlightFrom(line: Bytes, cmp: Bytes, pat: Bytes, pos: nat): seq<Segment>
    requires |cmp| == |line| && |pat| > 0 && pos <= |line|
    decreases |line| - pos
  {
    match Find(cmp, pat, pos)
    case None => [Plain(line[pos..])]
    case Some(i) => [Plain(line[pos..i]), Marked(line[i..i + |pat|])] + HighlightFrom(line, cmp, pat, i + |pat|)
  }

  /** `faerbe_suchstring` before decoration. */
  function Highlight(line: Bytes, p: Bytes, fold: bool): seq<Segment>
    requires |p| > 0
  {
    HighlightFrom(line, Fold(line, fold), Fold(p, fold), 0)
  }

  /** The decorated line `faerbe_suchstring` returns. */
  function Colorized(line: Bytes, p: Bytes, fold: bool, deco: Bytes -> Bytes): Bytes
    requires |p| > 0
  {
    Render(Highlight(line, p, fold), deco)
  }

  lemma HighlightStep(line: Bytes, cmp: Bytes, pat: Bytes, pos: nat, i: nat)
    requires |cmp| == |line| && |pat| > 0 && pos <= |line|
    requires Find(cmp, pat, pos) == Some(i)
    ensures pos <= i && i + |pat| <= |line|
    ensures HighlightFrom(line, cmp, pat, pos)
         == [Plain(line[pos..i]), Marked(line[i..i + |pat|])] + HighlightFrom(line, cmp, pat, i + |pat|)
  {
    var next := i + |pat|;
    assert pos <= i && next <= |line|;
    var rest := HighlightFrom(line, cmp, pat, next);
    assert HighlightFrom(line, cmp, pat, pos) == [Plain(line[pos..i]), Marked(line[i..next])] + rest;
  }

  lemma StripStep(a: Bytes, b: Bytes, rest: seq<Segment>)
    ensures Strip([Plain(a), Marked(b)] + rest) == a + b + Strip(rest)
  {
    var s := [Plain(a), Marked(b)] + rest;
    assert s[1..] == [Marked(b)] + rest;
    assert s[1..][1..] == rest;
  }

  lemma RenderStep(s: seq<Segment>, a: Bytes, b: Bytes, rest: seq<Segment>, deco: Bytes -> Bytes)
    requires s == [Plain(a), Marked(b)] + rest
    ensures Render(s, deco) == a + deco(b) + Render(rest, deco)
  {
    assert s[1..] == [Marked(b)] + rest;
    assert s[1..][1..] == rest;
  }

  lemma SpansStep(line: Bytes, pos: nat, i: nat, plen: nat, rest: seq<Segment>)
    requires pos <= i && i + plen <= |line|
    ensures Spans([Plain(line[pos..i]), Marked(line[i..i + plen])] + rest, pos)
         == [(i, line[i..i + plen])] + Spans(rest, i + plen)
  {
    var a, b := line[pos..i], line[i..i + plen];
    var s := [Plain(a), Marked(b)] + rest;
    assert s[1..] == [Marked(b)] + rest;
    assert s[1..][1..] == rest;
    assert pos + |a| == i && i + |b| == i + plen;
  }

  lemma StripPlain(b: Bytes)
    ensures Strip([Plain(b)]) == b
  {
    assert Strip([Plain(b)]) == b + Strip([]);
  }

  /** One step of `StripFrom`: a gap and a match in front of a stripped tail strip to the suffix. */
  lemma StripFromStep(line: Bytes, cmp: Bytes, pat: Bytes, pos: nat, i: nat, next: nat)
    requires |cmp| == |line| && |pat| > 0 && pos <= |line|
    requires Find(cmp, pat, pos) == Some(i) && next == i + |pat|
    requires Strip(HighlightFrom(line, cmp, pat, next)) == line[next..]
    ensures Strip(HighlightFrom(line, cmp, pat, pos)) == line[pos..]
  {
    var rest := HighlightFrom(line, cmp, pat, next);
    assert pos <= i && next <= |line| && HighlightFrom(line, cmp, pat, pos) == [Plain(line[pos..i]), Marked(line[i..next])] + rest by {
      HighlightStep(line, cmp, pat, pos, i);
    }
    StripStep(line[pos..i], line[i..next], rest);
    SliceSplit(line, pos, i, next);
    SliceTail(line, pos, next);
  }

  lemma {:induction false} StripFrom(line: Bytes, cmp: Bytes, pat: Bytes, pos: nat)
    requires |cmp| == |line| && |pat| > 0 && pos <= |line|
    ensures Strip(HighlightFrom(line, cmp, pat, pos)) == line[pos..]
    decreases |line| - pos
  {
    var found := Find(cmp, pat, pos);
    if found.None? {
      assert HighlightFrom(line, cmp, pat, pos) == [Plain(line[pos..])];
      StripPlain(line[pos..]);
    } else {
      var next := found.value + |pat|;
      StripFrom(line, cmp, pat, next);
      StripFromStep(line, cmp, pat, pos, found.value, next);
    }
  }

  /** Stripping the decoration gives back the line. */
  lemma StripHighlight(line: Bytes, p: Bytes, fold: bool)
    requires |p| > 0
    ensures Strip(Highlight(line, p, fold)) == line
  {
    StripFrom(line, Fold(line, fold), Fold(p, fold), 0);
  }

  lemma {:induction false} RenderPlain(segs: seq<Segment>)
    ensures Render(segs, b => b) == Strip(segs)
  {
    if segs != [] {
      RenderPlain(segs[1..]);
    }
  }

  /** With the identity decoration the highlighter returns the line unchanged. */
  lemma ColorizedIdentity(line: Bytes, p: Bytes, fold: bool)
    requires |p| > 0
    ensures Colorized(line, p, fold, b => b) == line
  {
    RenderPlain(Highlight(line, p, fold));
    StripHighlight(line, p, fold);
  }

  /** `sp` lists, in order, the offsets `offs` each with the slice of `line` of length `plen` there. */
  ghost predicate SpansAgree(sp: seq<(nat, Bytes)>, offs: seq<nat>, line: Bytes, plen: nat) {
    && |sp| == |offs|
    && forall k :: 0 <= k < |sp| ==>
         sp[k].0 == offs[k] && offs[k] + plen <= |line| && sp[k].1 == line[offs[k]..offs[k] + plen]
  }

  /** Agreement extends to one more span in front, at offset `i`. */
  lemma SpansAgreeCons(sp2: seq<(nat, Bytes)>, offs2: seq<nat>, sp: seq<(nat, Bytes)>, offs: seq<nat>, line: Bytes, plen: nat, i: nat)
    requires SpansAgree(sp, offs, line, plen) && i + plen <= |line|
    requires sp2 == [(i, line[i..i + plen])] + sp && offs2 == [i] + offs
    ensures SpansAgree(sp2, offs2, line, plen)
  {
    forall k | 0 <= k < |sp2|
      ensures sp2[k].0 == offs2[k] && offs2[k] + plen <= |line| && sp2[k].1 == line[offs2[k]..offs2[k] + plen]
    {
      if k > 0 {
        assert sp2[k] == sp[k - 1] && offs2[k] == offs[k - 1];
      }
    }
  }

  lemma SpansPlain(b: Bytes, at: nat)
    ensures Spans([Plain(b)], at) == []
  {
    assert [Plain(b)][1..] == [];
  }

  /** One step of the highlighter, seen through `Spans`. */
  lemma SpansFromStep(line: Bytes, cmp: Bytes, pat: Bytes, pos: nat, i: nat)
    requires |cmp| == |line| && |pat| > 0 && pos <= |line|
    requires Find(cmp, pat, pos) == Some(i)
    ensures pos <= i && i + |pat| <= |line|
    ensures Spans(HighlightFrom(line, cmp, pat, pos), pos)
         == [(i, line[i..i + |pat|])] + Spans(HighlightFrom(line, cmp, pat, i + |pat|), i + |pat|)
  {
    HighlightStep(line, cmp, pat, pos, i);
    SpansStep(line, pos, i, |pat|, HighlightFrom(line, cmp, pat, i + |pat|));
  }

  /** The inductive step of `SpansFrom`: agreement after the match extends to the span at the match. */
  lemma SpansFromCons(line: Bytes, cmp: Bytes, pat: Bytes, pos: nat, i: nat)
    requires |cmp| == |line| && |pat| > 0 && pos <= |line|
    requires Find(cmp, pat, pos) == Some(i)
    requires SpansAgree(Spans(HighlightFrom(line, cmp, pat, i + |pat|), i + |pat|), Offsets(cmp, pat, i + |pat|), line, |pat|)
    ensures SpansAgree(Spans(HighlightFrom(line, cmp, pat, pos), pos), Offsets(cmp, pat, pos), line, |pat|)
  {
    SpansFromStep(line, cmp, pat, pos, i);
    OffsetsStep(cmp, pat, pos, i);
    var next := i + |pat|;
    SpansAgreeCons(Spans(HighlightFrom(line, cmp, pat, pos), pos), Offsets(cmp, pat, pos),
                   Spans(HighlightFrom(line, cmp, pat, next), next), Offsets(cmp, pat, next), line, |pat|, i);
  }

  lemma {:induction false} SpansFrom(line: Bytes, cmp: Bytes, pat: Bytes, pos: nat)
    requires |cmp| == |line| && |pat| > 0 && pos <= |line|
    ensures SpansAgree(Spans(HighlightFrom(line, cmp, pat, pos), pos), Offsets(cmp, pat, pos), line, |pat|)
    decreases |line| - pos
  {
    var found := Find(cmp, pat, pos);
    if found.None? {
      assert HighlightFrom(line, cmp, pat, pos) == [Plain(line[pos..])];
      SpansPlain(line[pos..], pos);
      assert Offsets(cmp, pat, pos) == [];
    } else {
      var next := found.value + |pat|;
      SpansFrom(line, cmp, pat, next);
      SpansFromCons(line, cmp, pat, pos, found.value);
    }
  }

  /**
   * The highlighter decorates exactly the scanner's offsets for the same
   * line, pattern and fold flag, and each decorated segment is the
   * original slice of the line there, not the folded text and not the pattern.
   */
  lemma HighlightSpans(line: Bytes, p: Bytes, fold: bool)
    requires |p| > 0
    ensures var sp := Spans(Highlight(line, p, fold), 0);
      var offs := LineOffsets(line, p, fold);
      && |sp| == |offs|
      && forall k :: 0 <= k < |sp| ==>
           sp[k].0 == offs[k] && offs[k] + |p| <= |line| && sp[k].1 == line[offs[k]..offs[k] + |p|]
  {
    SpansFrom(line, Fold(line, fold), Fold(p, fold), 0);
  }

  /** A line with no occurrence comes back as one verbatim segment, and only such a line does. */
  lemma HighlightNoMatch(line: Bytes, p: Bytes, fold: bool)
    requires |p| > 0
    ensures Highlight(line, p, fold) == [Plain(line)] <==> NoneIn(Fold(line, fold), Fold(p, fold), 0, |line| + 1)
  {
    var cmp, pat := Fold(line, fold), Fold(p, fold);
    FindLeftmost(cmp, pat, 0);
    if Find(cmp, pat, 0).None? {
      assert line[0..] == line;
    } else {
      assert |HighlightFrom(line, cmp, pat, 0)| >= 2;
    }
  }

  lemma {:induction false} ColumnsOnHas(rs: seq<Match>, k: nat)
    requires k < |rs|
    ensures rs[k].column - 1 in ColumnsOn(rs, rs[k].line)
  {
    if k > 0 {
      ColumnsOnHas(rs[1..], k - 1);
    }
  }

  lemma SpansAgreeHas(sp: seq<(nat, Bytes)>, offs: seq<nat>, line: Bytes, plen: nat, c: nat)
    requires SpansAgree(sp, offs, line, plen) && c in offs
    ensures c + plen <= |line| && (c, line[c..c + plen]) in sp
  {
    var j :| 0 <= j < |offs| && offs[j] == c;
    assert sp[j] == (c, line[c..c + plen]);
  }

  /** Every offset the scanner reports for a line is a decorated span of that line. */
  lemma OffsetHighlighted(line: Bytes, p: Bytes, fold: bool, c: nat)
    requires |p| > 0 && c in LineOffsets(line, p, fold)
    ensures c + |p| <= |line|
    ensures (c, line[c..c + |p|]) in Spans(Highlight(line, p, fold), 0)
  {
    var cmp, pat := Fold(line, fold), Fold(p, fold);
    assert Highlight(line, p, fold) == HighlightFrom(line, cmp, pat, 0);
    assert LineOffsets(line, p, fold) == Offsets(cmp, pat, 0);
    SpansFrom(line, cmp, pat, 0);
    SpansAgreeHas(Spans(HighlightFrom(line, cmp, pat, 0), 0), Offsets(cmp, pat, 0), line, |p|, c);
  }

  /** A record whose line's columns are that line's scan has its own offset in the scan. */
  lemma RecordOnLine(rs: seq<Match>, k: nat, r: Match, lines: seq<Bytes>, p: Bytes, fold: bool)
    requires |p| > 0 && k < |rs| && rs[k] == r && r.line <= |lines| && r.text == lines[r.line - 1]
    requires ColumnsOn(rs, r.line) == LineOffsets(lines[r.line - 1], p, fold)
    ensures r.column - 1 in LineOffsets(r.text, p, fold)
  {
    ColumnsOnHas(rs, k);
  }

  /** The `k`-th record's offset is one the scanner finds in the record's line. */
  lemma RecordScanned(contents: Bytes, p: Bytes, fold: bool, k: nat, r: Match)
    requires |p| > 0 && k < |Search(contents, p, fold)| && Search(contents, p, fold)[k] == r
    ensures r.column - 1 in LineOffsets(r.text, p, fold)
  {
    var rs := Search(contents, p, fold);
    var lines := Lines(contents);
    assert r.line <= |lines| && r.text == lines[r.line - 1] by {
      SearchRecord(contents, p, fold, k);
    }
    assert ColumnsOn(rs, r.line) == LineOffsets(lines[r.line - 1], p, fold) by {
      SearchColumns(contents, p, fold, r.line);
    }
    RecordOnLine(rs, k, r, lines, p, fold);
  }

  /**
   * Every record the search reports is highlighted when its line is
   * printed: the record's offset is one of the decorated spans, and the
   * span holds the line's original bytes at that offset.
   */
  lemma RecordHighlighted(contents: Bytes, p: Bytes, fold: bool, r: Match)
    requires |p| > 0 && r in Search(contents, p, fold)
    ensures r.column - 1 + |p| <= |r.text|
    ensures (r.column - 1, r.text[r.column - 1..r.column - 1 + |p|]) in Spans(Highlight(r.text, p, fold), 0)
  {
    var rs := Search(contents, p, fold);
    var k :| 0 <= k < |rs| && rs[k] == r;
    RecordScanned(contents, p, fold, k, r);
    RecordSpan(r, p, fold);
  }

  /** A record whose offset the scan finds in its line is a decorated span of that line. */
  lemma RecordSpan(r: Match, p: Bytes, fold: bool)
    requires |p| > 0 && r.column - 1 in LineOffsets(r.text, p, fold)
    ensures r.column - 1 + |p| <= |r.text|
    ensures (r.column - 1, r.text[r.column - 1..r.column - 1 + |p|]) in Spans(Highlight(r.text, p, fold), 0)
  {
    OffsetHighlighted(r.text, p, fold, r.column - 1);
  }

  /** One step of the highlighter, seen through `Render`; `next` is where the scan resumes. */
  lemma RenderFromStep(line: Bytes, cmp: Bytes, pat: Bytes, pos: nat, i: nat, next: nat, deco: Bytes -> Bytes)
    requires |cmp| == |line| && |pat| > 0 && pos <= |line|
    requires Find(cmp, pat, pos) == Some(i) && next == i + |pat|
    ensures pos <= i <= next <= |line|
    ensures Render(HighlightFrom(line, cmp, pat, pos), deco)
         == line[pos..i] + deco(line[i..next]) + Render(HighlightFrom(line, cmp, pat, next), deco)
  {
    var segs, rest := HighlightFrom(line, cmp, pat, pos), HighlightFrom(line, cmp, pat, next);
    assert pos <= i <= next <= |line| && segs == [Plain(line[pos..i]), Marked(line[i..next])] + rest by {
      HighlightStep(line, cmp, pat, pos, i);
    }
    RenderStep(segs, line[pos..i], line[i..next], rest, deco);
  }

  /** The last step of the highlighter: no further occurrence leaves the tail verbatim. */
  lemma RenderFromDone(line: Bytes, cmp: Bytes, pat: Bytes, pos: nat, deco: Bytes -> Bytes)
    requires |cmp| == |line| && |pat| > 0 && pos <= |line|
    requires Find(cmp, pat, pos) == None
    ensures Render(HighlightFrom(line, cmp, pat, pos), deco) == line[pos..]
  {
    assert Render([Plain(line[pos..])], deco) == line[pos..] + Render([], deco);
  }

  lemma AppendStep(done: Bytes, gap: Bytes, mark: Bytes, tail: Bytes, todo: Bytes, whole: Bytes)
    requires done + todo == whole && todo == gap + mark + tail
    ensures done + gap + mark + tail == whole
  {
  }

  /** `faerbe_suchstring` as written: a cursor loop that appends gap, decorated match, and tail. */
  method Colorize(line: Bytes, p: Bytes, fold: bool, deco: Bytes -> Bytes) returns (result: Bytes)
    requires |p| > 0
    ensures result == Colorized(line, p, fold, deco)
  {
    var lineCmp := Fold(line, fold);
    var pCmp := Fold(p, fold);
    assert |pCmp| == |p|;
    ghost var whole := Render(HighlightFrom(line, lineCmp, pCmp, 0), deco);
    result := [];
    var lastEnd := 0;
    var pos := 0;
    var found := Find(lineCmp, pCmp, pos);
    while found.Some?
      invariant lastEnd == pos <= |line|
      invariant found == Find(lineCmp, pCmp, pos)
      invariant result + Render(HighlightFrom(line, lineCmp, pCmp, pos), deco) == whole
      decreases |line| - pos
    {
      var index := found.value;
      var next := index + |p|;
      RenderFromStep(line, lineCmp, pCmp, pos, index, next, deco);
      ghost var tail := Render(HighlightFrom(line, lineCmp, pCmp, next), deco);
      var gap, mark := line[lastEnd..index], deco(line[index..next]);
      AppendStep(result, gap, mark, tail, Render(HighlightFrom(line, lineCmp, pCmp, pos), deco), whole);
      result := result + gap;
      result := result + mark;
      lastEnd := next;
      pos := next;
      found := Find(lineCmp, pCmp, pos);
    }
    RenderFromDone(line, lineCmp, pCmp, pos, deco);
    result := result + line[lastEnd..];
  }
}
