/**
 * Splitting file contents into lines the way Rust's `str::lines` does:
 * split on LF, drop a CR that immediately precedes the LF, and produce no
 * empty trailing line when the contents end with LF. A CR at the very end
 * of the contents, with no LF after it, stays part of the last line.
 */
module LineSplit {
  import opened Text

  /** Index of the first LF at or after `i`, or `|s|` when there is none. */
  function FindLF(s: Bytes, i: nat): (r: nat)
    requires i <= |s|
    ensures i <= r <= |s|
    ensures r < |s| ==> s[r] == LF
    ensures forall j :: i <= j < r ==> s[j] != LF
    decreases |s| - i
  {
    if i == |s| || s[i] == LF then i else FindLF(s, i + 1)
  }

  /** The line without the CR of a CRLF terminator. */
  function DropCR(l: Bytes): Bytes {
    if |l| > 0 && l[|l| - 1] == CR then l[..|l| - 1] else l
  }

  /** The lines of `s`, without their terminators. */
  function Lines(s: Bytes): (ls: seq<Bytes>)
    ensures forall k :: 0 <= k < |ls| ==> LF !in ls[k]
    ensures s == [] <==> ls == []
    decreases |s|
  {
    if s == [] then []
    else
      var e := FindLF(s, 0);
      if e == |s| then [s]
      else [DropCR(s[..e])] + Lines(s[e + 1..])
  }

  /** Lines written back with an LF after each. */
  function Unlines(ls: seq<Bytes>): Bytes {
    if ls == [] then [] else ls[0] + [LF] + Unlines(ls[1..])
  }

  /** Lines written back with a CRLF after each. */
  function UnlinesCRLF(ls: seq<Bytes>): Bytes {
    if ls == [] then [] else ls[0] + [CR, LF] + UnlinesCRLF(ls[1..])
  }

  /** A line that `Lines` can give back unchanged when it is followed by LF. */
  predicate PlainLine(l: Bytes) {
    LF !in l && (|l| == 0 || l[|l| - 1] != CR)
  }

  lemma FindLFAfterLine(l: Bytes, rest: Bytes)
    requires LF !in l
    ensures FindLF(l + [LF] + rest, 0) == |l|
  {
    var s := l + [LF] + rest;
    assert s[|l|] == LF;
    assert forall j :: 0 <= j < |l| ==> s[j] == l[j];
  }

  /** Contents whose first LF is at `e` split into the line before it and the lines after it. */
  lemma LinesAfter(s: Bytes, e: nat, head: Bytes, rest: Bytes)
    requires e == FindLF(s, 0) && e < |s|
    requires head == DropCR(s[..e]) && rest == s[e + 1..]
    ensures Lines(s) == [head] + Lines(rest)
  {
    assert s != [];
  }

  /** A line followed by LF splits off as the first line. */
  lemma LinesCons(l: Bytes, rest: Bytes)
    requires PlainLine(l)
    ensures Lines(l + [LF] + rest) == [l] + Lines(rest)
  {
    var s := l + [LF] + rest;
    FindLFAfterLine(l, rest);
    assert s[..|l|] == l;
    assert s[|l| + 1..] == rest;
    LinesAfter(s, |l|, l, rest);
  }

  /** Splitting LF-terminated lines gives the lines back. */
  lemma {:induction false} LinesUnlines(ls: seq<Bytes>)
    requires forall k :: 0 <= k < |ls| ==> PlainLine(ls[k])
    ensures Lines(Unlines(ls)) == ls
  {
    if ls != [] {
      LinesCons(ls[0], Unlines(ls[1..]));
      LinesUnlines(ls[1..]);
      HeadTail(ls);
    } else {
      assert Unlines(ls) == [];
    }
  }

  /** Splitting CRLF-terminated lines gives the lines back, whatever CRs they hold. */
  lemma {:induction false} LinesUnlinesCRLF(ls: seq<Bytes>)
    requires forall k :: 0 <= k < |ls| ==> LF !in ls[k]
    ensures Lines(UnlinesCRLF(ls)) == ls
  {
    if ls != [] {
      LinesUnlinesCRLF(ls[1..]);
      LinesCRLFStep(ls);
    } else {
      assert UnlinesCRLF(ls) == [];
    }
  }

  /** The inductive step of `LinesUnlinesCRLF`: one more CRLF-terminated line in front. */
  lemma LinesCRLFStep(ls: seq<Bytes>)
    requires ls != [] && LF !in ls[0]
    requires Lines(UnlinesCRLF(ls[1..])) == ls[1..]
    ensures Lines(UnlinesCRLF(ls)) == ls
  {
    UnlinesCRLFCons(ls);
    LinesCRLFChain(UnlinesCRLF(ls), ls[0], UnlinesCRLF(ls[1..]), ls[1..]);
    HeadTail(ls);
  }

  lemma UnlinesCRLFCons(ls: seq<Bytes>)
    requires ls != []
    ensures UnlinesCRLF(ls) == (ls[0] + [CR]) + [LF] + UnlinesCRLF(ls[1..])
  {
    assert UnlinesCRLF(ls) == ls[0] + [CR, LF] + UnlinesCRLF(ls[1..]);
    CRLFSplit(ls[0], UnlinesCRLF(ls[1..]));
  }

  lemma CRLFSplit(a: Bytes, rest: Bytes)
    ensures a + [CR, LF] + rest == (a + [CR]) + [LF] + rest
  {
    assert a + [CR, LF] == (a + [CR]) + [LF];
  }

  /** Contents that start with a line, CR and LF split into that line and the lines after it. */
  lemma LinesCRLFChain(s: Bytes, l: Bytes, rest: Bytes, tail: seq<Bytes>)
    requires LF !in l && s == (l + [CR]) + [LF] + rest
    requires Lines(rest) == tail
    ensures Lines(s) == [l] + tail
  {
    FindLFAfterLine(l + [CR], rest);
    assert s[..|l| + 1] == l + [CR];
    assert DropCR(l + [CR]) == l;
    assert s[|l| + 2..] == rest;
    LinesAfter(s, |l| + 1, l, rest);
  }

  /** Contents without an LF are one line. */
  lemma LinesSingle(last: Bytes)
    requires last != [] && LF !in last
    ensures Lines(last) == [last]
  {
    assert FindLF(last, 0) == |last|;
  }

  lemma UnlinesAppend(ls: seq<Bytes>, last: Bytes)
    requires ls != []
    ensures Unlines(ls) + last == ls[0] + [LF] + (Unlines(ls[1..]) + last)
  {
    assert Unlines(ls) == ls[0] + [LF] + Unlines(ls[1..]);
  }

  /** Contents that start with a plain line and an LF split into that line and the lines after it. */
  lemma LinesChain(u: Bytes, l: Bytes, rest: Bytes, tail: seq<Bytes>)
    requires PlainLine(l) && u == l + [LF] + rest
    requires Lines(rest) == tail
    ensures Lines(u) == [l] + tail
  {
    LinesCons(l, rest);
  }

  /** The inductive step of `LinesUnterminatedLast`: one more LF-terminated line in front. */
  lemma LinesUnterminatedStep(ls: seq<Bytes>, last: Bytes)
    requires ls != [] && PlainLine(ls[0])
    requires Lines(Unlines(ls[1..]) + last) == ls[1..] + [last]
    ensures Lines(Unlines(ls) + last) == ls + [last]
  {
    var rest := Unlines(ls[1..]) + last;
    UnlinesAppend(ls, last);
    LinesChain(Unlines(ls) + last, ls[0], rest, ls[1..] + [last]);
    ConsSnoc(ls, last);
  }

  /** A last line without a terminator is still a line. */
  lemma {:induction false} LinesUnterminatedLast(ls: seq<Bytes>, last: Bytes)
    requires forall k :: 0 <= k < |ls| ==> PlainLine(ls[k])
    requires last != [] && LF !in last
    ensures Lines(Unlines(ls) + last) == ls + [last]
  {
    if ls == [] {
      assert Unlines(ls) + last == last;
      LinesSingle(last);
    } else {
      LinesUnterminatedLast(ls[1..], last);
      LinesUnterminatedStep(ls, last);
    }
  }

  /** A line with its own terminator: CRLF when `crlf` is set, LF otherwise. */
  function Terminated(l: Bytes, crlf: bool): Bytes {
    if crlf then l + [CR, LF] else l + [LF]
  }

  /** Lines written back, line `k` with a CRLF when `crlf[k]` is set and with an LF otherwise. */
  function UnlinesMixed(ls: seq<Bytes>, crlf: seq<bool>): Bytes
    requires |ls| == |crlf|
  {
    if ls == [] then [] else Terminated(ls[0], crlf[0]) + UnlinesMixed(ls[1..], crlf[1..])
  }

  /**
   * A line `Lines` gives back unchanged before the terminator: before CRLF
   * any line without LF, before a lone LF a line that also does not end
   * in CR (that CR would be read as part of a CRLF).
   */
  predicate FitsTerminator(l: Bytes, crlf: bool) {
    if crlf then LF !in l else PlainLine(l)
  }

  /** The lines an unterminated tail adds: none when it is empty, itself otherwise. */
  function TailLines(last: Bytes): (r: seq<Bytes>)
    ensures |r| <= 1
    ensures r == [] <==> last == []
  {
    if last == [] then [] else [last]
  }

  /** The inductive step of `LinesUnlinesMixed`: one more terminated line in front. */
  lemma LinesMixedStep(ls: seq<Bytes>, crlf: seq<bool>, last: Bytes)
    requires |ls| == |crlf| && ls != [] && FitsTerminator(ls[0], crlf[0])
    requires Lines(UnlinesMixed(ls[1..], crlf[1..]) + last) == ls[1..] + TailLines(last)
    ensures Lines(UnlinesMixed(ls, crlf) + last) == ls + TailLines(last)
  {
    var head, more := Terminated(ls[0], crlf[0]), UnlinesMixed(ls[1..], crlf[1..]);
    var rest, tail := more + last, ls[1..] + TailLines(last);
    var s := UnlinesMixed(ls, crlf) + last;
    assert UnlinesMixed(ls, crlf) == head + more;
    ConcatAssoc(head, more, last);
    if crlf[0] {
      CRLFSplit(ls[0], rest);
      LinesCRLFChain(s, ls[0], rest, tail);
    } else {
      LinesChain(s, ls[0], rest, tail);
    }
    ConsAppend(ls, TailLines(last));
  }

  /**
   * Any mix of LF- and CRLF-terminated lines, followed by an unterminated
   * last line or by nothing, splits back into exactly those lines.
   */
  lemma {:induction false} LinesUnlinesMixed(ls: seq<Bytes>, crlf: seq<bool>, last: Bytes)
    requires |ls| == |crlf|
    requires forall k :: 0 <= k < |ls| ==> FitsTerminator(ls[k], crlf[k])
    requires LF !in last
    ensures Lines(UnlinesMixed(ls, crlf) + last) == ls + TailLines(last)
  {
    if ls == [] {
      assert UnlinesMixed(ls, crlf) + last == last;
      if last != [] {
        LinesSingle(last);
      }
    } else {
      LinesUnlinesMixed(ls[1..], crlf[1..], last);
      LinesMixedStep(ls, crlf, last);
    }
  }

  /** With every terminator CRLF, the mixed writing is `UnlinesCRLF`. */
  lemma {:induction false} UnlinesMixedAllCRLF(ls: seq<Bytes>, crlf: seq<bool>)
    requires |ls| == |crlf| && forall k :: 0 <= k < |crlf| ==> crlf[k]
    ensures UnlinesMixed(ls, crlf) == UnlinesCRLF(ls)
  {
    if ls != [] {
      UnlinesMixedAllCRLF(ls[1..], crlf[1..]);
      assert crlf[0];
    }
  }

  /** CRLF-terminated lines followed by a last line without terminator split back into those lines. */
  lemma {:induction false} LinesCRLFUnterminated(ls: seq<Bytes>, last: Bytes)
    requires forall k :: 0 <= k < |ls| ==> LF !in ls[k]
    requires last != [] && LF !in last
    ensures Lines(UnlinesCRLF(ls) + last) == ls + [last]
  {
    var crlf := seq(|ls|, k => true);
    UnlinesMixedAllCRLF(ls, crlf);
    LinesUnlinesMixed(ls, crlf, last);
  }

  lemma {:induction false} FindLFLower(s: Bytes, i: nat)
    requires i <= |s|
    ensures FindLF(LowerAll(s), i) == FindLF(s, i)
    decreases |s| - i
  {
    if i < |s| {
      LowerKeepsTerminators(s[i]);
      if s[i] != LF {
        FindLFLower(s, i + 1);
      }
    }
  }

  /** Each line folded. */
  function LowerLines(ls: seq<Bytes>): (r: seq<Bytes>)
    ensures |r| == |ls|
    ensures forall k :: 0 <= k < |ls| ==> r[k] == LowerAll(ls[k])
  {
    seq(|ls|, k requires 0 <= k < |ls| => LowerAll(ls[k]))
  }

  /** Folding commutes with dropping the CR of a CRLF terminator. */
  lemma DropCRLower(l: Bytes)
    ensures DropCR(LowerAll(l)) == LowerAll(DropCR(l))
  {
    if |l| > 0 {
      LowerKeepsTerminators(l[|l| - 1]);
      LowerAllSlice(l, 0, |l| - 1);
    }
  }

  /** Folding contents with no LF: the one line is folded. */
  lemma LinesLowerLast(s: Bytes)
    requires s != [] && FindLF(s, 0) == |s|
    ensures Lines(LowerAll(s)) == LowerLines(Lines(s))
  {
    FindLFLower(s, 0);
  }

  lemma LowerLinesCons(l: Bytes, ls: seq<Bytes>)
    ensures LowerLines([l] + ls) == [LowerAll(l)] + LowerLines(ls)
  {
    var a, b := LowerLines([l] + ls), [LowerAll(l)] + LowerLines(ls);
    assert forall k :: 0 <= k < |a| ==> a[k] == b[k] by {
      forall k | 0 <= k < |a|
        ensures a[k] == b[k]
      {
        if k > 0 {
          assert ([l] + ls)[k] == ls[k - 1];
        }
      }
    }
  }

  /** Folding commutes with cutting out the byte at `e`. */
  lemma LowerAllAround(s: Bytes, e: nat)
    requires e < |s|
    ensures LowerAll(s)[..e] == LowerAll(s[..e])
    ensures LowerAll(s)[e + 1..] == LowerAll(s[e + 1..])
  {
    LowerAllSlice(s, 0, e);
    assert s[0..e] == s[..e];
    LowerAllSlice(s, e + 1, |s|);
    assert s[e + 1..|s|] == s[e + 1..];
  }

  /** Contents with an LF at `e` and none before: the first line, then the lines after the LF. */
  lemma LinesFirst(s: Bytes, e: nat)
    requires e == FindLF(s, 0) && e < |s|
    ensures Lines(s) == [DropCR(s[..e])] + Lines(s[e + 1..])
  {
  }

  /** The inductive step of `LinesLower`: the line before the first LF, then the rest. */
  lemma LinesLowerStep(s: Bytes, e: nat)
    requires e == FindLF(s, 0) && e < |s|
    requires Lines(LowerAll(s[e + 1..])) == LowerLines(Lines(s[e + 1..]))
    ensures Lines(LowerAll(s)) == LowerLines(Lines(s))
  {
    var t := LowerAll(s);
    var head := DropCR(s[..e]);
    LinesFirst(s, e);
    FindLFLower(s, 0);
    LinesFirst(t, e);
    LowerAllAround(s, e);
    DropCRLower(s[..e]);
    LowerLinesCons(head, Lines(s[e + 1..]));
  }

  /** Folding the contents and then splitting gives the folded lines. */
  lemma {:induction false} LinesLower(s: Bytes)
    ensures Lines(LowerAll(s)) == LowerLines(Lines(s))
    decreases |s|
  {
    if s != [] {
      var e := FindLF(s, 0);
      if e < |s| {
        LinesLower(s[e + 1..]);
        LinesLowerStep(s, e);
      } else {
        LinesLowerLast(s);
      }
    }
  }
}
