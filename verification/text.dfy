/**
 * Bytes and byte-level ASCII case folding, plus the small generic facts
 * about sequences that the proofs of the other modules lean on.
 *
 * File contents, lines and patterns are byte strings. Case-insensitive
 * comparison folds 'A'..'Z' to 'a'..'z' and leaves every other byte alone,
 * so folding never changes the length of a string and an offset found in a
 * folded string is a valid offset into the original one.
 */
module Text {

  newtype byte = b: int | 0 <= b < 256

  type Bytes = seq<byte>

  /** A 1-based line or column number. */
  type Pos = n: nat | 1 <= n witness 1

  const LF: byte := 10
  const CR: byte := 13

  predicate IsUpper(b: byte) {
    'A' as int <= b as int <= 'Z' as int
  }

  /** ASCII lowercase of one byte. */
  function Lower(b: byte): byte {
    if IsUpper(b) then b + 32 else b
  }

  /** ASCII lowercase of a byte string, byte by byte. */
  function LowerAll(s: Bytes): (r: Bytes)
    ensures |r| == |s|
    ensures forall i :: 0 <= i < |s| ==> r[i] == Lower(s[i])
  {
    seq(|s|, i requires 0 <= i < |s| => Lower(s[i]))
  }

  /** The string compared by a search: folded when `fold` is set, as is otherwise. */
  function Fold(s: Bytes, fold: bool): (r: Bytes)
    ensures |r| == |s|
  {
    if fold then LowerAll(s) else s
  }

  /** Folding leaves the line terminators alone and never produces them. */
  lemma LowerKeepsTerminators(b: byte)
    ensures Lower(b) == LF <==> b == LF
    ensures Lower(b) == CR <==> b == CR
  {
  }

  /** Folding twice is folding once. */
  lemma LowerAllIdempotent(s: Bytes)
    ensures LowerAll(LowerAll(s)) == LowerAll(s)
  {
  }

  // Generic facts about sequences, kept small so that callers need not
  // reason about sequence equality in a crowded context.

  lemma HeadTail<T>(xs: seq<T>)
    requires xs != []
    ensures [xs[0]] + xs[1..] == xs
  {
    assert xs == [xs[0]] + xs[1..];
  }

  lemma ConsSnoc<T>(xs: seq<T>, x: T)
    requires xs != []
    ensures [xs[0]] + (xs[1..] + [x]) == xs + [x]
  {
    assert xs == [xs[0]] + xs[1..];
  }

  lemma ConsAppend<T>(xs: seq<T>, ys: seq<T>)
    requires xs != []
    ensures [xs[0]] + (xs[1..] + ys) == xs + ys
  {
    assert xs == [xs[0]] + xs[1..];
  }

  lemma ConcatAssoc<T>(x: seq<T>, y: seq<T>, z: seq<T>)
    ensures x + (y + z) == (x + y) + z
  {
  }

  lemma ConcatTail<T>(x: seq<T>, y: seq<T>)
    requires x != []
    ensures (x + y)[0] == x[0] && (x + y)[1..] == x[1..] + y
  {
  }

  /** Adjacent slices concatenate. */
  lemma SliceSplit(s: Bytes, a: nat, b: nat, c: nat)
    requires a <= b <= c <= |s|
    ensures s[a..b] + s[b..c] == s[a..c]
  {
  }

  /** A slice followed by the rest is the suffix. */
  lemma SliceTail(s: Bytes, a: nat, b: nat)
    requires a <= b <= |s|
    ensures s[a..b] + s[b..] == s[a..]
  {
  }

  /** Folding commutes with slicing. */
  lemma LowerAllSlice(s: Bytes, i: nat, j: nat)
    requires i <= j <= |s|
    ensures LowerAll(s[i..j]) == LowerAll(s)[i..j]
  {
  }
}
