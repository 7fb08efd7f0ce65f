/** Canonical Huffman tables as the decoder stores them: left-aligned code, mask, length, value.
    Sections B.2.4.2 and C.2 of ITU-T T.81. */
module Huffman {
  import opened Words

  /** One row of the lookup arrays; bits and mask are C unsigned integers. */
  datatype Entry = Entry(bits: nat, mask: nat, bitlen: nat, code: Byte)

  /** The test of the decoder's linear search. */
  predicate Hit(data: Word, e: Entry) { And(data, OfNat(e.mask, 32)) == OfNat(e.bits, 32) }

  /** The code as a bit string. */
  function Code(e: Entry): Bits {
    if e.bitlen <= 32 then OfNat(e.bits, 32)[..e.bitlen] else []
  }

  function LeftMask(len: nat): Word
    requires len <= 32
  {
    Ones(len) + Zeros(32 - len)
  }

  /** Code lengths of a table in order: counts[i - 1] codes of each length i (HUFFSIZE). */
  function Lengths(counts: seq<Byte>, upTo: nat): (lens: seq<nat>)
    requires upTo <= |counts|
    ensures forall k :: 0 <= k < |lens| ==> 1 <= lens[k] <= upTo
    decreases upTo, counts
  {
    if upTo == 0 then [] else Lengths(counts, upTo - 1) + seq(counts[upTo - 1], _ => upTo)
  }

  predicate Sorted(lens: seq<nat>) { forall i, j :: 0 <= i < j < |lens| ==> lens[i] <= lens[j] }

  /** The share of the 2^32 words taken by the first k codes. */
  function LeftSum(lens: seq<nat>, k: nat): nat
    requires k <= |lens|
  {
    if k == 0 then 0 else LeftSum(lens, k - 1) + Pow2(if lens[k - 1] <= 32 then 32 - lens[k - 1] else 0)
  }

  ghost predicate ValidLengths(lens: seq<nat>) {
    Sorted(lens) && forall k :: 0 <= k < |lens| ==> 1 <= lens[k] <= 16
  }

  predicate Kraft(lens: seq<nat>) { LeftSum(lens, |lens|) <= WORD_COUNT }

  /** The row for a code of length len that starts at this word (32-bit arithmetic wraps). */
  function EntryAt(firstWord: nat, len: nat, value: Byte): Entry
    requires len <= 32
  {
    Entry(firstWord % 0x1_0000_0000, Shifted(Pow2(len) - 1, 32 - len), len, value)
  }

  /** The table for these lengths and values, each code starting where the previous one's words end. */
  function Canonical(lens: seq<nat>, vals: seq<Byte>): (es: seq<Entry>)
    requires |vals| == |lens|
    requires forall k :: 0 <= k < |lens| ==> lens[k] <= 32
    ensures |es| == |lens|
  {
    seq(|lens|, k requires 0 <= k < |lens| => EntryAt(LeftSum(lens, k), lens[k], vals[k]))
  }

  ghost predicate WellFormedEntry(e: Entry) {
    1 <= e.bitlen <= 16 && OfNat(e.mask, 32) == LeftMask(e.bitlen)
    && OfNat(e.bits, 32)[e.bitlen..] == Zeros(32 - e.bitlen)
  }

  ghost predicate WellFormed(es: seq<Entry>) {
    forall k :: 0 <= k < |es| ==> WellFormedEntry(es[k])
  }

  ghost predicate PrefixFree(es: seq<Entry>) {
    forall i, j :: 0 <= i < |es| && 0 <= j < |es| && i != j ==> !(Code(es[i]) <= Code(es[j]))
  }

  /** Listing the counts in order gives lengths that are sorted and between 1 and 16. */
  lemma {:induction false} LengthsValid(counts: seq<Byte>, upTo: nat)
    requires upTo <= |counts| && upTo <= 16
    ensures ValidLengths(Lengths(counts, upTo))
    decreases upTo
  {
    if upTo > 0 {
      LengthsValid(counts, upTo - 1);
    }
  }

  ghost predicate LegalTable(es: seq<Entry>) { WellFormed(es) && PrefixFree(es) }

  // ---- tiling ----

  lemma {:induction false} LeftSumMono(lens: seq<nat>, i: nat, j: nat)
    requires i <= j <= |lens|
    ensures LeftSum(lens, i) <= LeftSum(lens, j)
    decreases j - i
  {
    if i < j {
      LeftSumMono(lens, i, j - 1);
    }
  }

  /** A code's first word is its code value, left-aligned. */
  lemma {:induction false} LeftSumAligned(lens: seq<nat>, k: nat, len: nat) returns (c: nat)
    requires ValidLengths(lens) && k <= |lens|
    requires len <= 16 && forall i :: 0 <= i < k ==> lens[i] <= len
    ensures LeftSum(lens, k) == Shifted(c, 32 - len)
  {
    if k == 0 {
      c := 0;
      ShiftedZero(32 - len);
    } else {
      var prev := lens[k - 1];
      var c' := LeftSumAligned(lens, k - 1, prev);
      ShiftedNext(c', 32 - prev);
      ShiftedAgain(c' + 1, len - prev, 32 - len);
      c := Shifted(c' + 1, len - prev);
    }
  }

  /** The masked comparison is membership in an interval of words. */
  lemma MaskedTestIsInterval(w: Word, c: nat, len: nat)
    requires len <= 32 && c < Pow2(len)
    ensures var first := Shifted(c, 32 - len);
            And(w, LeftMask(len)) == OfNat(first, 32) <==> first <= Value(w) < first + Pow2(32 - len)
  {
    var hi, lo := w[..len], w[len..];
    OfNatShifted(c, len, 32 - len);
    assert And(w, LeftMask(len)) == hi + Zeros(32 - len);
    SamePrefix(hi, OfNat(c, len), Zeros(32 - len));
    SameNumber(hi, c);
    assert w == hi + lo;
    ValueConcat(hi, lo);
    if Value(hi) < c {
      ShiftedMono(Value(hi), c, 32 - len);
    } else if c < Value(hi) {
      ShiftedMono(c, Value(hi), 32 - len);
    }
  }

  lemma SamePrefix(a: Bits, b: Bits, tail: Bits)
    requires |a| == |b|
    ensures a + tail == b + tail <==> a == b
  {
    if a + tail == b + tail {
      assert a == (a + tail)[..|a|] == (b + tail)[..|b|] == b;
    }
  }

  lemma SameNumber(a: Bits, c: nat)
    requires c < Pow2(|a|)
    ensures a == OfNat(c, |a|) <==> Value(a) == c
  {
    ValueOfNat(c, |a|);
    OfNatValue(a);
  }

  lemma MaskWord(len: nat)
    requires len <= 32
    ensures OfNat(Shifted(Pow2(len) - 1, 32 - len), 32) == LeftMask(len)
  {
    OfNatShifted(Pow2(len) - 1, len, 32 - len);
    OfNatOnes(len);
  }

  /** Under Kraft, code k is some c of its length, and no word wraps. */
  lemma KraftFits(lens: seq<nat>, k: nat) returns (c: nat)
    requires ValidLengths(lens) && Kraft(lens) && k < |lens|
    ensures c < Pow2(lens[k]) && LeftSum(lens, k) == Shifted(c, 32 - lens[k]) < WORD_COUNT
  {
    var len := lens[k];
    c := LeftSumAligned(lens, k, len);
    LeftSumMono(lens, k + 1, |lens|);
    WordCount(len);
    if Pow2(len) < c {
      ShiftedMono(Pow2(len), c, 32 - len);
    }
  }

  lemma EntryWords(c: nat, len: nat, value: Byte)
    requires 1 <= len <= 16 && c < Pow2(len) && Shifted(c, 32 - len) < WORD_COUNT
    ensures var e := EntryAt(Shifted(c, 32 - len), len, value);
            e.bits == Shifted(c, 32 - len) && WellFormedEntry(e)
  {
    MaskWord(len);
    OfNatShifted(c, len, 32 - len);
  }

  lemma EntryHits(c: nat, len: nat, value: Byte, w: Word)
    requires 1 <= len <= 16 && c < Pow2(len) && Shifted(c, 32 - len) < WORD_COUNT
    ensures var first := Shifted(c, 32 - len);
            Hit(w, EntryAt(first, len, value)) <==> first <= Value(w) < first + Pow2(32 - len)
  {
    EntryWords(c, len, value);
    MaskedTestIsInterval(w, c, len);
  }

  /** Entry k of a table that satisfies Kraft is hit by exactly the words in its share. */
  lemma HitIsInterval(lens: seq<nat>, vals: seq<Byte>, k: nat, w: Word)
    requires ValidLengths(lens) && |vals| == |lens| && Kraft(lens) && k < |lens|
    ensures Hit(w, Canonical(lens, vals)[k]) <==> LeftSum(lens, k) <= Value(w) < LeftSum(lens, k + 1)
  {
    var c := KraftFits(lens, k);
    EntryHits(c, lens[k], vals[k], w);
  }

  lemma SharesDisjoint(lens: seq<nat>, i: nat, j: nat, v: nat)
    requires i < |lens| && j < |lens|
    requires LeftSum(lens, i) <= v < LeftSum(lens, i + 1) && LeftSum(lens, j) <= v < LeftSum(lens, j + 1)
    ensures i == j && v < LeftSum(lens, |lens|)
  {
    LeftSumMono(lens, i + 1, |lens|);
    if i < j {
      LeftSumMono(lens, i + 1, j);
    } else if j < i {
      LeftSumMono(lens, j + 1, i);
    }
  }

  lemma HitsAreOne(lens: seq<nat>, vals: seq<Byte>, w: Word, i: nat, j: nat)
    requires ValidLengths(lens) && |vals| == |lens| && Kraft(lens) && i < |lens| && j < |lens|
    requires Hit(w, Canonical(lens, vals)[i]) && Hit(w, Canonical(lens, vals)[j])
    ensures i == j && Value(w) < LeftSum(lens, |lens|)
  {
    HitIsInterval(lens, vals, i, w);
    HitIsInterval(lens, vals, j, w);
    SharesDisjoint(lens, i, j, Value(w));
  }

  /** The shares tile the words below the Kraft sum: the search finds the one covering entry, and
      finds none above it. */
  lemma {:induction false} TilesCodeSpace(lens: seq<nat>, vals: seq<Byte>, w: Word)
    requires ValidLengths(lens) && |vals| == |lens| && Kraft(lens)
    ensures var es := Canonical(lens, vals);
            && (forall i, j | 0 <= i < |es| && 0 <= j < |es| :: Hit(w, es[i]) && Hit(w, es[j]) ==> i == j)
            && (Value(w) < LeftSum(lens, |lens|) <==> exists k :: 0 <= k < |es| && Hit(w, es[k]))
  {
    var es := Canonical(lens, vals);
    forall i, j | 0 <= i < |es| && 0 <= j < |es| && Hit(w, es[i]) && Hit(w, es[j])
      ensures i == j && Value(w) < LeftSum(lens, |lens|)
    {
      HitsAreOne(lens, vals, w, i, j);
    }
    if Value(w) < LeftSum(lens, |lens|) {
      var k := Covering(lens, |lens|, Value(w));
      HitIsInterval(lens, vals, k, w);
    }
  }

  lemma {:induction false} Covering(lens: seq<nat>, n: nat, v: nat) returns (k: nat)
    requires n <= |lens| && v < LeftSum(lens, n)
    ensures k < n && LeftSum(lens, k) <= v < LeftSum(lens, k + 1)
  {
    k := n - 1;
    if v < LeftSum(lens, n - 1) {
      k := Covering(lens, n - 1, v);
    }
  }

  /** Every code keeps its low bits clear, also after a wrap. */
  lemma CanonicalWellFormed(lens: seq<nat>, vals: seq<Byte>)
    requires ValidLengths(lens) && |vals| == |lens|
    ensures WellFormed(Canonical(lens, vals))
  {
    forall k | 0 <= k < |lens|
      ensures WellFormedEntry(Canonical(lens, vals)[k])
    {
      var c := LeftSumAligned(lens, k, lens[k]);
      WrappedEntry(c, lens[k], vals[k]);
    }
  }

  lemma WrappedEntry(c: nat, len: nat, value: Byte)
    requires 1 <= len <= 16
    ensures WellFormedEntry(EntryAt(Shifted(c, 32 - len), len, value))
  {
    var first := Shifted(c, 32 - len);
    MaskWord(len);
    OfNatShifted(c, len, 32 - len);
    Pow2Of32();
    OfNatLow(first % 0x1_0000_0000, first / 0x1_0000_0000, 32);
  }

  /** Whole multiples of 2^len are lost in len bits. */
  lemma {:induction false} OfNatLow(r: nat, q: nat, len: nat)
    ensures OfNat(r + q * Pow2(len), len) == OfNat(r, len)
    decreases len, r
  {
    if len > 0 {
      var p := Pow2(len - 1);
      assert q * Pow2(len) == 2 * (q * p);
      assert (r + 2 * (q * p)) / 2 == r / 2 + q * p && (r + 2 * (q * p)) % 2 == r % 2;
      OfNatLow(r / 2, q, len - 1);
    }
  }

  /** Canonical tables are legal exactly when the lengths satisfy Kraft. */
  lemma LegalIffKraft(lens: seq<nat>, vals: seq<Byte>)
    requires ValidLengths(lens) && |vals| == |lens|
    ensures LegalTable(Canonical(lens, vals)) <==> Kraft(lens)
  {
    var es := Canonical(lens, vals);
    if Kraft(lens) {
      CanonicalWellFormed(lens, vals);
      forall i, j | 0 <= i < |es| && 0 <= j < |es| && i != j
        ensures !(Code(es[i]) <= Code(es[j]))
      {
        if Code(es[i]) <= Code(es[j]) {
          HitOwnCode(es[i], es[j]);
          HitOwnCode(es[j], es[j]);
          HitsAreOne(lens, vals, OfNat(es[j].bits, 32), i, j);
        }
      }
    } else {
      var k := Overflowing(lens, |lens|);
      assert es[0].bits == 0 && es[k].bits == 0;
      assert Code(es[0]) <= Code(es[k]);
    }
  }

  lemma HitOwnCode(e: Entry, f: Entry)
    requires WellFormedEntry(e) && WellFormedEntry(f) && Code(e) <= Code(f)
    ensures Hit(OfNat(f.bits, 32), e)
  {
    var we, wf := OfNat(e.bits, 32), OfNat(f.bits, 32);
    assert And(wf, LeftMask(e.bitlen)) == wf[..e.bitlen] + Zeros(32 - e.bitlen);
    assert wf[..e.bitlen] == Code(f)[..e.bitlen] == Code(e);
    assert we == we[..e.bitlen] + we[e.bitlen..];
  }

  /** When Kraft fails, some code starts exactly at 2^32 and wraps to zero. */
  lemma {:induction false} Overflowing(lens: seq<nat>, n: nat) returns (k: nat)
    requires ValidLengths(lens) && n <= |lens| && LeftSum(lens, n) > WORD_COUNT
    ensures 0 < k < n && LeftSum(lens, k) == WORD_COUNT
  {
    k := n - 1;
    if LeftSum(lens, k) > WORD_COUNT {
      k := Overflowing(lens, k);
    } else {
      var len := lens[k];
      var c := LeftSumAligned(lens, k, len);
      WordCount(len);
      if c < Pow2(len) {
        ShiftedMono(c, Pow2(len), 32 - len);
      } else if Pow2(len) < c {
        ShiftedMono(Pow2(len), c, 32 - len);
      }
    }
  }
}
