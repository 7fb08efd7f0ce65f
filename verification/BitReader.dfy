/** The 32-bit reservoir of the entropy decoder: refilling, symbols, value bits. */
module BitReader {
  import opened Words
  import opened Huffman
  import opened Stuffing
  import opened BlockCode
  import opened DhtTables

  /** mask[n] is the n low bits. */
  const MASK: seq<nat> := [0x0000, 0x0001, 0x0003, 0x0007, 0x000f, 0x001f, 0x003f, 0x007f, 0x00ff,
                           0x01ff, 0x03ff, 0x07ff, 0x0fff, 0x1fff, 0x3fff, 0x7fff, 0xffff]

  lemma MaskIsOnes(n: nat)
    requires n <= 16
    ensures |MASK| == 17 && MASK[n] == Pow2(n) - 1
  {
    hide OfNat;
    if n > 0 {
      MaskIsOnes(n - 1);
      assert MASK[n] == 2 * MASK[n - 1] + 1;
    }
  }

  // ---- word lemmas: the only places where the reservoir is looked at bit by bit ----

  /** OR-ing a byte in just below the bits already loaded appends it to them. */
  lemma AppendByte(data: Word, n: nat, b: Byte)
    requires n <= 24 && data[n..] == Zeros(32 - n)
    ensures Or(data, Shl(ByteWord(b), 24 - n)) == data[..n] + ByteBits(b) + Zeros(24 - n)
  {
    hide OfNat, ByteBits;
    var shifted := Shl(ByteWord(b), 24 - n);
    assert shifted == Zeros(n) + ByteBits(b) + Zeros(24 - n);
    assert forall i :: n <= i < 32 ==> data[i] == data[n..][i - n];
  }

  lemma DropBits(data: Word, bitlen: nat, n: nat)
    requires n <= bitlen <= 32 && data[bitlen..] == Zeros(32 - bitlen)
    ensures Shl(data, n)[..bitlen - n] == data[..bitlen][n..]
    ensures Shl(data, n)[bitlen - n..] == Zeros(32 - (bitlen - n))
  {
    assert Shl(data, n)[bitlen - n..] == data[bitlen..] + Zeros(n);
  }

  /** Shifting and masking on a signed register picks the top n bits as a number. */
  lemma TopBits(data: Word, n: nat)
    requires n <= 16
    ensures |MASK| == 17 && Value(And(Sar(data, 32 - n), OfNat(MASK[n], 32))) == Value(data[..n])
  {
    hide OfNat, Value, Pow2;
    MaskIsOnes(n);
    LowOnes(n);
    assert And(Sar(data, 32 - n), Zeros(32 - n) + Ones(n)) == Zeros(32 - n) + data[..n];
    ValueZeroExtend(32 - n, data[..n]);
  }

  lemma LowOnes(n: nat)
    requires n <= 32
    ensures OfNat(Pow2(n) - 1, 32) == Zeros(32 - n) + Ones(n)
  {
    OfNatWiden(Pow2(n) - 1, n, 32 - n);
    OfNatOnes(n);
  }

  /** The masked comparison asks whether the entry's code is what the reservoir starts with. */
  lemma HitIsCode(data: Word, e: Entry)
    requires WellFormedEntry(e)
    ensures Hit(data, e) <==> data[..e.bitlen] == Code(e)
  {
    hide OfNat;
    var len, w := e.bitlen, OfNat(e.bits, 32);
    assert And(data, LeftMask(len)) == data[..len] + Zeros(32 - len);
    assert w == w[..len] + Zeros(32 - len);
    SamePrefix(data[..len], w[..len], Zeros(32 - len));
  }

  class Reader {
    const frame: Memory
    const start: nat
    var gpos: nat
    var data: Word
    var bitlen: nat
    ghost var fetched: nat

    ghost function Bit(): Stream { ScanBits(frame, start) }

    /** Scan bits already used up. */
    ghost function Consumed(): int
      reads this
    {
      8 * fetched - bitlen
    }

    /** The top bitlen bits of the reservoir are the next bits of the scan, the rest are zero, and the
        bytes still in memory continue where the reservoir ends. */
    ghost predicate Valid()
      reads this
    {
      && bitlen <= 32 && 2 <= fetched && bitlen <= 8 * fetched
      && data[bitlen..] == Zeros(32 - bitlen)
      && Take(Bit(), 8 * fetched - bitlen, bitlen) == data[..bitlen]
      && (forall k: nat :: Delivered(frame, gpos, k) == ScanByte(frame, start, fetched + k))
    }

    constructor (frame: Memory, gpos: nat)
      ensures Valid() && Consumed() == 0 && bitlen == 16
      ensures this.frame == frame && this.start == gpos
    {
      this.frame := frame;
      this.start := gpos;
      this.gpos := gpos + 2;
      this.data := Or(Shl(ByteWord(frame(gpos)), 24), Shl(ByteWord(frame(gpos + 1)), 16));
      this.bitlen := 16;
      this.fetched := 2;
      new;
      FirstWord(frame, gpos);
    }

    /** fgetc_ */
    method Fetch() returns (uc: Byte)
      modifies this`gpos
      ensures uc == frame(old(gpos)) && gpos == old(gpos) + 1
    {
      uc := frame(gpos);
      gpos := gpos + 1;
    }

    method Append(uc: Byte)
      requires bitlen <= 24 && data[bitlen..] == Zeros(32 - bitlen)
      modifies this`data, this`bitlen
      ensures bitlen == old(bitlen) + 8 && data[bitlen..] == Zeros(32 - bitlen)
      ensures data[..bitlen] == old(data[..bitlen]) + ByteBits(uc)
    {
      AppendByte(data, bitlen, uc);
      data := Or(data, Shl(ByteWord(uc), 24 - bitlen));
      bitlen := bitlen + 8;
    }

    /** One pass of the refill loop. */
    method RefillPass()
      requires Valid() && bitlen < 16
      modifies this
      ensures Valid() && Consumed() == old(Consumed()) && old(bitlen) < bitlen <= 31
    {
      hide OfNat, ByteBits, ScanBits, ScanByte, Delivered, Take;
      ghost var p, n, loaded := gpos, fetched, data[..bitlen];
      PassStream(frame, start, gpos, fetched);
      var uc := Fetch();
      Append(uc);
      fetched := fetched + 1;
      TakeByte(frame, start, n, loaded);
      if uc == 0xFF {
        uc := Fetch();
        if uc == 0x00 {
          uc := Fetch();
        }
        ghost var loaded' := data[..bitlen];
        Append(uc);
        fetched := fetched + 1;
        TakeByte(frame, start, n + 1, loaded');
      }
      assert gpos == PassNext(frame, p) && fetched == n + PassLen(frame, p);
    }

    /** The refill loop: it stops, and leaves 16 to 31 bits if it had anything to do. */
    method Refill()
      requires Valid()
      modifies this
      ensures Valid() && Consumed() == old(Consumed())
      ensures if old(bitlen) < 16 then 16 <= bitlen <= 31 else bitlen == old(bitlen)
    {
      while bitlen < 16
        invariant Valid() && Consumed() == old(Consumed())
        invariant if old(bitlen) < 16 then bitlen <= 31 else bitlen == old(bitlen)
        decreases 32 - bitlen
      {
        RefillPass();
      }
    }

    /** data <<= n; bitlen -= n */
    method Drop(n: nat)
      requires Valid() && n <= bitlen
      modifies this
      ensures Valid() && Consumed() == old(Consumed()) + n && bitlen == old(bitlen) - n
    {
      hide OfNat, ByteBits, ScanBits, ScanByte, Delivered, Take;
      TakeSplit(Bit(), Consumed(), n, bitlen - n);
      DropBits(data, bitlen, n);
      assert Take(Bit(), Consumed() + n, bitlen - n) == data[..bitlen][n..];
      data := Shl(data, n);
      bitlen := bitlen - n;
    }

    /** readXC */
    method ReadXC(t: Tables, tab: nat) returns (res: int)
      requires Valid() && tab < 4 && t.Valid() && WellFormed(t.Table(tab))
      modifies this
      ensures Valid()
      ensures match DecodeSymbol(t.Table(tab), Bit(), old(Consumed()))
              case Fail => res == -1 && Consumed() == old(Consumed())
              case Ok(code, next) => res == code && Consumed() == next && 16 <= bitlen
    {
      hide ScanBits, DecodeSymbol, WellFormed, Take, Delivered, ScanByte, OfNat;
      Refill();
      var bitsUsed;
      res, bitsUsed := NextSymbol(t, tab);
      if res == -1 {
        return;
      }
      Drop(bitsUsed);
      Refill();
    }

    /** The symbol at the reservoir's start. */
    method NextSymbol(t: Tables, tab: nat) returns (res: int, bitsUsed: nat)
      requires Valid() && 16 <= bitlen && tab < 4 && t.Valid() && WellFormed(t.Table(tab))
      ensures match DecodeSymbol(t.Table(tab), Bit(), Consumed())
              case Fail => res == -1
              case Ok(code, next) => res == code && next == Consumed() + bitsUsed && bitsUsed <= 16
    {
      ghost var es, s, at: nat := t.Table(tab), Bit(), Consumed();
      hide Valid, ScanBits, DecodeSymbol, WellFormed, At, Code, Hit, Take, Delivered, ScanByte, OfNat;
      forall k | 0 <= k < |es|
        ensures Hit(data, es[k]) <==> At(s, at, Code(es[k]))
      {
        HitIsNext(es, k);
      }
      ShortCode(es, s, at);
      res, bitsUsed := Search(t, tab, s, at);
    }

    /** readXC's search, when hitting an entry means that its code is next in the stream s. */
    method Search(t: Tables, tab: nat, ghost s: Stream, ghost at: nat) returns (res: int, bitsUsed: nat)
      requires tab < 4 && t.Valid()
      requires forall k :: 0 <= k < |t.Table(tab)| ==>
                 (Hit(data, t.Table(tab)[k]) <==> At(s, at, Code(t.Table(tab)[k])))
      ensures match DecodeSymbol(t.Table(tab), s, at)
              case Fail => res == -1
              case Ok(code, next) => res == code && next == at + bitsUsed
    {
      hide DecodeSymbol, Code, Hit, At, FirstMatch;
      ghost var es := t.Table(tab);
      var ind, done := 0, false;
      res, bitsUsed := -1, 0;
      ghost var first := FirstMatch(es, s, at, 0);
      while !done
        invariant 0 <= ind <= |es| && (ind == 0 || ind < |es|)
        invariant first == if done then ind - 1 else FirstMatch(es, s, at, ind)
        invariant if done then ind > 0 && res == es[ind - 1].code && bitsUsed == es[ind - 1].bitlen else res == -1
        decreases |es| - ind, !done
      {
        if Hit(data, t.lookup[tab, ind]) {
          res := t.lookup[tab, ind].code;
          bitsUsed := t.lookup[tab, ind].bitlen;
          done := true;
        }
        if ind < |es| {
          assert es[ind] == t.lookup[tab, ind];
          MatchHere(es, s, at, ind);
        }
        ind := ind + 1;
        if ind >= t.size[tab] {
          SearchFails(es, s, at);
          return -1, 0;
        }
      }
      SearchFinds(es, s, at, ind - 1);
    }

    lemma HitIsNext(es: seq<Entry>, ind: nat)
      requires Valid() && 16 <= bitlen && ind < |es| && WellFormed(es)
      ensures Hit(data, es[ind]) <==> At(Bit(), Consumed(), Code(es[ind]))
    {
      hide OfNat, ByteBits, ScanBits, ScanByte, Delivered, PrefixFree;
      var e := es[ind];
      assert WellFormedEntry(e);
      HitIsCode(data, e);
      TakeSplit(Bit(), Consumed(), e.bitlen, bitlen - e.bitlen);
      assert data[..bitlen][..e.bitlen] == data[..e.bitlen];
    }

    /** The value bits of a coefficient: shift, mask, drop, HUFF_EXTEND. */
    method ReadValue(size: nat) returns (v: int)
      requires Valid() && size <= 16 <= bitlen
      modifies this
      ensures Valid() && Consumed() == old(Consumed()) + size
      ensures v == HuffExtend(Value(Take(Bit(), old(Consumed()), size)), size)
    {
      hide OfNat, ByteBits, ScanBits, ScanByte, Delivered, And, Sar;
      TopBits(data, size);
      TakeSplit(Bit(), Consumed(), size, bitlen - size);
      assert data[..bitlen][..size] == data[..size];
      var x := Value(And(Sar(data, 32 - size), OfNat(MASK[size], 32)));
      Drop(size);
      v := HuffExtend(x, size);
    }
  }

  lemma FirstWord(frame: Memory, p: nat)
    ensures var data := Or(Shl(ByteWord(frame(p)), 24), Shl(ByteWord(frame(p + 1)), 16));
            data[16..] == Zeros(16) && Take(ScanBits(frame, p), 0, 16) == data[..16]
  {
    hide OfNat, ByteBits;
    var b0, b1 := ByteBits(frame(p)), ByteBits(frame(p + 1));
    var data := Or(Shl(ByteWord(frame(p)), 24), Shl(ByteWord(frame(p + 1)), 16));
    assert data == b0 + b1 + Zeros(16);
    TakeByte(frame, p, 0, []);
    TakeByte(frame, p, 1, b0);
    assert data[..16] == [] + b0 + b1;
  }

  /** Once the first n stream bytes end in `loaded`, the next one extends it. */
  lemma TakeByte(frame: Memory, start: nat, n: nat, loaded: Bits)
    requires |loaded| <= 8 * n && Take(ScanBits(frame, start), 8 * n - |loaded|, |loaded|) == loaded
    ensures Take(ScanBits(frame, start), 8 * n - |loaded|, |loaded| + 8)
      == loaded + ByteBits(ScanByte(frame, start, n))
  {
    hide OfNat, ByteBits, ScanByte, ScanBits, Take;
    TakeSplit(ScanBits(frame, start), 8 * n - |loaded|, |loaded|, 8);
    ByteTaken(frame, start, n);
  }

  lemma ByteTaken(frame: Memory, start: nat, n: nat)
    ensures Take(ScanBits(frame, start), 8 * n, 8) == ByteBits(ScanByte(frame, start, n))
  {
    hide OfNat, ByteBits, ScanByte, ScanBits, Take;
    var w, b := Take(ScanBits(frame, start), 8 * n, 8), ByteBits(ScanByte(frame, start, n));
    forall i | 0 <= i < 8
      ensures w[i] == b[i]
    {
      TakeIndex(ScanBits(frame, start), 8 * n, 8, i);
      BitOfByte(frame, start, n, i);
    }
  }

  lemma BitOfByte(frame: Memory, start: nat, n: nat, i: nat)
    requires i < 8
    ensures ScanBits(frame, start)(8 * n + i) == ByteBits(ScanByte(frame, start, n))[i]
  {
    hide OfNat, ByteBits, ScanByte;
    assert (8 * n + i) / 8 == n && (8 * n + i) % 8 == i;
  }

  /** What one pass delivers, and that memory goes on from there. */
  lemma PassStream(frame: Memory, start: nat, p: nat, n: nat)
    requires forall k: nat :: Delivered(frame, p, k) == ScanByte(frame, start, n + k)
    ensures ScanByte(frame, start, n) == frame(p)
    ensures frame(p) == 0xFF ==> ScanByte(frame, start, n + 1) == PassByte(frame, p, 1)
    ensures forall k: nat :: Delivered(frame, PassNext(frame, p), k)
                          == ScanByte(frame, start, n + PassLen(frame, p) + k)
  {
    assert Delivered(frame, p, 0) == ScanByte(frame, start, n + 0);
    assert Delivered(frame, p, 1) == ScanByte(frame, start, n + 1);
    forall k: nat
      ensures Delivered(frame, PassNext(frame, p), k) == ScanByte(frame, start, n + PassLen(frame, p) + k)
    {
      assert Delivered(frame, p, PassLen(frame, p) + k) == ScanByte(frame, start, n + (PassLen(frame, p) + k));
    }
  }

  lemma MatchHere(es: seq<Entry>, s: Stream, p: nat, ind: nat)
    requires ind < |es|
    ensures FirstMatch(es, s, p, ind) == if At(s, p, Code(es[ind])) then ind else FirstMatch(es, s, p, ind + 1)
  {
  }

  lemma SearchFinds(es: seq<Entry>, s: Stream, p: nat, k: nat)
    requires k + 1 < |es| && FirstMatch(es, s, p, 0) == k
    ensures DecodeSymbol(es, s, p) == Ok(es[k].code, p + es[k].bitlen)
  {
  }

  lemma ShortCode(es: seq<Entry>, s: Stream, p: nat)
    requires WellFormed(es)
    ensures DecodeSymbol(es, s, p).Ok? ==> DecodeSymbol(es, s, p).next <= p + 16
  {
    var k := FirstMatch(es, s, p, 0);
    if k < |es| {
      assert WellFormedEntry(es[k]);
    }
  }

  lemma SearchFails(es: seq<Entry>, s: Stream, p: nat)
    requires FirstMatch(es, s, p, 0) >= |es| - 1
    ensures DecodeSymbol(es, s, p) == Fail
  {
  }
}
