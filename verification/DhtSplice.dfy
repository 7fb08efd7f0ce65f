/** is_huffman and memcpy_picture: a frame without Huffman tables gets the standard ones. The scans
    do not stop at the end of the frame, so the frame is read as part of a larger memory. */
module DhtSplice {
  import opened Words
  import opened Stuffing
  import opened StandardTables

  const DHT := 0xffc4
  const SOF := 0xffc0
  const SOS := 0xffda

  function Pair(mem: Memory, p: nat): nat { mem(p) * 256 + mem(p + 1) }

  function Window(mem: Memory, from: nat, to: nat): (s: seq<Byte>)
    requires from <= to
    ensures |s| == to - from
    ensures forall i :: 0 <= i < to - from ==> s[i] == mem(from + i)
  {
    seq(to - from, i requires 0 <= i => mem(from + i))
  }

  ghost predicate NoneBefore(mem: Memory, marker: nat, p: nat) { forall q :: 0 <= q < p ==> Pair(mem, q) != marker }

  /** A DHT marker stands at one of the first 2049 offsets, and no SOS before it. */
  ghost predicate HasTable(mem: Memory) {
    exists p :: 0 <= p <= 2048 && Pair(mem, p) == DHT && NoneBefore(mem, SOS, p)
  }

  ghost predicate TableAt(mem: Memory, p: nat) {
    mem(p) == 0xff && mem(p + 1) == 0xc4 && forall q :: 0 <= q < p ==> mem(q) != 0xff || mem(q + 1) != 0xda
  }

  /** In bytes: FF C4 at one of these offsets, and FF DA nowhere before. */
  lemma TableInBytes(mem: Memory)
    ensures HasTable(mem) <==> exists p :: 0 <= p <= 2048 && TableAt(mem, p)
  {
    forall p: nat
      ensures Pair(mem, p) == DHT && NoneBefore(mem, SOS, p) <==> TableAt(mem, p)
    {
      PairInBytes(mem, p, 0xff, 0xc4);
      forall q | 0 <= q < p
        ensures Pair(mem, q) == SOS <==> mem(q) == 0xff && mem(q + 1) == 0xda
      {
        PairInBytes(mem, q, 0xff, 0xda);
      }
    }
  }

  lemma PairInBytes(mem: Memory, p: nat, a: Byte, b: Byte)
    ensures Pair(mem, p) == a * 256 + b <==> mem(p) == a && mem(p + 1) == b
  {
  }

  method IsHuffman(mem: Memory) returns (rc: bool)
    ensures rc <==> HasTable(mem)
  {
    var i := 0;
    while Pair(mem, i) != SOS
      invariant 0 <= i <= 2049 && NoneBefore(mem, SOS, i) && NoneBefore(mem, DHT, i)
      decreases 2049 - i
    {
      if i > 2048 {
        return false;
      }
      if Pair(mem, i) == DHT {
        return true;
      }
      i := i + 1;
    }
    return false;
  }

  /** The offset of the first SOF0 marker from p on, `size` when there is none before it. */
  function Cut(mem: Memory, p: nat, size: nat): (c: nat)
    requires p <= size
    ensures p <= c <= size && (c < size ==> Pair(mem, c) == SOF)
    ensures forall q :: p <= q < c ==> Pair(mem, q) != SOF
    decreases size - p
  {
    if p >= size || Pair(mem, p) == SOF then p else Cut(mem, p + 1, size)
  }

  /** In bytes: the first FF C0. */
  lemma CutInBytes(mem: Memory, size: nat)
    ensures var c := Cut(mem, 0, size);
            && (c < size ==> mem(c) == 0xff && mem(c + 1) == 0xc0)
            && forall q :: 0 <= q < c ==> mem(q) != 0xff || mem(q + 1) != 0xc0
  {
    forall q | 0 <= q
      ensures Pair(mem, q) == SOF <==> mem(q) == 0xff && mem(q + 1) == 0xc0
    {
      PairInBytes(mem, q, 0xff, 0xc0);
    }
  }

  function Spliced(mem: Memory, c: nat, size: nat): seq<Byte>
    requires c <= size
  {
    Window(mem, 0, c) + DhtData() + Window(mem, c, size)
  }

  /** What memcpy_picture writes. */
  ghost function Picture(mem: Memory, size: nat): seq<Byte> {
    if HasTable(mem) then Window(mem, 0, size)
    else if Cut(mem, 0, size) == size then []
    else Spliced(mem, Cut(mem, 0, size), size)
  }

  /** memcpy at pos; pos moves behind the copy. */
  method Append(out: array<Byte>, pos: nat, s: seq<Byte>) returns (next: nat)
    requires pos + |s| <= out.Length
    modifies out
    ensures next == pos + |s|
    ensures out[..next] == old(out[..pos]) + s && out[next..] == old(out[next..])
  {
    next := pos + |s|;
    forall i | 0 <= i < |s| {
      out[pos + i] := s[i];
    }
  }

  method MemcpyPicture(out: array<Byte>, mem: Memory, size: nat) returns (pos: nat)
    requires size + 420 <= out.Length
    modifies out
    ensures pos <= out.Length && out[..pos] == Picture(mem, size) && out[pos..] == old(out[pos..])
  {
    hide HasTable, DhtData, Window;
    DhtDataShape();
    pos := 0;
    var has := IsHuffman(mem);
    if !has {
      var cur := 0;
      while Pair(mem, cur) != SOF && cur < size
        invariant cur <= size && Cut(mem, cur, size) == Cut(mem, 0, size)
        decreases size - cur
      {
        cur := cur + 1;
      }
      if cur >= size {
        return;
      }
      pos := AppendSpliced(out, mem, cur, size);
    } else {
      pos := Append(out, pos, Window(mem, 0, size));
      assert out[..pos] == Window(mem, 0, size);
    }
  }

  method AppendSpliced(out: array<Byte>, mem: Memory, cur: nat, size: nat) returns (pos: nat)
    requires cur <= size && size + 420 <= out.Length
    modifies out
    ensures pos <= out.Length && out[..pos] == Spliced(mem, cur, size) && out[pos..] == old(out[pos..])
  {
    hide DhtData;
    DhtDataShape();
    ghost var was := out[..];
    pos := Append(out, 0, Window(mem, 0, cur));
    assert out[pos + 420..] == was[pos + 420..];
    pos := Append(out, pos, DhtData());
    assert out[pos + size - cur..] == out[pos..][size - cur..] == was[pos + size - cur..];
    pos := Append(out, pos, Window(mem, cur, size));
  }

  /** The length tells what happened, and taking the 420 bytes at the cut out again restores the frame. */
  lemma RemoveTable(mem: Memory, size: nat)
    requires !HasTable(mem) && Cut(mem, 0, size) < size
    ensures var s, c := Picture(mem, size), Cut(mem, 0, size);
            && |s| == size + 420 && s[c..c + 420] == DhtData()
            && s[..c] + s[c + 420..] == Window(mem, 0, size)
  {
    hide DhtData, Cut;
    DhtDataShape();
    var c := Cut(mem, 0, size);
    var a, t, b := Window(mem, 0, c), DhtData(), Window(mem, c, size);
    var s := a + t + b;
    assert s[..c] == a && s[c..c + 420] == t && s[c + 420..] == b;
    assert a + b == Window(mem, 0, size);
  }

  /** m holds the picture of a frame that had no table. */
  ghost predicate Rewritten(mem: Memory, size: nat, m: Memory) {
    !HasTable(mem) && Cut(mem, 0, size) < size && Holds(m, 0, Picture(mem, size))
  }

  /** Before the cut the pairs are the frame's; from the cut on the table's pairs stand. */
  lemma PairsOfRewritten(mem: Memory, size: nat, m: Memory)
    requires Rewritten(mem, size, m)
    ensures var c := Cut(mem, 0, size);
            && (forall q :: 0 <= q < c ==> Pair(m, q) == Pair(mem, q))
            && Pair(m, c) == DHT
            && (forall q :: c < q < c + 420 ==> m(q) != 0xff)
            && (forall q :: c <= q < size ==> m(q + 420) == mem(q))
  {
    hide DhtData, Cut;
    DhtDataShape();
    var c := Cut(mem, 0, size);
    var s := Spliced(mem, c, size);
    assert s[c] == 0xff && s[c + 1] == 0xc4;
    assert mem(c) == 0xff;
    forall q | 0 <= q < c
      ensures Pair(m, q) == Pair(mem, q)
    {
      assert m(q) == s[q] && m(q + 1) == s[q + 1];
    }
    forall q | c < q < c + 420
      ensures m(q) != 0xff
    {
      assert m(q) == s[q] == DhtData()[q - c];
    }
    forall q | c <= q < size
      ensures m(q + 420) == mem(q)
    {
      assert m(q + 420) == s[q + 420];
    }
  }

  /** The table is found again exactly when it begins within the scan's reach. */
  lemma TableFoundAgain(mem: Memory, size: nat, m: Memory)
    requires Rewritten(mem, size, m)
    ensures var c := Cut(mem, 0, size); HasTable(m) <==> c <= 2048 && NoneBefore(mem, SOS, c)
  {
    hide Cut, Holds, Picture;
    PairsOfRewritten(mem, size, m);
    var c := Cut(mem, 0, size);
    if HasTable(m) {
      var p :| 0 <= p <= 2048 && Pair(m, p) == DHT && NoneBefore(m, SOS, p);
      if p < c {
        assert false;
      }
      forall q | 0 <= q < c
        ensures Pair(mem, q) != SOS
      {
        assert Pair(m, q) == Pair(mem, q);
      }
    }
    if c <= 2048 && NoneBefore(mem, SOS, c) {
      assert NoneBefore(m, SOS, c);
    }
  }

  /** Rewriting a rewritten frame changes nothing exactly when the cut is at most 2048 and no SOS is
      before it. */
  lemma Idempotent(mem: Memory, size: nat, m: Memory)
    requires Rewritten(mem, size, m)
    ensures var c := Cut(mem, 0, size);
            Picture(m, size + 420) == Picture(mem, size) <==> c <= 2048 && NoneBefore(mem, SOS, c)
  {
    hide Cut, DhtData, HasTable;
    TableFoundAgain(mem, size, m);
    RemoveTable(mem, size);
    DhtDataShape();
    if HasTable(m) {
      assert Window(m, 0, size + 420) == Picture(mem, size);
    }
  }

  /** Otherwise a second table goes in, behind the first. */
  lemma SecondTable(mem: Memory, size: nat, m: Memory)
    requires Rewritten(mem, size, m) && Cut(mem, 0, size) + 1 < size && !HasTable(m)
    ensures var c := Cut(mem, 0, size);
            Picture(m, size + 420) == Window(mem, 0, c) + DhtData() + DhtData() + Window(mem, c, size)
  {
    hide Cut, DhtData, HasTable;
    PairsOfRewritten(mem, size, m);
    DhtDataShape();
    var c, s := Cut(mem, 0, size), Picture(mem, size);
    CutIsFirst(m, c + 420, size + 420);
    assert Window(m, 0, c + 420) == s[..c + 420] == Window(mem, 0, c) + DhtData();
    assert Window(m, c + 420, size + 420) == s[c + 420..] == Window(mem, c, size);
  }

  lemma CutIsFirst(mem: Memory, c: nat, size: nat)
    requires c < size && Pair(mem, c) == SOF && NoneBefore(mem, SOF, c)
    ensures Cut(mem, 0, size) == c
  {
  }

  /** A frame with its table inside itself is not changed, by this call or a later one. */
  lemma OwnTableKept(mem: Memory, size: nat, m: Memory, p: nat)
    requires p <= 2048 && p + 1 < size && Pair(mem, p) == DHT && NoneBefore(mem, SOS, p)
    requires Holds(m, 0, Picture(mem, size))
    ensures Picture(mem, size) == Window(mem, 0, size) == Picture(m, size)
  {
    assert HasTable(mem);
    forall q | 0 <= q <= p
      ensures Pair(m, q) == Pair(mem, q)
    {
      assert m(0 + q) == Window(mem, 0, size)[q] && m(0 + (q + 1)) == Window(mem, 0, size)[q + 1];
    }
    assert Pair(m, p) == DHT && NoneBefore(m, SOS, p);
    assert Window(m, 0, size) == Window(mem, 0, size);
  }

  /** A frame of 2053 bytes without any marker but an SOF0 at offset 2049. */
  function LateFrame(): Memory { p => if p == 2049 then 0xff else if p == 2050 then 0xc0 else 0 }

  lemma LateMarkers(p: nat)
    ensures Pair(LateFrame(), p) == SOF <==> p == 2049
    ensures Pair(LateFrame(), p) != DHT && Pair(LateFrame(), p) != SOS
  {
  }

  /** It is given the table, and given it again. */
  lemma TwoTables(m: Memory)
    requires Holds(m, 0, Picture(LateFrame(), 2053))
    ensures Picture(m, 2473) ==
            Window(LateFrame(), 0, 2049) + DhtData() + DhtData() + Window(LateFrame(), 2049, 2053)
  {
    hide DhtData, Pair, LateFrame, Window, Picture, Holds;
    forall p: nat
      ensures Pair(LateFrame(), p) == SOF <==> p == 2049
      ensures Pair(LateFrame(), p) != DHT && Pair(LateFrame(), p) != SOS
    {
      LateMarkers(p);
    }
    CutIsFirst(LateFrame(), 2049, 2053);
    assert !HasTable(LateFrame());
    TableFoundAgain(LateFrame(), 2053, m);
    SecondTable(LateFrame(), 2053, m);
  }
}
