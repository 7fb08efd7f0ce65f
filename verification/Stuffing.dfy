/** The bytes the decoder's refill loop takes from memory, and byte stuffing (section F.1.2.3 of
    ITU-T T.81). Memory is total: what follows a frame is whatever the platform has there. */
module Stuffing {
  import opened Words

  type Memory = nat -> Byte

  // ---- one pass of the refill loop at address p ----

  function PassLen(mem: Memory, p: nat): nat { if mem(p) == 0xFF then 2 else 1 }

  function PassByte(mem: Memory, p: nat, i: nat): Byte {
    if i == 0 then mem(p) else if mem(p + 1) == 0 then mem(p + 2) else mem(p + 1)
  }

  function PassNext(mem: Memory, p: nat): nat {
    if mem(p) != 0xFF then p + 1 else if mem(p + 1) == 0 then p + 3 else p + 2
  }

  /** The k-th byte the refill loop delivers from address p on. */
  function Delivered(mem: Memory, p: nat, k: nat): Byte
    decreases k
  {
    if k < PassLen(mem, p) then PassByte(mem, p, k)
    else Delivered(mem, PassNext(mem, p), k - PassLen(mem, p))
  }

  /** The k-th byte of a scan as the decoder sees it: the first two are taken as they are. */
  function ScanByte(mem: Memory, start: nat, k: nat): Byte {
    if k < 2 then mem(start + k) else Delivered(mem, start + 2, k - 2)
  }

  /** The bit stream the decoder works on. */
  function ScanBits(mem: Memory, start: nat): nat -> bool {
    (i: nat) => ByteBits(ScanByte(mem, start, i / 8))[i % 8]
  }

  // ---- finite scans ----

  function Stuff(t: seq<Byte>): seq<Byte> {
    if t == [] then [] else (if t[0] == 0xFF then [0xFF, 0] else [t[0]]) + Stuff(t[1..])
  }

  ghost predicate Holds(mem: Memory, p: nat, s: seq<Byte>) {
    forall i :: 0 <= i < |s| ==> mem(p + i) == s[i]
  }

  // ---- which scans are read back ----

  /** An FF byte whose stuffing the decoder does not take out: one of the first two bytes, or one that
      follows another FF. */
  predicate Unexamined(t: seq<Byte>, i: nat)
    requires i < |t|
  {
    t[i] == 0xFF && (i < 2 || t[i - 1] == 0xFF)
  }

  predicate ZerosFrom(t: seq<Byte>, i: nat) { forall k :: i <= k < |t| ==> t[k] == 0 }

  /** Only zero bytes follow an FF whose stuffing stays in. */
  predicate Readable(t: seq<Byte>) { forall i :: 0 <= i < |t| && Unexamined(t, i) ==> ZerosFrom(t, i + 1) }

  /** The scan bytes t come out, one by one. */
  ghost predicate ReadsBack(mem: Memory, start: nat, t: seq<Byte>) {
    forall k :: 0 <= k < |t| ==> ScanByte(mem, start, k) == t[k]
  }

  ghost predicate Delivers(mem: Memory, p: nat, u: seq<Byte>) {
    forall k :: 0 <= k < |u| ==> Delivered(mem, p, k) == u[k]
  }

  lemma StuffCons(b: Byte, t: seq<Byte>)
    ensures Stuff([b] + t) == (if b == 0xFF then [0xFF, 0] else [b]) + Stuff(t)
  {
    assert ([b] + t)[1..] == t;
  }

  lemma HoldsConcat(mem: Memory, p: nat, a: seq<Byte>, b: seq<Byte>)
    ensures Holds(mem, p, a + b) <==> Holds(mem, p, a) && Holds(mem, p + |a|, b)
  {
    if Holds(mem, p, a + b) {
      forall i | 0 <= i < |b|
        ensures mem(p + |a| + i) == b[i]
      {
        assert mem(p + (|a| + i)) == (a + b)[|a| + i];
      }
      assert forall i :: 0 <= i < |a| ==> (a + b)[i] == a[i];
    }
  }

  /** After the first pass, delivery goes on behind it. */
  lemma DeliversCons(mem: Memory, p: nat, a: seq<Byte>, u: seq<Byte>)
    requires |a| == PassLen(mem, p)
    ensures Delivers(mem, p, a + u) <==>
            (forall i :: 0 <= i < |a| ==> PassByte(mem, p, i) == a[i]) && Delivers(mem, PassNext(mem, p), u)
  {
    var n := |a|;
    if Delivers(mem, p, a + u) {
      forall i | 0 <= i < n
        ensures PassByte(mem, p, i) == a[i]
      {
        assert Delivered(mem, p, i) == (a + u)[i];
      }
      forall k | 0 <= k < |u|
        ensures Delivered(mem, PassNext(mem, p), k) == u[k]
      {
        assert Delivered(mem, p, n + k) == (a + u)[n + k];
      }
    }
  }

  /** A stuffing zero that is taken for a byte shifts what follows by one; nothing is wrong exactly as
      long as only zeros follow. */
  lemma {:induction false} ShiftedByOne(mem: Memory, p: nat, u: seq<Byte>)
    requires Holds(mem, p, [0] + Stuff(u))
    ensures Delivers(mem, p, u) <==> ZerosFrom(u, 0)
    decreases |u|
  {
    assert mem(p + 0) == ([0] + Stuff(u))[0] == 0;
    if u != [] {
      var v := u[1..];
      assert u == [u[0]] + v;
      DeliversCons(mem, p, [u[0]], v);
      if u[0] == 0 {
        HoldsConcat(mem, p, [0], Stuff(u));
        StuffCons(0, v);
        ShiftedByOne(mem, p + 1, v);
        assert ZerosFrom(u, 0) <==> ZerosFrom(v, 0);
      }
    }
  }

  /** Only zeros follow the second of two adjacent FF bytes. */
  predicate PairsReadable(u: seq<Byte>) {
    forall i :: 0 < i < |u| && u[i] == 0xFF && u[i - 1] == 0xFF ==> ZerosFrom(u, i + 1)
  }

  /** What comes before n has no adjacent FF bytes, and none with u[n]. */
  lemma PairsTail(u: seq<Byte>, n: nat)
    requires n <= |u| && forall i :: 0 < i <= n && i < |u| ==> u[i] != 0xFF || u[i - 1] != 0xFF
    ensures PairsReadable(u) <==> PairsReadable(u[n..])
  {
    var v := u[n..];
    if PairsReadable(v) {
      forall i | 0 < i < |u| && u[i] == 0xFF && u[i - 1] == 0xFF
        ensures ZerosFrom(u, i + 1)
      {
        assert v[i - n] == 0xFF && v[i - n - 1] == 0xFF && ZerosFrom(v, i - n + 1);
        assert forall k :: i + 1 <= k < |u| ==> u[k] == v[k - n];
      }
    }
    if PairsReadable(u) {
      forall i | 0 < i < |v| && v[i] == 0xFF && v[i - 1] == 0xFF
        ensures ZerosFrom(v, i + 1)
      {
        assert u[n + i] == 0xFF && u[n + i - 1] == 0xFF && ZerosFrom(u, n + i + 1);
      }
    }
  }

  /** From the third byte on. */
  lemma {:induction false} DeliversStuffed(mem: Memory, p: nat, u: seq<Byte>)
    requires Holds(mem, p, Stuff(u))
    ensures Delivers(mem, p, u) <==> PairsReadable(u)
    decreases |u|
  {
    if u == [] {
    } else if u[0] != 0xFF {
      var v := u[1..];
      assert u == [u[0]] + v;
      StuffCons(u[0], v);
      HoldsConcat(mem, p, [u[0]], Stuff(v));
      assert mem(p + 0) == u[0];
      DeliversCons(mem, p, [u[0]], v);
      DeliversStuffed(mem, p + 1, v);
      PairsTail(u, 1);
    } else if |u| == 1 {
      StuffCons(0xFF, []);
      assert u == [0xFF] + [];
      assert mem(p + 0) == ([0xFF, 0] + Stuff([]))[0] == 0xFF;
    } else {
      var x, v := u[1], u[2..];
      assert u == [0xFF, x] + v && u == [0xFF] + ([x] + v);
      StuffCons(0xFF, [x] + v);
      StuffCons(x, v);
      FirstPair(mem, p, x, Stuff(v));
      DeliversCons(mem, p, [0xFF, x], v);
      if x == 0xFF {
        ShiftedByOne(mem, p + 3, v);
        assert ZerosFrom(v, 0) <==> ZerosFrom(u, 2) by {
          assert forall k :: 0 <= k < |v| ==> v[k] == u[k + 2];
        }
        assert u[1] == u[0] == 0xFF;
      } else {
        DeliversStuffed(mem, p + 3, v);
        PairsTail(u, 2);
      }
    }
  }

  /** One pass over FF 00 and the byte x behind it. */
  lemma FirstPair(mem: Memory, p: nat, x: Byte, rest: seq<Byte>)
    requires Holds(mem, p, [0xFF, 0] + ((if x == 0xFF then [0xFF, 0] else [x]) + rest))
    ensures PassLen(mem, p) == 2 && PassNext(mem, p) == p + 3
    ensures PassByte(mem, p, 0) == 0xFF && PassByte(mem, p, 1) == x
    ensures if x == 0xFF then Holds(mem, p + 3, [0] + rest) else Holds(mem, p + 3, rest)
  {
    var s := [0xFF, 0] + ((if x == 0xFF then [0xFF, 0] else [x]) + rest);
    assert mem(p + 0) == s[0] && mem(p + 1) == s[1] && mem(p + 2) == s[2];
    if x == 0xFF {
      assert s == [0xFF, 0, 0xFF] + ([0] + rest);
      HoldsConcat(mem, p, [0xFF, 0, 0xFF], [0] + rest);
    } else {
      assert s == [0xFF, 0, x] + rest;
      HoldsConcat(mem, p, [0xFF, 0, x], rest);
    }
  }

  lemma FirstTwo(mem: Memory, start: nat, t: seq<Byte>)
    requires |t| >= 2
    ensures ReadsBack(mem, start, t) <==>
            mem(start) == t[0] && mem(start + 1) == t[1] && Delivers(mem, start + 2, t[2..])
  {
    hide Delivered;
    if ReadsBack(mem, start, t) {
      assert ScanByte(mem, start, 0) == t[0] && ScanByte(mem, start, 1) == t[1];
      forall k | 0 <= k < |t[2..]|
        ensures Delivered(mem, start + 2, k) == t[2..][k]
      {
        assert ScanByte(mem, start, k + 2) == t[k + 2];
      }
    }
  }

  lemma TwoBytes(mem: Memory, p: nat, a: Byte, b: Byte)
    requires Holds(mem, p, [a, b])
    ensures mem(p) == a && mem(p + 1) == b
  {
    assert mem(p + 0) == [a, b][0] && mem(p + 1) == [a, b][1];
  }

  lemma FirstByteFF(mem: Memory, start: nat, t: seq<Byte>)
    requires |t| >= 2 && t[0] == 0xFF && Holds(mem, start, [0xFF, 0] + Stuff(t[1..]))
    ensures ReadsBack(mem, start, t) <==> ZerosFrom(t, 1)
  {
    hide Delivers, Stuff;
    var u, v := t[1..], t[2..];
    FirstTwo(mem, start, t);
    HoldsConcat(mem, start, [0xFF, 0], Stuff(u));
    TwoBytes(mem, start, 0xFF, 0);
    if u[0] == 0 {
      assert u == [0] + v;
      StuffCons(0, v);
      ShiftedByOne(mem, start + 2, v);
      assert ZerosFrom(v, 0) <==> ZerosFrom(t, 1) by {
        assert forall k :: 0 <= k < |v| ==> v[k] == t[k + 2];
      }
    }
  }

  lemma SecondByteFF(mem: Memory, start: nat, t: seq<Byte>)
    requires |t| >= 2 && t[0] != 0xFF && t[1] == 0xFF && Holds(mem, start, [t[0], 0xFF, 0] + Stuff(t[2..]))
    ensures ReadsBack(mem, start, t) <==> ZerosFrom(t, 2)
  {
    hide Delivers, Stuff;
    var v := t[2..];
    FirstTwo(mem, start, t);
    assert [t[0], 0xFF, 0] + Stuff(v) == [t[0], 0xFF] + ([0] + Stuff(v));
    HoldsConcat(mem, start, [t[0], 0xFF], [0] + Stuff(v));
    TwoBytes(mem, start, t[0], 0xFF);
    ShiftedByOne(mem, start + 2, v);
    assert ZerosFrom(v, 0) <==> ZerosFrom(t, 2) by {
      assert forall k :: 0 <= k < |v| ==> v[k] == t[k + 2];
    }
  }

  lemma NoEarlyFF(mem: Memory, start: nat, t: seq<Byte>)
    requires |t| >= 2 && t[0] != 0xFF && t[1] != 0xFF && Holds(mem, start, [t[0], t[1]] + Stuff(t[2..]))
    ensures ReadsBack(mem, start, t) <==> PairsReadable(t)
  {
    hide Delivers, Stuff, PairsReadable;
    FirstTwo(mem, start, t);
    HoldsConcat(mem, start, [t[0], t[1]], Stuff(t[2..]));
    TwoBytes(mem, start, t[0], t[1]);
    DeliversStuffed(mem, start + 2, t[2..]);
    PairsTail(t, 2);
  }

  lemma Regrouped(a: seq<Byte>, b: seq<Byte>, c: seq<Byte>)
    ensures a + (b + c) == (a + b) + c
  {
  }

  lemma StuffTwo(x: Byte, y: Byte, v: seq<Byte>)
    ensures Stuff([x, y] + v) == if x == 0xFF then [0xFF, 0] + Stuff([y] + v)
                                 else if y == 0xFF then [x, 0xFF, 0] + Stuff(v)
                                 else [x, y] + Stuff(v)
  {
    hide Stuff;
    assert [x, y] + v == [x] + ([y] + v);
    StuffCons(x, [y] + v);
    if x != 0xFF {
      StuffCons(y, v);
      Regrouped([x], if y == 0xFF then [0xFF, 0] else [y], Stuff(v));
    }
  }

  /** The decoder reads a stuffed scan back exactly when only zero bytes follow any FF among the first two
      bytes or next behind another FF, whatever stands behind the scan; T.81 promises it for all scans. */
  lemma ReadsStuffedScan(mem: Memory, start: nat, t: seq<Byte>)
    requires Holds(mem, start, Stuff(t))
    ensures ReadsBack(mem, start, t) <==> Readable(t)
  {
    hide Holds, Delivered, Stuff;
    if |t| < 2 {
      OneByte(mem, start, t);
    } else {
      assert t == [t[0], t[1]] + t[2..] && t[1..] == [t[1]] + t[2..];
      StuffTwo(t[0], t[1], t[2..]);
      if t[0] == 0xFF {
        FirstByteFF(mem, start, t);
        assert Unexamined(t, 0);
      } else if t[1] == 0xFF {
        SecondByteFF(mem, start, t);
        assert Unexamined(t, 1);
      } else {
        NoEarlyFF(mem, start, t);
        forall i | 0 <= i < |t|
          ensures Unexamined(t, i) <==> i > 0 && t[i] == 0xFF && t[i - 1] == 0xFF
        {
        }
      }
    }
  }

  lemma OneByte(mem: Memory, start: nat, t: seq<Byte>)
    requires |t| < 2 && Holds(mem, start, Stuff(t))
    ensures ReadsBack(mem, start, t) && Readable(t)
  {
    if |t| == 1 {
      assert t == [t[0]] + [];
      StuffCons(t[0], []);
      assert mem(start + 0) == Stuff(t)[0];
    }
  }

  /** A scan that T.81 allows and the decoder misreads: 01 02 FF FF 01 comes out as 01 02 FF FF 00. */
  lemma MisreadScan(mem: Memory, start: nat)
    requires Holds(mem, start, Stuff([1, 2, 0xFF, 0xFF, 1]))
    ensures ReadsBack(mem, start, [1, 2, 0xFF, 0xFF, 0]) && !ReadsBack(mem, start, [1, 2, 0xFF, 0xFF, 1])
  {
    hide Delivers, Stuff, Holds;
    var t: seq<Byte>, u: seq<Byte> := [1, 2, 0xFF, 0xFF, 1], [0xFF, 0xFF, 1];
    assert t == [1, 2] + u;
    StuffTwo(1, 2, u);
    HoldsConcat(mem, start, [1, 2], Stuff(u));
    TwoBytes(mem, start, 1, 2);
    assert u == [0xFF] + ([0xFF] + [1]);
    StuffCons(0xFF, [0xFF] + [1]);
    StuffCons(0xFF, [1]);
    FirstPair(mem, start + 2, 0xFF, Stuff([1]));
    DeliversCons(mem, start + 2, [0xFF, 0xFF], [0]);
    FirstZero(mem, start + 5, Stuff([1]));
    FirstTwo(mem, start, [1, 2, 0xFF, 0xFF, 0]);
    assert [0xFF, 0xFF] + [0] == [1, 2, 0xFF, 0xFF, 0][2..];
    assert ZerosFrom(t, 4) <==> false by { assert t[4] == 1; }
    assert Unexamined(t, 3);
    ReadsStuffedScan(mem, start, t);
  }

  lemma FirstZero(mem: Memory, p: nat, rest: seq<Byte>)
    requires Holds(mem, p, [0] + rest)
    ensures Delivers(mem, p, [0])
  {
    assert mem(p + 0) == ([0] + rest)[0] == 0;
  }
}
