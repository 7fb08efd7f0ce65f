/** Bytes and 32-bit words. A word is the sequence of its bits, most significant first, so that
    C's |, & and shifts are exact operations on sequences; Value and OfNat relate words to numbers. */
module Words {

  type Byte = b: int | 0 <= b < 256

  type Bits = seq<bool>

  /** The byte of a character; only Latin characters occur. */
  function ByteOf(c: char): Byte { if c as int < 256 then c as int else 63 }

  /** The bytes of a text. */
  function Text(s: string): (t: seq<Byte>)
    ensures |t| == |s|
  {
    seq(|s|, i requires 0 <= i < |s| => ByteOf(s[i]))
  }

  /** The number a text of digits shows. */
  function Number(t: seq<Byte>): int {
    if t == [] then 0 else 10 * Number(t[..|t| - 1]) + t[|t| - 1] - 48
  }

  type Word = w: Bits | |w| == 32 witness seq(32, _ => false)

  /** A C string of n bytes: up to its terminator. */
  ghost predicate IsText(a: seq<Byte>, n: nat) {
    n < |a| && a[n] == 0 && forall i :: 0 <= i < n ==> a[i] != 0
  }

  function Abs(v: int): nat { if v < 0 then -v else v }

  function Pow2(n: nat): (r: nat)
    ensures r >= 1
  {
    if n == 0 then 1 else 2 * Pow2(n - 1)
  }

  /** c << n as a number, before it is cut to any width. */
  function Shifted(c: nat, n: nat): nat {
    if n == 0 then c else 2 * Shifted(c, n - 1)
  }

  lemma {:induction false} ShiftedPow2(a: nat, n: nat)
    ensures Shifted(Pow2(a), n) == Pow2(a + n)
  {
    if n > 0 {
      ShiftedPow2(a, n - 1);
    }
  }

  lemma {:induction false} ShiftedAgain(c: nat, m: nat, n: nat)
    ensures Shifted(Shifted(c, m), n) == Shifted(c, m + n)
  {
    if n > 0 {
      ShiftedAgain(c, m, n - 1);
    }
  }

  lemma {:induction false} ShiftedNext(c: nat, n: nat)
    ensures Shifted(c + 1, n) == Shifted(c, n) + Pow2(n)
  {
    if n > 0 {
      ShiftedNext(c, n - 1);
    }
  }

  lemma {:induction false} ShiftedZero(n: nat)
    ensures Shifted(0, n) == 0
  {
    if n > 0 {
      ShiftedZero(n - 1);
    }
  }

  lemma {:induction false} ShiftedMono(c: nat, d: nat, n: nat)
    requires c < d
    ensures Shifted(c, n) + Pow2(n) <= Shifted(d, n)
  {
    if n > 0 {
      ShiftedMono(c, d, n - 1);
    }
  }

  lemma {:induction false} Pow2Mono(a: nat, b: nat)
    requires a <= b
    ensures Pow2(a) <= Pow2(b)
    decreases b - a
  {
    if a < b {
      Pow2Mono(a + 1, b);
    }
  }

  function Zeros(n: nat): Bits { seq(n, _ => false) }

  function Ones(n: nat): Bits { seq(n, _ => true) }

  function BoolBit(b: bool): nat { if b then 1 else 0 }

  /** The number a bit string denotes. */
  function Value(w: Bits): (r: nat)
    ensures r < Pow2(|w|)
  {
    if w == [] then 0 else 2 * Value(w[..|w| - 1]) + BoolBit(w[|w| - 1])
  }

  /** The low `len` bits of n: what a C integer of that width keeps of n. */
  function OfNat(n: nat, len: nat): (w: Bits)
    ensures |w| == len
    decreases len, n
  {
    if len == 0 then [] else OfNat(n / 2, len - 1) + [n % 2 == 1]
  }

  function ByteBits(b: Byte): (w: Bits)
    ensures |w| == 8
  {
    OfNat(b, 8)
  }

  /** C's (unsigned char) promoted to a 32-bit integer. */
  function ByteWord(b: Byte): Word { Zeros(24) + ByteBits(b) }

  function Or(x: Word, y: Word): Word { seq(32, i requires 0 <= i < 32 => x[i] || y[i]) }

  function And(x: Word, y: Word): Word { seq(32, i requires 0 <= i < 32 => x[i] && y[i]) }

  function Shl(x: Word, n: nat): Word
    requires n <= 32
  {
    x[n..] + Zeros(n)
  }

  /** C's >> on a signed 32-bit integer: copies of the sign bit come in. */
  function Sar(x: Word, n: nat): Word
    requires n <= 32
  {
    seq(n, _ => x[0]) + x[..32 - n]
  }

  lemma {:induction false} ValueOfNat(n: nat, len: nat)
    requires n < Pow2(len)
    ensures Value(OfNat(n, len)) == n
    decreases len
  {
    if len > 0 {
      ValueOfNat(n / 2, len - 1);
      assert OfNat(n, len)[..len - 1] == OfNat(n / 2, len - 1);
    }
  }

  lemma {:induction false} OfNatValue(w: Bits)
    ensures OfNat(Value(w), |w|) == w
    decreases |w|
  {
    if w != [] {
      OfNatValue(w[..|w| - 1]);
      assert w == w[..|w| - 1] + [w[|w| - 1]];
    }
  }

  lemma {:induction false} ValueConcat(a: Bits, b: Bits)
    ensures Value(a + b) == Shifted(Value(a), |b|) + Value(b)
    decreases |b|
  {
    if b == [] {
      assert a + b == a;
    } else {
      ValueConcat(a, b[..|b| - 1]);
      assert (a + b)[..|a + b| - 1] == a + b[..|b| - 1];
      assert (a + b)[|a + b| - 1] == b[|b| - 1];
    }
  }

  lemma {:induction false} ValueZeros(n: nat)
    ensures Value(Zeros(n)) == 0
  {
    if n > 0 {
      ValueZeros(n - 1);
      assert Zeros(n)[..n - 1] == Zeros(n - 1);
    }
  }

  /** Leading zeros do not change a value. */
  lemma ValueZeroExtend(n: nat, w: Bits)
    ensures Value(Zeros(n) + w) == Value(w)
  {
    ValueZeros(n);
    ValueConcat(Zeros(n), w);
    ShiftedZero(|w|);
  }

  lemma {:induction false} OfNatOnes(len: nat)
    ensures OfNat(Pow2(len) - 1, len) == Ones(len)
  {
    if len > 0 {
      OfNatOnes(len - 1);
      assert (Pow2(len) - 1) / 2 == Pow2(len - 1) - 1;
      assert Ones(len) == Ones(len - 1) + [true];
    }
  }

  /** Widening an OfNat that already holds the number only adds zeros. */
  lemma {:induction false} OfNatWiden(n: nat, len: nat, more: nat)
    requires n < Pow2(len)
    ensures OfNat(n, more + len) == Zeros(more) + OfNat(n, len)
    decreases len
  {
    if len == 0 {
      ZeroBits(more);
      assert Zeros(more) + [] == Zeros(more);
    } else {
      OfNatWiden(n / 2, len - 1, more);
    }
  }

  lemma {:induction false} ZeroBits(len: nat)
    ensures OfNat(0, len) == Zeros(len)
  {
    if len > 0 {
      ZeroBits(len - 1);
      assert Zeros(len) == Zeros(len - 1) + [false];
    }
  }

  lemma {:induction false} OfNatShifted(n: nat, len: nat, m: nat)
    ensures OfNat(Shifted(n, m), len + m) == OfNat(n, len) + Zeros(m)
    decreases m
  {
    if m == 0 {
      assert OfNat(n, len) + Zeros(0) == OfNat(n, len);
    } else {
      OfNatShifted(n, len, m - 1);
      assert Zeros(m) == Zeros(m - 1) + [false];
    }
  }

  const WORD_COUNT: nat := 0x1_0000_0000

  lemma Pow2Of32()
    ensures Pow2(32) == WORD_COUNT
  {
    assert Pow2(8) == 256;
    assert Pow2(16) == 256 * Pow2(8) by { Times256(8); }
    assert Pow2(24) == 256 * Pow2(16) by { Times256(16); }
    Times256(24);
  }

  lemma Times256(n: nat)
    ensures Pow2(n + 8) == 256 * Pow2(n)
  {
    assert Pow2(n + 8) == 2 * Pow2(n + 7) == 4 * Pow2(n + 6) == 8 * Pow2(n + 5) == 16 * Pow2(n + 4);
    assert Pow2(n + 4) == 2 * Pow2(n + 3) == 4 * Pow2(n + 2) == 8 * Pow2(n + 1) == 16 * Pow2(n);
  }

  lemma WordCount(len: nat)
    requires len <= 32
    ensures Shifted(Pow2(len), 32 - len) == WORD_COUNT
  {
    ShiftedPow2(len, 32 - len);
    Pow2Of32();
  }
}
