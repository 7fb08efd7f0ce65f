/** The reset-only pattern matcher and the CRLF masks of the HTTP input. */
module Matcher {
  import opened Words

  // ---- search_pattern ----

  /** search_pattern_compare: advance on a hit, otherwise start over without looking at c again. */
  function Advance(pat: seq<Byte>, q: nat, c: Byte): (q': nat)
    requires q < |pat|
    ensures q' <= |pat|
  {
    if pat[q] == c then q + 1 else 0
  }

  /** The matcher after the bytes s; both of its users reset a pattern as soon as it has matched. */
  function State(pat: seq<Byte>, s: seq<Byte>): (q: nat)
    requires |pat| > 0
    ensures q <= |pat|
    decreases |s|, 0
  {
    if s == [] then 0 else Advance(pat, Live(pat, s[..|s| - 1]), s[|s| - 1])
  }

  function Live(pat: seq<Byte>, s: seq<Byte>): (q: nat)
    requires |pat| > 0
    ensures q < |pat|
    decreases |s|, 1
  {
    if State(pat, s) == |pat| then 0 else State(pat, s)
  }

  /** struct search_pattern: the pattern and how much of it has matched. */
  class SearchPattern {
    const pattern: seq<Byte>
    var matched: nat

    constructor (pattern: seq<Byte>)
      ensures this.pattern == pattern && matched == 0
    {
      this.pattern := pattern;
      matched := 0;
    }

    method Reset()
      modifies this
      ensures matched == 0
    {
      matched := 0;
    }

    method Compare(c: Byte) returns (hit: bool)
      requires matched < |pattern|
      modifies this
      ensures matched == Advance(pattern, old(matched), c) && (hit <==> matched != 0)
    {
      if pattern[matched] == c {
        matched := matched + 1;
        return true;
      }
      Reset();
      return false;
    }

    predicate Matches()
      reads this
    {
      matched == |pattern|
    }
  }

  ghost predicate EndsWith(s: seq<Byte>, t: seq<Byte>) {
    |t| <= |s| && s[|s| - |t|..] == t
  }

  lemma StateSnoc(pat: seq<Byte>, s: seq<Byte>, c: Byte)
    requires |pat| > 0
    ensures State(pat, s + [c]) == Advance(pat, Live(pat, s), c)
  {
    assert (s + [c])[..|s + [c]| - 1] == s;
  }

  /** State q means that the last q bytes are the first q of the pattern: a match is an occurrence. */
  lemma {:induction false} StateIsSuffix(pat: seq<Byte>, s: seq<Byte>)
    requires |pat| > 0
    ensures EndsWith(s, pat[..State(pat, s)])
    decreases |s|
  {
    if s != [] {
      var a, c := s[..|s| - 1], s[|s| - 1];
      StateIsSuffix(pat, a);
      var q := Live(pat, a);
      if pat[q] == c {
        assert a[|a| - q..] == pat[..q];
        assert s == a + [c];
        assert s[|s| - (q + 1)..] == a[|a| - q..] + [c] == pat[..q + 1];
      }
    }
  }

  /** Following an occurrence that starts in state 0. */
  lemma {:induction false} FollowPattern(pat: seq<Byte>, a: seq<Byte>, k: nat)
    requires |pat| > 0 && k <= |pat| && Live(pat, a) == 0
    ensures k == 0 || State(pat, a + pat[..k]) == k
    ensures Live(pat, a + pat[..k]) == if k == |pat| then 0 else k
  {
    if k == 0 {
      assert a + pat[..0] == a;
    } else {
      FollowPattern(pat, a, k - 1);
      assert a + pat[..k] == (a + pat[..k - 1]) + [pat[k - 1]];
      StateSnoc(pat, a + pat[..k - 1], pat[k - 1]);
    }
  }

  /** A match reached after |pat| bytes went up one state at a time. */
  lemma {:induction false} BackFromMatch(pat: seq<Byte>, a: seq<Byte>, b: seq<Byte>)
    requires |pat| > 0 && |b| <= |pat| && State(pat, a + b) == |b|
    ensures |b| > 0 ==> Live(pat, a) == 0
    decreases |b|
  {
    if |b| > 0 {
      var b', c := b[..|b| - 1], b[|b| - 1];
      assert a + b == (a + b') + [c];
      StateSnoc(pat, a + b', c);
      assert Live(pat, a + b') == |b'|;
      if |b'| == 0 {
        assert a + b' == a;
      } else {
        BackFromMatch(pat, a, b');
      }
    }
  }

  /** An occurrence is found exactly when the matcher is in state 0 at its first byte. */
  lemma FoundIffFresh(pat: seq<Byte>, a: seq<Byte>)
    requires |pat| > 0
    ensures State(pat, a + pat) == |pat| <==> Live(pat, a) == 0
  {
    if Live(pat, a) == 0 {
      FollowPattern(pat, a, |pat|);
      assert pat[..|pat|] == pat;
    }
    if State(pat, a + pat) == |pat| {
      BackFromMatch(pat, a, pat);
    }
  }

  /** An occurrence directly after a byte foreign to the pattern is found, whatever came before. */
  lemma FoundAfterForeign(pat: seq<Byte>, a: seq<Byte>, c: Byte)
    requires |pat| > 0 && c !in pat
    ensures State(pat, (a + [c]) + pat) == |pat|
  {
    StateSnoc(pat, a, c);
    FoundIffFresh(pat, a + [c]);
  }

  ghost predicate Occurs(pat: seq<Byte>, s: seq<Byte>) {
    exists k :: 0 <= k <= |s| && EndsWith(s[..k], pat)
  }

  /** No prefix of s is a match. */
  ghost predicate Silent(pat: seq<Byte>, s: seq<Byte>)
    requires |pat| > 0
  {
    forall k :: 0 <= k <= |s| ==> State(pat, s[..k]) != |pat|
  }

  lemma NoOccurrenceSilent(pat: seq<Byte>, s: seq<Byte>)
    requires |pat| > 0 && !Occurs(pat, s)
    ensures Silent(pat, s)
  {
    hide State, Live, EndsWith;
    forall k | 0 <= k <= |s|
      ensures State(pat, s[..k]) != |pat|
    {
      MatchOccurs(pat, s[..k]);
    }
  }

  lemma MatchOccurs(pat: seq<Byte>, t: seq<Byte>)
    requires |pat| > 0 && !EndsWith(t, pat)
    ensures State(pat, t) != |pat|
  {
    hide State, Live, EndsWith;
    StateIsSuffix(pat, t);
    assert pat[..|pat|] == pat;
  }

  // ---- the last four bytes ----

  /** push_byte: shift in a char, sign-extended where plain char is signed. */
  function Push(last: nat, b: Byte, signedChar: bool): (r: nat)
    ensures r < WORD_COUNT
  {
    if signedChar && b >= 128 then 0xFFFF_FF00 + b else (last % 0x100_0000) * 256 + b
  }

  const CRLF_MASK: nat := 0x0D0A

  /** is_crlf: a superset test on the low sixteen bits. */
  predicate IsCrlf(last: nat) { And(OfNat(last, 32), OfNat(CRLF_MASK, 32)) == OfNat(CRLF_MASK, 32) }

  predicate IsCrlfCrlf(last: nat) { IsCrlf(last) && IsCrlf(last / 0x1_0000) }

  /** Bits 3, 2 and 0: all of CR's. */
  predicate HasCr(b: int) { b / 8 % 2 == 1 && b / 4 % 2 == 1 && b % 2 == 1 }

  /** Bits 3 and 1: all of LF's. */
  predicate HasLf(b: int) { b / 8 % 2 == 1 && b / 2 % 2 == 1 }

  lemma {:induction false} OfNatBit(n: nat, len: nat, k: nat)
    requires k < len
    ensures k == 0 ==> OfNat(n, len)[len - 1] == (n % 2 == 1)
    ensures k > 0 ==> OfNat(n, len)[len - 1 - k] == OfNat(n / 2, len - 1)[len - 1 - k]
  {
  }

  /** The low four bits of a number, as the word operations see them. */
  lemma LowNibble(n: nat, len: nat)
    requires len >= 4
    ensures OfNat(n, len)[len - 1] == (n % 2 == 1)
    ensures OfNat(n, len)[len - 2] == (n / 2 % 2 == 1)
    ensures OfNat(n, len)[len - 3] == (n / 4 % 2 == 1)
    ensures OfNat(n, len)[len - 4] == (n / 8 % 2 == 1)
  {
    hide OfNat;
    OfNatBit(n, len, 0);
    OfNatBit(n, len, 1);
    OfNatBit(n / 2, len - 1, 0);
    OfNatBit(n, len, 2);
    OfNatBit(n / 2, len - 1, 1);
    OfNatBit(n / 4, len - 2, 0);
    OfNatBit(n, len, 3);
    OfNatBit(n / 2, len - 1, 2);
    OfNatBit(n / 4, len - 2, 1);
    OfNatBit(n / 8, len - 3, 0);
  }

  lemma NibbleValue(a: bool, b: bool, c: bool, d: bool)
    ensures Value([a, b, c, d]) == 8 * BoolBit(a) + 4 * BoolBit(b) + 2 * BoolBit(c) + BoolBit(d)
  {
    assert [a, b, c, d][..3] == [a, b, c] && [a, b, c][..2] == [a, b] && [a, b][..1] == [a] && [a][..0] == [];
    assert Value([a]) == BoolBit(a);
    assert Value([a, b]) == 2 * BoolBit(a) + BoolBit(b);
  }

  lemma MaskWord()
    ensures OfNat(CRLF_MASK, 32) ==
            Zeros(20) + [true, true, false, true] + Zeros(4) + [true, false, true, false]
  {
    hide OfNat, Value;
    var hi, mid, lo := [true, true, false, true], Zeros(4), [true, false, true, false];
    NibbleValue(true, true, false, true);
    NibbleValue(true, false, true, false);
    ValueZeros(4);
    ValueConcat(hi, mid);
    ValueConcat(hi + mid, lo);
    assert Shifted(13, 4) == 208 && Shifted(208, 4) == 3328;
    ValueZeroExtend(20, hi + mid + lo);
    OfNatValue(Zeros(20) + (hi + mid + lo));
    assert Zeros(20) + (hi + mid + lo) == Zeros(20) + hi + mid + lo;
  }

  /** The mask test looks at three bits of one byte and two bits of the next. */
  lemma CrlfBits(last: nat)
    ensures IsCrlf(last) <==> HasCr(last / 256) && HasLf(last)
  {
    hide OfNat;
    MaskWord();
    var x, m := OfNat(last, 32), OfNat(CRLF_MASK, 32);
    SupersetOfMask(x, m);
    LowNibble(last, 32);
    HighByte(last);
    LowNibble(last / 256, 24);
  }

  /** Where char is unsigned, or the byte is below 128, the register shifts by eight bits. */
  lemma PushUnsigned(last: nat, b: Byte)
    ensures Push(last, b, false) == (last * 256 + b) % 0x1_0000_0000
    ensures b < 128 ==> Push(last, b, true) == Push(last, b, false)
  {
    var high, low := last / 0x100_0000, last % 0x100_0000;
    assert last * 256 + b == 0x1_0000_0000 * high + (low * 256 + b);
  }

  /** Where char is signed a byte of 128 or more fills the register with ones: if it has LF's bits it ends the
      header alone, whatever came before. */
  lemma HighByteEndsHeader(last: nat, b: Byte)
    requires b >= 128
    ensures Push(last, b, true) == 0x1_0000_0000 - 256 + b
    ensures IsCrlfCrlf(Push(last, b, true)) <==> HasLf(b)
  {
    hide IsCrlf;
    var now := Push(last, b, true);
    CrlfBits(now);
    CrlfBits(now / 0x1_0000);
    OnesAbove(b);
  }

  lemma OnesAbove(b: Byte)
    ensures var now := 0xFFFF_FF00 + b;
            && now / 256 == 0xFF_FFFF && now / 0x1_0000 == 0xFFFF && now / 0x1_0000 / 256 == 0xFF
            && (HasLf(now) <==> HasLf(b)) && HasCr(0xFF_FFFF) && HasLf(0xFFFF) && HasCr(0xFF)
  {
    var now, k: int := 0xFFFF_FF00 + b, 0x0FFF_FFF0;
    assert now / 8 == 2 * 0x0FFF_FFF0 + b / 8 && now / 2 == 2 * 0x3FFF_FFC0 + b / 2;
  }

  lemma SupersetOfMask(x: Word, m: Word)
    requires m == Zeros(20) + [true, true, false, true] + Zeros(4) + [true, false, true, false]
    ensures And(x, m) == m <==> x[20] && x[21] && x[23] && x[28] && x[30]
  {
    if And(x, m) == m {
      assert m[20] && m[21] && m[23] && m[28] && m[30];
      assert And(x, m)[20] && And(x, m)[21] && And(x, m)[23] && And(x, m)[28] && And(x, m)[30];
    }
  }

  lemma HighByte(n: nat)
    ensures OfNat(n, 32)[..24] == OfNat(n / 256, 24)
  {
    hide OfNat;
    DropTwo(n, 30);
    DropTwo(n / 4, 28);
    DropTwo(n / 16, 26);
    DropTwo(n / 64, 24);
    assert OfNat(n, 32)[..24] == OfNat(n, 32)[..30][..28][..26][..24];
  }

  lemma DropTwo(n: nat, len: nat)
    ensures OfNat(n, len + 2)[..len] == OfNat(n / 4, len)
  {
    assert OfNat(n, len + 2)[..len + 1] == OfNat(n / 2, len + 1);
    assert OfNat(n / 2, len + 1)[..len] == OfNat(n / 2 / 2, len);
    assert OfNat(n, len + 2)[..len] == OfNat(n, len + 2)[..len + 1][..len];
  }
}
