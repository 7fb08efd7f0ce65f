/** decodeBase64: decoding a C string in place. */
module Base64 {
  import opened Words

  const PAD: Byte := 61

  /** The value of a character, -1 for one that is skipped; '=' counts as 0. */
  function ValueOf(c: Byte): (t: int)
    ensures -1 <= t < 64
  {
    if 48 <= c <= 57 then c - 48 + 52
    else if 65 <= c <= 90 then c - 65
    else if 97 <= c <= 122 then c - 97 + 26
    else if c == 43 then 62
    else if c == 47 then 63
    else if c == PAD then 0
    else -1
  }

  type Sextet = t: int | 0 <= t < 64

  /** The values of a text, skipped characters left out. */
  function Sextets(text: seq<Byte>): seq<Sextet> {
    if text == [] then []
    else
      var t := ValueOf(text[|text| - 1]);
      Sextets(text[..|text| - 1]) + if t < 0 then [] else [t]
  }

  function SextetBits(t: Sextet): (w: Bits)
    ensures |w| == 6
  {
    OfNat(t, 6)
  }

  function BitsOf(xs: seq<Sextet>): (w: Bits)
    ensures |w| == 6 * |xs|
  {
    if xs == [] then [] else BitsOf(xs[..|xs| - 1]) + SextetBits(xs[|xs| - 1])
  }

  function ToByte(w: Bits): Byte
    requires |w| == 8
  {
    assert Pow2(8) == 256;
    Value(w)
  }

  /** 24 bits as three bytes. */
  function ThreeBytes(w: Bits): (r: seq<Byte>)
    requires |w| == 24
    ensures |r| == 3
  {
    [ToByte(w[..8]), ToByte(w[8..16]), ToByte(w[16..])]
  }

  /** Three bytes from each complete group of four values; a shorter rest is dropped. */
  function Decoded(xs: seq<Sextet>): seq<Byte> {
    if |xs| < 4 then [] else ThreeBytes(BitsOf(xs[..4])) + Decoded(xs[4..])
  }

  function Decode(text: seq<Byte>): seq<Byte> { Decoded(Sextets(text)) }

  // ---- the method ----

  /** ch >> n on an unsigned word. */
  function Shr(w: Word, n: nat): Word
    requires n <= 32
  {
    Zeros(n) + w[..32 - n]
  }

  /** The cast to char. */
  function ToChar(w: Word): Byte { ToByte(w[24..]) }

  /** After inp characters: their values are `full`, g complete groups, and `part`, whose bits are the last in
      the accumulator. */
  ghost predicate Midway(text: seq<Byte>, inp: nat, full: seq<Sextet>, part: seq<Sextet>, g: nat, ch: Word) {
    inp <= |text| && |part| < 4 && |full| == 4 * g && 4 * g + |part| <= inp
    && full + part == Sextets(text[..inp]) && ch[32 - 6 * |part|..] == BitsOf(part)
  }

  /** Shifting the value in. */
  function Pushed(ch: Word, t: Sextet): Word { Or(Shl(ch, 6), OfNat(t, 32)) }

  method DecodeBase64(data: array<Byte>, ghost n: nat) returns (out: nat)
    requires IsText(data[..], n)
    modifies data
    ensures out <= n && data[..out] == Decode(old(data[..n]))
    ensures data[..] == data[..out] + [0] + old(data[..])[out + 1..]
  {
    hide Sextets, Decoded, Or, Shl, Shr, OfNat, BitsOf, ToByte, ValueOf, Pushed, Decode;
    var inp: nat, ch: Word, i: nat := 0, Zeros(32), 0;
    out := 0;
    ghost var text, was := data[..n], data[..];
    ghost var full: seq<Sextet>, part: seq<Sextet>, g: nat := [], [], 0;
    NothingRead(text);
    while data[inp] != 0
      invariant inp <= n && i == |part| < 4 && out == 3 * g && 4 * g + i <= inp
      invariant Midway(text, inp, full, part, g, ch)
      invariant data[..out] == Decoded(full) && data[out..] == was[out..]
      decreases n - inp
    {
      assert data[inp] == was[inp] == text[inp];
      hide Midway;
      var t := ValueOf(data[inp]);
      inp := inp + 1;
      if t < 0 {
        Skip(text, inp - 1, full, part, g, ch);
        continue;
      }
      OneMore(text, inp - 1, full, part, g, ch);
      ch := Pushed(ch, t);
      part := part + [t];
      i := i + 1;
      if i == 4 {
        StoreGroup(data, out, ch);
        TailKept(was, out);
        out := out + 3;
        i := 0;
        full, part, g := full + part, [], g + 1;
      }
    }
    assert inp == n;
    AllRead(text, full, part, g, ch);
    data[out] := 0;
  }

  /** The three bytes of a complete group. */
  method StoreGroup(data: array<Byte>, out: nat, ch: Word)
    requires out + 3 <= data.Length
    modifies data
    ensures data[..out + 3] == old(data[..out]) + [ToChar(Shr(ch, 16)), ToChar(Shr(ch, 8)), ToChar(ch)]
    ensures data[out + 3..] == old(data[out..])[3..]
  {
    hide *;
    data[out], data[out + 1], data[out + 2] := ToChar(Shr(ch, 16)), ToChar(Shr(ch, 8)), ToChar(ch);
  }

  lemma TailKept(was: seq<Byte>, out: nat)
    requires out + 3 <= |was|
    ensures was[out..][3..] == was[out + 3..]
  {
  }

  lemma NothingRead(text: seq<Byte>)
    ensures Midway(text, 0, [], [], 0, Zeros(32)) && Decoded([]) == []
  {
  }

  lemma Skip(text: seq<Byte>, inp: nat, full: seq<Sextet>, part: seq<Sextet>, g: nat, ch: Word)
    requires inp < |text| && Midway(text, inp, full, part, g, ch) && ValueOf(text[inp]) < 0
    ensures Midway(text, inp + 1, full, part, g, ch)
  {
    hide Sextets, ValueOf, BitsOf;
    OneRead(text, inp);
    assert full + part + [] == full + part;
  }

  /** One value more; a fourth one completes a group. */
  lemma OneMore(text: seq<Byte>, inp: nat, full: seq<Sextet>, part: seq<Sextet>, g: nat, ch: Word)
    requires inp < |text| && Midway(text, inp, full, part, g, ch) && ValueOf(text[inp]) >= 0
    ensures var t, ch' := ValueOf(text[inp]), Pushed(ch, ValueOf(text[inp]));
            if |part| < 3 then Midway(text, inp + 1, full, part + [t], g, ch')
            else
              && Midway(text, inp + 1, full + (part + [t]), [], g + 1, ch')
              && Decoded(full + (part + [t]))
                 == Decoded(full) + [ToChar(Shr(ch', 16)), ToChar(Shr(ch', 8)), ToChar(ch')]
  {
    hide Sextets, ValueOf, BitsOf, Decoded, Or, Shl, Shr, OfNat, ToChar;
    var t := ValueOf(text[inp]);
    OneRead(text, inp);
    PushSextet(ch, part, t);
    assert full + (part + [t]) == (full + part) + [t];
    if |part| == 3 {
      GroupDone(full, part + [t], g, Pushed(ch, t));
      NoBits(Pushed(ch, t));
      assert (full + (part + [t])) + [] == full + (part + [t]);
    }
  }

  lemma AllRead(text: seq<Byte>, full: seq<Sextet>, part: seq<Sextet>, g: nat, ch: Word)
    requires Midway(text, |text|, full, part, g, ch)
    ensures Decoded(full) == Decode(text)
  {
    hide Sextets, Decoded, BitsOf;
    assert text[..|text|] == text;
    DecodedAppend(full, part, g);
    RestDropped(part);
    assert Decoded(full) + [] == Decoded(full);
  }

  lemma NoValues()
    ensures Sextets([]) == [] && Decoded([]) == []
  {
  }

  lemma NoBits(ch: Word)
    ensures ch[32..] == BitsOf([])
  {
  }

  lemma RestDropped(part: seq<Sextet>)
    requires |part| < 4
    ensures Decoded(part) == []
  {
  }

  lemma OneRead(text: seq<Byte>, i: nat)
    requires i < |text|
    ensures Sextets(text[..i + 1]) == Sextets(text[..i]) + if ValueOf(text[i]) < 0 then [] else [ValueOf(text[i])]
  {
    hide ValueOf;
    assert text[..i + 1][..i] == text[..i];
  }

  /** Shifting a value into the accumulator appends its six bits to those at the end. */
  lemma PushSextet(ch: Word, part: seq<Sextet>, t: Sextet)
    requires |part| < 4 && ch[32 - 6 * |part|..] == BitsOf(part)
    ensures Or(Shl(ch, 6), OfNat(t, 32))[32 - 6 * (|part| + 1)..] == BitsOf(part + [t])
  {
    hide OfNat, BitsOf, Or, Shl;
    assert Pow2(6) == 64;
    OfNatWiden(t, 6, 26);
    BitsSnoc(part, t);
    OrSextet(ch, SextetBits(t));
    LastBits(ch, SextetBits(t), 6 * |part|);
  }

  lemma OrSextet(ch: Word, w: Bits)
    requires |w| == 6
    ensures Or(Shl(ch, 6), Zeros(26) + w) == ch[6..] + w
  {
  }

  lemma LastBits(ch: Word, w: Bits, k: nat)
    requires |w| == 6 && k <= 18
    ensures (ch[6..] + w)[26 - k..] == ch[32 - k..] + w
  {
  }

  lemma BitsSnoc(part: seq<Sextet>, t: Sextet)
    ensures BitsOf(part + [t]) == BitsOf(part) + SextetBits(t)
  {
    assert (part + [t])[..|part|] == part;
  }

  /** The three bytes taken out are the low 24 bits; what is above them does not matter. */
  lemma GroupDone(full: seq<Sextet>, part: seq<Sextet>, g: nat, ch: Word)
    requires |full| == 4 * g && |part| == 4 && ch[8..] == BitsOf(part)
    ensures Decoded(full + part) == Decoded(full) + [ToChar(Shr(ch, 16)), ToChar(Shr(ch, 8)), ToChar(ch)]
  {
    hide BitsOf, ToByte;
    DecodedAppend(full, part, g);
    assert part[..4] == part && part[4..] == [];
    assert Decoded(part) == ThreeBytes(BitsOf(part)) + Decoded([]);
    assert Shr(ch, 16)[24..] == ch[8..][..8] && Shr(ch, 8)[24..] == ch[8..][8..16] && ch[24..] == ch[8..][16..];
    assert ThreeBytes(BitsOf(part)) + [] == ThreeBytes(BitsOf(part));
  }

  lemma {:induction false} DecodedAppend(a: seq<Sextet>, b: seq<Sextet>, g: nat)
    requires |a| == 4 * g
    ensures Decoded(a + b) == Decoded(a) + Decoded(b)
    decreases g
  {
    hide BitsOf, ToByte;
    if g == 0 {
      assert a + b == b;
    } else {
      assert (a + b)[4..] == a[4..] + b && (a + b)[..4] == a[..4];
      DecodedAppend(a[4..], b, g - 1);
    }
  }

  // ---- the encoder, section 4 of RFC 4648 ----

  function Letter(t: Sextet): (c: Byte)
    ensures ValueOf(c) == t && c != PAD && c != 0
  {
    if t < 26 then 65 + t
    else if t < 52 then 97 + (t - 26)
    else if t < 62 then 48 + (t - 52)
    else if t == 62 then 43
    else 47
  }

  function ToSextet(w: Bits): Sextet
    requires |w| == 6
  {
    assert Pow2(6) == 64;
    Value(w)
  }

  /** A 24-bit group cut into four values. */
  function Cut(a: Byte, b: Byte, c: Byte): (xs: seq<Sextet>)
    ensures |xs| == 4
  {
    var w := ByteBits(a) + ByteBits(b) + ByteBits(c);
    [ToSextet(w[..6]), ToSextet(w[6..12]), ToSextet(w[12..18]), ToSextet(w[18..])]
  }

  function Letters(xs: seq<Sextet>): (r: seq<Byte>)
    ensures |r| == |xs| && forall i :: 0 <= i < |r| ==> ValueOf(r[i]) == xs[i]
  {
    seq(|xs|, i requires 0 <= i < |xs| => Letter(xs[i]))
  }

  /** '=' characters at the end of the encoding of n bytes. */
  function PadCount(n: nat): nat { if n % 3 == 0 then 0 else 3 - n % 3 }

  function Encode(bytes: seq<Byte>): seq<Byte> {
    if bytes == [] then []
    else if |bytes| == 1 then Letters(Cut(bytes[0], 0, 0))[..2] + [PAD, PAD]
    else if |bytes| == 2 then Letters(Cut(bytes[0], bytes[1], 0))[..3] + [PAD]
    else Letters(Cut(bytes[0], bytes[1], bytes[2])) + Encode(bytes[3..])
  }

  /** Cutting a group in four and putting the bits together again changes nothing. */
  lemma CutBits(a: Byte, b: Byte, c: Byte)
    ensures BitsOf(Cut(a, b, c)) == ByteBits(a) + ByteBits(b) + ByteBits(c)
  {
    hide OfNat, Value, ByteBits;
    var w, xs := ByteBits(a) + ByteBits(b) + ByteBits(c), Cut(a, b, c);
    SextetBack(w[..6]);
    SextetBack(w[6..12]);
    SextetBack(w[12..18]);
    SextetBack(w[18..]);
    assert xs[..3][..2] == xs[..2] && xs[..2][..1] == xs[..1] && xs[..1][..0] == [];
    assert BitsOf(xs[..1]) == [] + w[..6];
    assert BitsOf(xs[..2]) == BitsOf(xs[..1]) + w[6..12];
    assert BitsOf(xs[..3]) == BitsOf(xs[..2]) + w[12..18];
    assert w == w[..6] + w[6..12] + w[12..18] + w[18..];
  }

  lemma SextetBack(w: Bits)
    requires |w| == 6
    ensures SextetBits(ToSextet(w)) == w
  {
    hide OfNat, Value;
    OfNatValue(w);
  }

  lemma ByteBack(b: Byte)
    ensures ToByte(ByteBits(b)) == b
  {
    hide OfNat, Value;
    assert Pow2(8) == 256;
    ValueOfNat(b, 8);
  }

  lemma GroupBack(a: Byte, b: Byte, c: Byte)
    ensures Decoded(Cut(a, b, c)) == [a, b, c]
  {
    hide ByteBits, BitsOf, ToByte, Cut;
    var w, xs := ByteBits(a) + ByteBits(b) + ByteBits(c), Cut(a, b, c);
    CutBits(a, b, c);
    ByteBack(a);
    ByteBack(b);
    ByteBack(c);
    assert w[..8] == ByteBits(a) && w[8..16] == ByteBits(b) && w[16..] == ByteBits(c);
    assert xs[..4] == xs && xs[4..] == [];
    assert Decoded(xs) == ThreeBytes(w) + Decoded([]);
    assert ThreeBytes(w) + [] == ThreeBytes(w);
  }

  /** Bits beyond the last byte are zero, so '=' stands for the values cut from them. */
  lemma PaddingIsZero(a: Byte, b: Byte)
    ensures Cut(a, b, 0)[3] == 0 && Cut(a, 0, 0)[2] == 0 && Cut(a, 0, 0)[3] == 0
  {
    hide OfNat, Value;
    ZeroBits(8);
    ValueZeros(6);
    var w, z := ByteBits(a) + ByteBits(b) + ByteBits(0), ByteBits(a) + ByteBits(0) + ByteBits(0);
    assert w[18..] == Zeros(6) && z[12..18] == Zeros(6) && z[18..] == Zeros(6);
  }

  lemma {:induction false} SextetsFour(text: seq<Byte>, rest: seq<Byte>)
    requires |text| == 4 && forall i :: 0 <= i < 4 ==> ValueOf(text[i]) >= 0
    ensures Sextets(text + rest)
      == [ValueOf(text[0]), ValueOf(text[1]), ValueOf(text[2]), ValueOf(text[3])] + Sextets(rest)
    decreases |rest|
  {
    hide ValueOf;
    if rest == [] {
      assert text + rest == text;
      assert text[..3][..2] == text[..2] && text[..2][..1] == text[..1] && text[..1][..0] == [];
      assert Sextets(text[..1]) == [] + [ValueOf(text[0])];
      assert Sextets(text[..2]) == Sextets(text[..1]) + [ValueOf(text[1])];
      assert Sextets(text[..3]) == Sextets(text[..2]) + [ValueOf(text[2])];
    } else {
      SextetsFour(text, rest[..|rest| - 1]);
      assert (text + rest)[..|text + rest| - 1] == text + rest[..|rest| - 1];
    }
  }

  lemma OneGroup(text: seq<Byte>, rest: seq<Byte>, a: Byte, b: Byte, c: Byte)
    requires |text| == 4 && forall i :: 0 <= i < 4 ==> ValueOf(text[i]) == Cut(a, b, c)[i]
    ensures Decode(text + rest) == [a, b, c] + Decode(rest)
  {
    hide ValueOf, Cut, Decoded, Sextets;
    SextetsFour(text, rest);
    assert Cut(a, b, c) == [ValueOf(text[0]), ValueOf(text[1]), ValueOf(text[2]), ValueOf(text[3])];
    DecodedAppend(Cut(a, b, c), Sextets(rest), 1);
    GroupBack(a, b, c);
  }

  /** Decoding an encoding returns the bytes, followed by one zero byte for each '='. */
  lemma {:induction false} EncodeDecode(bytes: seq<Byte>)
    ensures Decode(Encode(bytes)) == bytes + seq(PadCount(|bytes|), _ => 0)
    decreases |bytes|
  {
    hide Sextets, Decoded, ValueOf, Cut, Letter;
    NoValues();
    if bytes == [] {
      assert Encode(bytes)[..0] == Encode(bytes);
    } else if |bytes| < 3 {
      LastGroup(bytes);
    } else {
      OneGroup(Letters(Cut(bytes[0], bytes[1], bytes[2])), Encode(bytes[3..]), bytes[0], bytes[1], bytes[2]);
      EncodeDecode(bytes[3..]);
      assert bytes == [bytes[0], bytes[1], bytes[2]] + bytes[3..];
    }
  }

  lemma LastGroup(bytes: seq<Byte>)
    requires 1 <= |bytes| <= 2
    ensures Decode(Encode(bytes)) == bytes + seq(PadCount(|bytes|), _ => 0)
  {
    hide Sextets, Decoded, Cut, Letter;
    NoValues();
    var e, b := Encode(bytes), if |bytes| == 2 then bytes[1] else 0;
    assert e + [] == e;
    PaddingIsZero(bytes[0], b);
    OneGroup(e, [], bytes[0], b, 0);
  }

  // ---- other characters, and a rest ----

  /** The alphabet of RFC 4648 and the padding character. */
  predicate InAlphabet(c: Byte) {
    65 <= c <= 90 || 97 <= c <= 122 || 48 <= c <= 57 || c == 43 || c == 47 || c == 61
  }

  lemma AlphabetOnly(c: Byte)
    ensures ValueOf(c) >= 0 <==> InAlphabet(c)
  {
  }

  lemma {:induction false} SextetsConcat(a: seq<Byte>, b: seq<Byte>)
    ensures Sextets(a + b) == Sextets(a) + Sextets(b)
    decreases |b|
  {
    hide ValueOf;
    if b == [] {
      assert a + b == a && Sextets(a) + [] == Sextets(a);
    } else {
      var c := b[|b| - 1];
      SextetsConcat(a, b[..|b| - 1]);
      assert (a + b)[..|a + b| - 1] == a + b[..|b| - 1] && (a + b)[|a + b| - 1] == c;
    }
  }

  /** Any other character is skipped, wherever it stands. */
  lemma OthersSkipped(a: seq<Byte>, c: Byte, b: seq<Byte>)
    requires !InAlphabet(c)
    ensures Decode(a + [c] + b) == Decode(a + b)
  {
    hide ValueOf, Decoded, Sextets;
    AlphabetOnly(c);
    OneSkipped(c);
    SextetsConcat(a + [c], b);
    SextetsConcat(a, [c]);
    SextetsConcat(a, b);
    assert Sextets(a) + [] == Sextets(a);
  }

  lemma OneSkipped(c: Byte)
    requires ValueOf(c) < 0
    ensures Sextets([c]) == []
  {
    hide ValueOf;
    assert [c][..0] == [];
  }

  /** Each complete group of four characters gives three bytes; a shorter rest gives none. */
  lemma {:induction false} DecodedLength(xs: seq<Sextet>)
    ensures |Decoded(xs)| == |xs| / 4 * 3
    decreases |xs|
  {
    hide BitsOf, ThreeBytes;
    if |xs| >= 4 {
      DecodedLength(xs[4..]);
    }
  }

  // ---- section 4 of RFC 4648 in numbers ----

  /** The letters, digits and + and / stand for 0 to 63 in this order. */
  lemma AlphabetOrder(i: nat)
    ensures i < 26 ==> ValueOf('A' as int + i) == i && ValueOf('a' as int + i) == 26 + i
    ensures i < 10 ==> ValueOf('0' as int + i) == 52 + i
    ensures ValueOf('+' as int) == 62 && ValueOf('/' as int) == 63 && ValueOf('=' as int) == 0
  {
  }

  /** Four characters are one number of 24 bits, and so are the three bytes they give. */
  lemma GroupNumber(a: Sextet, b: Sextet, c: Sextet, d: Sextet)
    ensures var r := Decoded([a, b, c, d]);
            |r| == 3 &&
            var x: int, y: int, z: int := r[0], r[1], r[2];
            x * 65536 + y * 256 + z == a * 262144 + b * 4096 + c * 64 + d
  {
    hide BitsOf, SextetBits, ToByte, OfNat, Value;
    SextetNumber([], a);
    SextetNumber([a], b);
    SextetNumber([a, b], c);
    SextetNumber([a, b, c], d);
    assert [a, b, c] + [d] == [a, b, c, d] && [a, b] + [c] == [a, b, c] && [a] + [b] == [a, b] && [] + [a] == [a];
    assert [a, b, c, d][..4] == [a, b, c, d] && [a, b, c, d][4..] == [];
    NoSextet();
    BytesNumber(BitsOf([a, b, c, d]));
  }

  lemma NoSextet()
    ensures Value(BitsOf([])) == 0
  {
  }

  lemma SextetNumber(xs: seq<Sextet>, t: Sextet)
    ensures Value(BitsOf(xs + [t])) == 64 * Value(BitsOf(xs)) + t
  {
    assert Pow2(6) == 64;
    assert (xs + [t])[..|xs|] == xs;
    ValueConcat(BitsOf(xs), SextetBits(t));
    ValueOfNat(t, 6);
    ShiftedBy(Value(BitsOf(xs)));
  }

  lemma BytesNumber(w: Bits)
    requires |w| == 24
    ensures ToByte(w[..8]) * 65536 + ToByte(w[8..16]) * 256 + ToByte(w[16..]) == Value(w)
  {
    hide Value;
    assert Pow2(8) == 256;
    assert w == w[..16] + w[16..] && w[..16] == w[..8] + w[8..16];
    ValueConcat(w[..16], w[16..]);
    ValueConcat(w[..8], w[8..16]);
    ShiftedBy(Value(w[..8]));
    ShiftedBy(Value(w[..16]));
  }

  lemma ShiftedBy(c: nat)
    ensures Shifted(c, 6) == 64 * c && Shifted(c, 8) == 256 * c
  {
    assert Shifted(c, 8) == 2 * Shifted(c, 7) == 4 * Shifted(c, 6);
    assert Shifted(c, 6) == 2 * Shifted(c, 5) == 4 * Shifted(c, 4) == 8 * Shifted(c, 3);
    assert Shifted(c, 3) == 2 * Shifted(c, 2) == 4 * Shifted(c, 1) == 8 * Shifted(c, 0);
  }
}
