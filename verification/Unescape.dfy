/** unescape: percent decoding of a C string in place. */
module Unescape {
  import opened Words

  const PERCENT: Byte := 37

  /** hex_char_to_int */
  function HexValue(c: Byte): (v: int)
    ensures -1 <= v < 16
  {
    if 48 <= c <= 57 then c - 48
    else if 97 <= c <= 102 then c - 97 + 10
    else if 65 <= c <= 70 then c - 65 + 10
    else -1
  }

  predicate IsHex(c: Byte) { HexValue(c) >= 0 }

  /** Every '%' that decoding reaches is followed by two hex digits. */
  predicate WellEscaped(s: seq<Byte>) {
    if s == [] then true
    else if s[0] != PERCENT then WellEscaped(s[1..])
    else |s| >= 3 && IsHex(s[1]) && IsHex(s[2]) && WellEscaped(s[3..])
  }

  function Decode(s: seq<Byte>): (t: seq<Byte>)
    requires WellEscaped(s)
    ensures |t| <= |s|
  {
    if s == [] then []
    else if s[0] != PERCENT then [s[0]] + Decode(s[1..])
    else [HexValue(s[1]) * 16 + HexValue(s[2])] + Decode(s[3..])
  }

  // ---- the method ----

  /** Decoding has got to src and produced `done`. */
  ghost predicate Midway(text: seq<Byte>, src: nat, done: seq<Byte>) {
    src <= |text| && WellEscaped(text) == WellEscaped(text[src..])
    && (WellEscaped(text) ==> Decode(text) == done + Decode(text[src..]))
  }

  /** The first d bytes are those of `done`, the others the original ones. */
  ghost predicate InPlace(a: seq<Byte>, was: seq<Byte>, d: nat, done: seq<Byte>) {
    SameFrom(a, was, d) && a[..d] == done
  }

  /** From d on nothing has changed. */
  ghost predicate SameFrom(a: seq<Byte>, was: seq<Byte>, d: nat) {
    d <= |a| == |was| && a[d..] == was[d..]
  }

  /** n is strlen(string). */
  method Unescape(a: array<Byte>, n: nat) returns (rc: int, ghost dst: nat)
    requires IsText(a[..], n)
    modifies a
    ensures rc == if WellEscaped(old(a[..n])) then 0 else -1
    ensures dst <= n && a[dst + 1..] == old(a[dst + 1..])
    ensures rc == 0 ==> a[..] == Decode(old(a[..n])) + [0] + old(a[dst + 1..])
  {
    hide WellEscaped, Decode;
    ghost var was := a[..];
    rc, dst := Replace(a, n, was);
    if rc == 0 {
      assert a[..] == a[..dst + 1] + a[dst + 1..];
    }
  }

  /** The loop over the string, and the terminator behind the result. */
  method Replace(a: array<Byte>, n: nat, ghost was: seq<Byte>) returns (rc: int, ghost dst: nat)
    requires IsText(a[..], n) && was == a[..]
    modifies a
    ensures rc == if WellEscaped(was[..n]) then 0 else -1
    ensures dst <= n && SameFrom(a[..], was, dst + 1)
    ensures rc == 0 ==> InPlace(a[..], was, dst + 1, Decode(was[..n]) + [0])
  {
    ghost var text, done := was[..n], [];
    hide WellEscaped, Decode, HexValue, Midway, InPlace, SameFrom;
    var d, src := 0, 0;
    Whole(text);
    Untouched(was);
    while src < n
      invariant 0 <= d <= src <= n && InPlace(a[..], was, d, done) && Midway(text, src, done)
      decreases n - src
    {
      StillThere(a[..], was, d, done, src);
      if a[src] != PERCENT {
        var c := a[src];
        PlainStep(text, src, done);
        PutByte(a, d, c, was, done);
        done := done + [c];
        d := d + 1;
        src := src + 1;
        continue;
      }
      if src + 2 > n {
        CutOff(text, src, done);
        Behind(a[..], was, d, done);
        return -1, d;
      }
      var ok;
      ok, done := Escape(a, n, d, src, was, done);
      if !ok {
        return -1, d;
      }
      d := d + 1;
      src := src + 3;
    }
    Finished(text, done);
    PutByte(a, d, 0, was, done);
    SameBehind(a[..], was, d + 1, done + [0]);
    return 0, d;
  }

  /** The step for a '%' with at least one character behind it. */
  method Escape(a: array<Byte>, n: nat, d: nat, src: nat, ghost was: seq<Byte>, ghost done: seq<Byte>)
    returns (ok: bool, ghost more: seq<Byte>)
    requires IsText(was, n) && d <= src && src + 2 <= n && was[src] == PERCENT
    requires InPlace(a[..], was, d, done) && Midway(was[..n], src, done)
    modifies a
    ensures if ok then src + 3 <= n && InPlace(a[..], was, d + 1, more) && Midway(was[..n], src + 3, more)
            else !WellEscaped(was[..n]) && SameFrom(a[..], was, d + 1)
  {
    SameLength(a[..], was, d, done);
    hide WellEscaped, Decode, HexValue, Midway, InPlace, SameFrom;
    EscapeStep(was, n, src, done);
    StillThere(a[..], was, d, done, src + 1);
    StillThere(a[..], was, d, done, src + 2);
    ok, more := PutEscape(a, d, src, was, done);
  }

  lemma SameLength(a: seq<Byte>, was: seq<Byte>, d: nat, done: seq<Byte>)
    requires InPlace(a, was, d, done)
    ensures |a| == |was|
  {
  }

  lemma Untouched(a: seq<Byte>)
    ensures InPlace(a, a, 0, [])
  {
  }

  lemma StillThere(a: seq<Byte>, was: seq<Byte>, d: nat, done: seq<Byte>, i: nat)
    requires InPlace(a, was, d, done) && d <= i < |a|
    ensures |a| == |was| && a[i] == was[i]
  {
    assert a[i] == a[d..][i - d] == was[d..][i - d];
  }

  lemma SameBehind(a: seq<Byte>, was: seq<Byte>, d: nat, done: seq<Byte>)
    requires InPlace(a, was, d, done)
    ensures SameFrom(a, was, d)
  {
  }

  lemma Behind(a: seq<Byte>, was: seq<Byte>, d: nat, done: seq<Byte>)
    requires InPlace(a, was, d, done) && d < |a|
    ensures SameFrom(a, was, d + 1)
  {
    assert a[d + 1..] == a[d..][1..] == was[d..][1..] == was[d + 1..];
  }

  /** destination[dst] = c */
  method PutByte(a: array<Byte>, d: nat, c: Byte, ghost was: seq<Byte>, ghost done: seq<Byte>)
    requires d < a.Length && InPlace(a[..], was, d, done)
    modifies a
    ensures InPlace(a[..], was, d + 1, done + [c])
  {
    Behind(a[..], was, d, done);
    a[d] := c;
    assert a[..d + 1] == done + [c];
  }

  /** The two digits after the '%' at src; the byte is written, half by half, at or before the '%', so
      both digits are still intact when they are read. */
  method PutEscape(a: array<Byte>, d: nat, src: nat, ghost was: seq<Byte>, ghost done: seq<Byte>)
    returns (ok: bool, ghost more: seq<Byte>)
    requires d <= src && src + 2 < a.Length && InPlace(a[..], was, d, done)
    modifies a
    ensures ok <==> HexValue(old(a[src + 1])) != -1 && HexValue(old(a[src + 2])) != -1
    ensures ok ==> more == done + [HexValue(old(a[src + 1])) * 16 + HexValue(old(a[src + 2]))]
    ensures if ok then InPlace(a[..], was, d + 1, more) else SameFrom(a[..], was, d + 1)
  {
    hide HexValue;
    Behind(a[..], was, d, done);
    more := done;
    var rc := HexValue(a[src + 1]);
    if rc == -1 {
      return false, more;
    }
    a[d] := rc * 16;
    rc := HexValue(a[src + 2]);
    if rc == -1 {
      return false, more;
    }
    a[d] := a[d] + rc;
    more := done + [a[d]];
    return true, more;
  }

  lemma Whole(text: seq<Byte>)
    ensures Midway(text, 0, [])
  {
    assert text[0..] == text ;
  }

  lemma Finished(text: seq<Byte>, done: seq<Byte>)
    requires Midway(text, |text|, done)
    ensures WellEscaped(text) && Decode(text) == done
  {
    assert text[|text|..] == [] && done + [] == done;
  }

  lemma PlainStep(text: seq<Byte>, src: nat, done: seq<Byte>)
    requires src < |text| && text[src] != PERCENT && Midway(text, src, done)
    ensures Midway(text, src + 1, done + [text[src]])
  {
    hide WellEscaped, Decode;
    Unfold(text, src);
    var c := text[src];
    assert WellEscaped(text) ==> done + ([c] + Decode(text[src + 1..])) == (done + [c]) + Decode(text[src + 1..]);
  }

  /** A '%' in the last place. */
  lemma CutOff(text: seq<Byte>, src: nat, done: seq<Byte>)
    requires src + 1 == |text| && text[src] == PERCENT && Midway(text, src, done)
    ensures !WellEscaped(text)
  {
    Unfold(text, src);
  }

  lemma Unfold(s: seq<Byte>, i: nat)
    requires i < |s|
    ensures s[i] != PERCENT ==> WellEscaped(s[i..]) == WellEscaped(s[i + 1..])
    ensures s[i] != PERCENT && WellEscaped(s[i..]) ==> Decode(s[i..]) == [s[i]] + Decode(s[i + 1..])
    ensures s[i] == PERCENT ==>
              (WellEscaped(s[i..]) <==>
               i + 2 < |s| && HexValue(s[i + 1]) != -1 && HexValue(s[i + 2]) != -1 && WellEscaped(s[i + 3..]))
    ensures s[i] == PERCENT && WellEscaped(s[i..]) ==>
              Decode(s[i..]) == [HexValue(s[i + 1]) * 16 + HexValue(s[i + 2])] + Decode(s[i + 3..])
  {
    var t := s[i..];
    assert t[0] == s[i] && t[1..] == s[i + 1..];
    if i + 2 < |s| {
      assert t[1] == s[i + 1] && t[2] == s[i + 2] && t[3..] == s[i + 3..];
    }
  }

  /** The terminator is no hex digit, so testing src + 2 > n is enough. */
  lemma EscapeStep(was: seq<Byte>, n: nat, src: nat, done: seq<Byte>)
    requires IsText(was, n) && src + 2 <= n && was[src] == PERCENT && Midway(was[..n], src, done)
    ensures if HexValue(was[src + 1]) != -1 && HexValue(was[src + 2]) != -1
            then src + 3 <= n
                 && Midway(was[..n], src + 3, done + [HexValue(was[src + 1]) * 16 + HexValue(was[src + 2])])
            else !WellEscaped(was[..n])
  {
    hide WellEscaped, Decode;
    var text := was[..n];
    Unfold(text, src);
    if HexValue(was[src + 1]) != -1 && HexValue(was[src + 2]) != -1 {
      var b := HexValue(was[src + 1]) * 16 + HexValue(was[src + 2]);
      assert WellEscaped(text) ==> done + ([b] + Decode(text[src + 3..])) == (done + [b]) + Decode(text[src + 3..]);
    }
  }

  // ---- percent-encoding, section 2.1 of RFC 3986 ----

  /** How one byte is written: as itself, or escaped with digits in either case. */
  datatype Form = AsIs | Escaped(upperHi: bool, upperLo: bool)

  function HexDigit(v: int, upper: bool): (c: Byte)
    requires 0 <= v < 16
    ensures HexValue(c) == v
  {
    if v < 10 then 48 + v else if upper then 65 + v - 10 else 97 + v - 10
  }

  function EncodeByte(b: Byte, f: Form): seq<Byte> {
    match f
    case AsIs => [b]
    case Escaped(hi, lo) => [37, HexDigit(b / 16, hi), HexDigit(b % 16, lo)]
  }

  /** A '%' must be escaped; anything else may be. */
  predicate Permitted(t: seq<Byte>, forms: seq<Form>) {
    |forms| == |t| && forall i :: 0 <= i < |t| ==> t[i] == 37 ==> forms[i] != AsIs
  }

  function Encode(t: seq<Byte>, forms: seq<Form>): seq<Byte>
    requires |forms| == |t|
  {
    if t == [] then [] else EncodeByte(t[0], forms[0]) + Encode(t[1..], forms[1..])
  }

  /** Decoding undoes every percent-encoding of a string. */
  lemma {:induction false} EncodeDecode(t: seq<Byte>, forms: seq<Form>)
    requires Permitted(t, forms)
    ensures WellEscaped(Encode(t, forms)) && Decode(Encode(t, forms)) == t
    decreases |t|
  {
    hide HexDigit, HexValue;
    if t != [] {
      EncodeDecode(t[1..], forms[1..]);
      var rest := Encode(t[1..], forms[1..]);
      var s := EncodeByte(t[0], forms[0]) + rest;
      if forms[0] == AsIs {
        assert s[1..] == rest;
      } else {
        assert s[3..] == rest;
      }
      assert t == [t[0]] + t[1..];
    }
  }

  // ---- nothing else is accepted ----

  /** The digits of RFC 3986 in either case, and no other character. */
  lemma HexDigitsOnly(c: Byte)
    ensures IsHex(c) <==> 48 <= c <= 57 || 65 <= c <= 70 || 97 <= c <= 102
  {
  }

  lemma DigitBack(c: Byte) returns (upper: bool)
    requires IsHex(c)
    ensures HexDigit(HexValue(c), upper) == c
  {
    upper := c < 97;
  }

  /** Every text that unescape accepts is a percent-encoding of its result. */
  lemma {:induction false} DecodeEncode(s: seq<Byte>) returns (forms: seq<Form>)
    requires WellEscaped(s)
    ensures Permitted(Decode(s), forms) && Encode(Decode(s), forms) == s
    decreases |s|
  {
    hide HexDigit, HexValue;
    if s == [] {
      forms := [];
    } else if s[0] != PERCENT {
      var rest := DecodeEncode(s[1..]);
      forms := [AsIs] + rest;
      Encoded(s[0], AsIs, Decode(s[1..]), rest);
      assert s == [s[0]] + s[1..];
    } else {
      var rest := DecodeEncode(s[3..]);
      var hi := DigitBack(s[1]);
      var lo := DigitBack(s[2]);
      var b := HexValue(s[1]) * 16 + HexValue(s[2]);
      forms := [Escaped(hi, lo)] + rest;
      Encoded(b, Escaped(hi, lo), Decode(s[3..]), rest);
      Nibbles(HexValue(s[1]), HexValue(s[2]));
      assert s == [PERCENT, s[1], s[2]] + s[3..];
    }
  }

  lemma Encoded(b: Byte, f: Form, t: seq<Byte>, forms: seq<Form>)
    requires Permitted(t, forms) && (b == PERCENT ==> f != AsIs)
    ensures Permitted([b] + t, [f] + forms) && Encode([b] + t, [f] + forms) == EncodeByte(b, f) + Encode(t, forms)
  {
    hide EncodeByte;
    assert ([b] + t)[1..] == t && ([f] + forms)[1..] == forms;
  }

  lemma Nibbles(hi: nat, lo: nat)
    requires hi < 16 && lo < 16
    ensures (hi * 16 + lo) / 16 == hi && (hi * 16 + lo) % 16 == lo
  {
  }

  /** Two digits, in either case, are a number of base 16. */
  lemma TwoDigits(hi: nat, lo: nat, x: Byte, y: Byte)
    requires hi < 16 && x in {Text("0123456789abcdef")[hi], Text("0123456789ABCDEF")[hi]}
    requires lo < 16 && y in {Text("0123456789abcdef")[lo], Text("0123456789ABCDEF")[lo]}
    ensures WellEscaped([37, x, y]) && Decode([37, x, y]) == [16 * hi + lo]
  {
    DigitOrder(hi);
    DigitOrder(lo);
    hide Text, HexValue;
    assert [37, x, y][3..] == [];
  }

  lemma DigitOrder(v: nat)
    requires v < 16
    ensures HexValue(Text("0123456789abcdef")[v]) == v == HexValue(Text("0123456789ABCDEF")[v])
  {
  }
}
