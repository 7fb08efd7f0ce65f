/** The multipart stream of the HTTP output, and its round trip through the extractor. */
module Stream {
  import opened Words
  import opened Wrappers
  import opened Matcher
  import opened Extractor

  // ---- what send_stream writes ----

  const CRLF: seq<Byte> := [13, 10]

  /** printf's digits of n. */
  function Digits(n: nat): (t: seq<Byte>)
    ensures |t| > 0 && forall i :: 0 <= i < |t| ==> 48 <= t[i] <= 57
  {
    if n < 10 then [48 + n] else Digits(n / 10) + [48 + n % 10]
  }

  /** %d */
  function Decimal(n: int): seq<Byte> { if n < 0 then [45] + Digits(-n) else Digits(n) }

  function Padded(t: seq<Byte>, width: nat): (r: seq<Byte>)
    ensures EndsWith(r, t)
    ensures forall i :: 0 <= i < |r| - |t| ==> r[i] == 48
  {
    if |t| >= width then t else seq(width - |t|, _ => 48) + t
  }

  /** %06d */
  function Decimal06(n: int): seq<Byte> {
    if n < 0 then [45] + Padded(Digits(-n), 5) else Padded(Digits(n), 6)
  }

  function PartHeader(size: nat, sec: int, usec: int): seq<Byte> {
    Text("Content-Type: image/jpeg") + Text("\r\nContent-Length: ") + Decimal(size)
    + Text("\r\nX-Timestamp: ") + Decimal(sec) + Text(".") + Decimal06(usec) + Text("\r\n\r\n")
  }

  /** The writes of one pass of the loop. */
  function Part(frame: seq<Byte>, sec: int, usec: int): seq<Byte> {
    PartHeader(|frame|, sec, usec) + frame + (CRLF + BOUNDARY + CRLF)
  }

  function Parts(frames: seq<seq<Byte>>, secs: seq<int>, usecs: seq<int>): seq<Byte>
    requires |frames| == |secs| == |usecs|
  {
    if frames == [] then [] else Part(frames[0], secs[0], usecs[0]) + Parts(frames[1..], secs[1..], usecs[1..])
  }

  /** The loop of send_stream after the response head, for the frames it gets hold of. */
  method SendParts(frames: seq<seq<Byte>>, secs: seq<int>, usecs: seq<int>) returns (written: seq<Byte>)
    requires |frames| == |secs| == |usecs|
    ensures written == Parts(frames, secs, usecs)
  {
    hide Part;
    written := [];
    var i := 0;
    while i < |frames|
      invariant i <= |frames|
      invariant written + Parts(frames[i..], secs[i..], usecs[i..]) == Parts(frames, secs, usecs)
    {
      ghost var rest := Parts(frames[i..][1..], secs[i..][1..], usecs[i..][1..]);
      assert frames[i..][1..] == frames[i + 1..];
      assert secs[i..][1..] == secs[i + 1..] && usecs[i..][1..] == usecs[i + 1..];
      var part := Part(frames[i], secs[i], usecs[i]);
      assert written + (part + rest) == (written + part) + rest;
      written := written + part;
      i := i + 1;
    }
    assert written + [] == written;
  }

  // ---- what a part says ----

  /** With a minus sign or without. */
  function SignedNumber(t: seq<Byte>): int { if t != [] && t[0] == 45 then -Number(t[1..]) else Number(t) }

  lemma {:induction false} DigitsNumber(n: nat)
    ensures Number(Digits(n)) == n
    ensures if n == 0 then Digits(n) == [48] else Digits(n)[0] != 48
  {
    if n < 10 {
      assert [48 + n][..0] == [];
    } else {
      DigitsNumber(n / 10);
      assert Digits(n)[..|Digits(n)| - 1] == Digits(n / 10);
    }
  }

  lemma {:induction false} LeadingZeros(t: seq<Byte>, k: nat)
    ensures Number(seq(k, _ => 48) + t) == Number(t)
    decreases |t|, k
  {
    var z: seq<Byte> := seq(k, _ => 48);
    if t != [] {
      LeadingZeros(t[..|t| - 1], k);
      assert (z + t)[..|z + t| - 1] == z + t[..|t| - 1];
    } else if k > 0 {
      LeadingZeros([], k - 1);
      assert z + [] == z && z[..k - 1] == seq(k - 1, _ => 48) && seq(k - 1, _ => 48) + [] == z[..k - 1];
    }
  }

  lemma PaddedNumber(t: seq<Byte>, width: nat)
    ensures Number(Padded(t, width)) == Number(t) && |Padded(t, width)| >= width && |Padded(t, width)| >= |t|
  {
    if |t| < width {
      LeadingZeros(t, width - |t|);
    }
  }

  predicate Digital(t: seq<Byte>) { |t| > 0 && forall i :: 0 <= i < |t| ==> 48 <= t[i] <= 57 || t[i] == 45 }

  /** %d and %06d show their number, the second with at least six characters. */
  lemma DecimalNumber(n: int)
    ensures SignedNumber(Decimal(n)) == n && Digital(Decimal(n))
    ensures SignedNumber(Decimal06(n)) == n && Digital(Decimal06(n)) && |Decimal06(n)| >= 6
  {
    hide Digits, Number;
    var d := Digits(Abs(n));
    DigitsNumber(Abs(n));
    PaddedNumber(d, if n < 0 then 5 else 6);
    if n < 0 {
      assert ([45] + d)[1..] == d && ([45] + Padded(d, 5))[1..] == Padded(d, 5);
    }
  }

  /** A part in full: its type, the frame's length in decimal, the seconds and, behind a dot, the microseconds in
      at least six digits, an empty line, the frame, and the boundary on a line of its own. */
  lemma PartSays(frame: seq<Byte>, sec: int, usec: int)
    returns (length: seq<Byte>, seconds: seq<Byte>, micros: seq<Byte>)
    ensures Part(frame, sec, usec) ==
            Text("Content-Type: image/jpeg\r\n") + Text("Content-Length: ") + length + Text("\r\n")
            + Text("X-Timestamp: ") + seconds + Text(".") + micros + Text("\r\n\r\n")
            + frame + Text("\r\n--boundarydonotcross\r\n")
    ensures 13 !in length && SignedNumber(length) == |frame|
    ensures 46 !in seconds && SignedNumber(seconds) == sec
    ensures 13 !in micros && SignedNumber(micros) == usec && |micros| >= 6
  {
    hide Text, Decimal, Decimal06, SignedNumber;
    length, seconds, micros := Decimal(|frame|), Decimal(sec), Decimal06(usec);
    DecimalNumber(|frame|);
    DecimalNumber(sec);
    DecimalNumber(usec);
    LengthLine();
    StampLine();
    EndLine();
  }

  lemma LengthLine()
    ensures Text("Content-Type: image/jpeg") + Text("\r\nContent-Length: ")
      == Text("Content-Type: image/jpeg\r\n") + Text("Content-Length: ")
  {
  }

  lemma StampLine()
    ensures Text("\r\nX-Timestamp: ") == Text("\r\n") + Text("X-Timestamp: ")
  {
  }

  lemma EndLine()
    ensures CRLF + BOUNDARY + CRLF == Text("\r\n--boundarydonotcross\r\n")
  {
  }

  // ---- when the four-byte mask can fire ----

  /** How much of CR LF CR the last three bytes are a superset of. */
  datatype Seen = Seen(cr: bool, crLf: bool, crLfCr: bool)

  const CLEAN: Seen := Seen(false, false, false)

  function SeenOf(last: nat): Seen {
    Seen(HasCr(last), HasCr(last / 256) && HasLf(last),
         HasCr(last / 0x1_0000) && HasLf(last / 256) && HasCr(last))
  }

  function After(w: Seen, b: Byte): Seen { Seen(HasCr(b), w.cr && HasLf(b), w.crLf && HasCr(b)) }

  predicate Fires(w: Seen, b: Byte) { w.crLfCr && HasLf(b) }

  lemma PushSeen(last: nat, b: Byte, signedChar: bool)
    requires b < 128
    ensures SeenOf(Push(last, b, signedChar)) == After(SeenOf(last), b)
    ensures IsCrlfCrlf(Push(last, b, signedChar)) <==> Fires(SeenOf(last), b)
  {
    hide IsCrlf;
    var now := Push(last, b, signedChar);
    CrlfBits(now);
    CrlfBits(now / 0x1_0000);
    ShiftedBytes(last, b);
  }

  lemma NibbleDigits(a: int)
    ensures var r := a % 16;
            a / 8 % 2 == r / 8 % 2 && a / 4 % 2 == r / 4 % 2 && a / 2 % 2 == r / 2 % 2 && a % 2 == r % 2
  {
    var q, r := a / 16, a % 16;
    assert a / 8 == 2 * q + r / 8;
    EvenPart(q, r / 8);
    assert a / 4 == 2 * (2 * q) + r / 4;
    EvenPart(2 * q, r / 4);
    assert a / 2 == 2 * (4 * q) + r / 2;
    EvenPart(4 * q, r / 2);
    assert a == 2 * (8 * q) + r;
    EvenPart(8 * q, r);
  }

  lemma EvenPart(q: int, r: int)
    ensures (2 * q + r) % 2 == r % 2
  {
  }

  predicate CrNibble(n: int) { n == 13 || n == 15 }

  predicate LfNibble(n: int) { n == 10 || n == 11 || n == 14 || n == 15 }

  /** Only the low four bits matter. */
  lemma LowBits(a: int)
    ensures HasCr(a) <==> CrNibble(a % 16)
    ensures HasLf(a) <==> LfNibble(a % 16)
  {
    NibbleDigits(a);
    SmallNibble(a % 16);
  }

  lemma SmallNibble(r: int)
    requires 0 <= r < 16
    ensures HasCr(r) <==> CrNibble(r)
    ensures HasLf(r) <==> LfNibble(r)
  {
  }

  lemma SameNibble(a: int, b: int)
    requires a % 16 == b % 16
    ensures HasCr(a) == HasCr(b) && HasLf(a) == HasLf(b)
  {
    LowBits(a);
    LowBits(b);
  }

  lemma ShiftedBytes(last: nat, b: Byte)
    ensures var now := (last % 0x100_0000) * 256 + b;
            && HasCr(now) == HasCr(b) && HasLf(now) == HasLf(b)
            && HasCr(now / 256) == HasCr(last) && HasLf(now / 256) == HasLf(last)
            && HasCr(now / 0x1_0000) == HasCr(last / 256) && HasLf(now / 0x1_0000) == HasLf(last / 256)
            && HasCr(now / 0x1_0000 / 256) == HasCr(last / 0x1_0000)
  {
    hide HasCr, HasLf;
    var low := last % 0x100_0000;
    var now := low * 256 + b;
    ByteShift(low, b);
    LowBytes(last);
    SameNibble(now, b);
    SameNibble(low, last);
    SameNibble(low / 256, last / 256);
    SameNibble(low / 0x1_0000, last / 0x1_0000);
  }

  lemma ByteShift(low: nat, b: Byte)
    ensures var now := low * 256 + b;
            && now % 16 == b % 16 && now / 256 == low
            && now / 0x1_0000 == low / 256 && now / 0x1_0000 / 256 == low / 0x1_0000
  {
  }

  lemma LowBytes(last: nat)
    ensures var low := last % 0x100_0000;
            && low % 16 == last % 16 && low / 256 % 16 == last / 256 % 16
            && low / 0x1_0000 % 16 == last / 0x1_0000 % 16
  {
    var low, high := last % 0x100_0000, last / 0x100_0000;
    assert last == low + 0x100_0000 * high;
    assert last / 256 == low / 256 + 0x1_0000 * high;
    assert last / 0x1_0000 == low / 0x1_0000 + 256 * high;
    AddMultiple(low, 0x10_0000 * high);
    AddMultiple(low / 256, 0x1000 * high);
    AddMultiple(low / 0x1_0000, 16 * high);
  }

  lemma AddMultiple(a: nat, k: nat)
    ensures (a + 16 * k) % 16 == a % 16
  {
  }

  /** The state after the bytes t, or None when the mask fires in them. */
  function Watch(w: Seen, t: seq<Byte>): Option<Seen>
    decreases |t|
  {
    if t == [] then Some(w)
    else if Fires(w, t[0]) then None
    else Watch(After(w, t[0]), t[1..])
  }

  predicate Ascii(t: seq<Byte>) { forall i :: 0 <= i < |t| ==> t[i] < 128 }

  /** A text that starts and ends with nothing seen, and fires nowhere. */
  predicate Plain(t: seq<Byte>) { Ascii(t) && Watch(CLEAN, t) == Some(CLEAN) }

  lemma {:induction false} WatchConcat(w: Seen, a: seq<Byte>, b: seq<Byte>)
    ensures Watch(w, a + b) == if Watch(w, a).Some? then Watch(Watch(w, a).value, b) else None
    decreases |a|
  {
    if a == [] {
      assert a + b == b;
    } else if !Fires(w, a[0]) {
      WatchConcat(After(w, a[0]), a[1..], b);
      assert (a + b)[1..] == a[1..] + b;
    }
  }

  lemma PlainConcat(a: seq<Byte>, b: seq<Byte>)
    requires Plain(a) && Plain(b)
    ensures Plain(a + b)
  {
    WatchConcat(CLEAN, a, b);
  }

  predicate Window(t: seq<Byte>, i: int)
    requires 3 <= i < |t|
  {
    HasCr(t[i - 3]) && HasLf(t[i - 2]) && HasCr(t[i - 1]) && HasLf(t[i])
  }

  function SeenAt(t: seq<Byte>, k: nat): Seen
    requires k <= |t|
  {
    Seen(k >= 1 && HasCr(t[k - 1]), k >= 2 && HasCr(t[k - 2]) && HasLf(t[k - 1]),
         k >= 3 && HasCr(t[k - 3]) && HasLf(t[k - 2]) && HasCr(t[k - 1]))
  }

  lemma {:induction false} NoWindow(t: seq<Byte>, k: nat)
    requires k <= |t| && forall i :: 3 <= i < |t| ==> !Window(t, i)
    ensures Watch(CLEAN, t[..k]) == Some(SeenAt(t, k))
    decreases k
  {
    hide HasCr, HasLf;
    if k > 0 {
      NoWindow(t, k - 1);
      assert t[..k] == t[..k - 1] + [t[k - 1]];
      WatchConcat(CLEAN, t[..k - 1], [t[k - 1]]);
      var w := SeenAt(t, k - 1);
      assert k >= 4 ==> !Window(t, k - 1);
      assert Watch(w, [t[k - 1]]) == Watch(After(w, t[k - 1]), []);
    }
  }

  lemma NoWindowPlain(t: seq<Byte>)
    requires Ascii(t) && |t| > 0 && !CrNibble(t[|t| - 1] % 16) && !LfNibble(t[|t| - 1] % 16)
    requires forall i {:trigger t[i]} :: 3 <= i < |t| ==>
               !LfNibble(t[i] % 16) || !CrNibble(t[i - 1] % 16) || !LfNibble(t[i - 2] % 16) || !CrNibble(t[i - 3] % 16)
    ensures Plain(t)
  {
    hide HasCr, HasLf;
    LowBits(t[|t| - 1]);
    forall i | 3 <= i < |t|
      ensures !Window(t, i)
    {
      LowBits(t[i]);
      LowBits(t[i - 1]);
      LowBits(t[i - 2]);
      LowBits(t[i - 3]);
    }
    NoWindow(t, |t|);
    assert t[..|t|] == t;
  }

  lemma TypeText()
    ensures Plain(CRLF + Text("Content-Type: image/jpeg"))
  {
    hide Plain;
    ContentWord();
    TypeWord();
    ImageWord();
    JpegWord();
    var p := Text("\r\nContent") + Text("-Type");
    PlainConcat(Text("\r\nContent"), Text("-Type"));
    PlainConcat(p, Text(": image"));
    PlainConcat(p + Text(": image"), Text("/jpeg"));
    assert CRLF + Text("Content-Type: image/jpeg") == p + Text(": image") + Text("/jpeg");
  }

  lemma LengthText()
    ensures Plain(Text("\r\nContent-Length: "))
  {
    hide Plain;
    ContentWord();
    LengthWord();
    PlainConcat(Text("\r\nContent"), Text("-Length: "));
    assert Text("\r\nContent-Length: ") == Text("\r\nContent") + Text("-Length: ");
  }

  lemma StampText()
    ensures Plain(Text("\r\nX-Timestamp: "))
  {
    hide Plain;
    TimeWord();
    StampWord();
    PlainConcat(Text("\r\nX-Time"), Text("stamp: "));
    assert Text("\r\nX-Timestamp: ") == Text("\r\nX-Time") + Text("stamp: ");
  }

  lemma ContentWord()
    ensures Plain(Text("\r\nContent"))
  {
    hide Plain, HasCr, HasLf;
    NoWindowPlain(Text("\r\nContent"));
  }

  lemma TypeWord()
    ensures Plain(Text("-Type"))
  {
    hide Plain, HasCr, HasLf;
    NoWindowPlain(Text("-Type"));
  }

  lemma ImageWord()
    ensures Plain(Text(": image"))
  {
    hide Plain, HasCr, HasLf;
    NoWindowPlain(Text(": image"));
  }

  lemma JpegWord()
    ensures Plain(Text("/jpeg"))
  {
    hide Plain, HasCr, HasLf;
    NoWindowPlain(Text("/jpeg"));
  }

  lemma LengthWord()
    ensures Plain(Text("-Length: "))
  {
    hide Plain, HasCr, HasLf;
    NoWindowPlain(Text("-Length: "));
  }

  lemma TimeWord()
    ensures Plain(Text("\r\nX-Time"))
  {
    hide Plain, HasCr, HasLf;
    NoWindowPlain(Text("\r\nX-Time"));
  }

  lemma StampWord()
    ensures Plain(Text("stamp: "))
  {
    hide Plain, HasCr, HasLf;
    NoWindowPlain(Text("stamp: "));
  }

  lemma DotText()
    ensures Plain(Text("."))
  {
    WatchOne(46);
    assert Text(".") == [46];
  }

  lemma WatchOne(b: Byte)
    requires b < 128 && !HasCr(b)
    ensures Plain([b])
  {
    assert Watch(CLEAN, [b]) == Watch(After(CLEAN, b), []);
  }

  /** Digits never carry CR's or LF's bits, so any number leaves nothing seen. */
  lemma {:induction false} DigitsPlain(t: seq<Byte>, w: Seen)
    requires |t| > 0 && forall i :: 0 <= i < |t| ==> 48 <= t[i] <= 57
    ensures Watch(w, t) == Some(CLEAN)
    decreases |t|
  {
    NoMaskInDigit(t[0]);
    if |t| > 1 {
      DigitsPlain(t[1..], After(w, t[0]));
    } else {
      assert Watch(w, t) == Watch(After(w, t[0]), []);
    }
  }

  lemma NoMaskInDigit(b: Byte)
    requires 48 <= b <= 57
    ensures !HasCr(b) && !HasLf(b)
  {
  }

  lemma DecimalPlain(n: int)
    ensures Plain(Decimal(n)) && Plain(Decimal06(n))
  {
    hide Digits, HasCr, Padded;
    var d := Digits(Abs(n));
    SignedPlain(n < 0, d);
    SignedPlain(n < 0, Padded(d, if n < 0 then 5 else 6));
  }

  lemma SignedPlain(minus: bool, d: seq<Byte>)
    requires |d| > 0 && forall i :: 0 <= i < |d| ==> 48 <= d[i] <= 57
    ensures Plain(if minus then [45] + d else d)
  {
    DigitsPlain(d, CLEAN);
    if minus {
      DigitsPlain(d, After(CLEAN, 45));
      assert ([45] + d)[1..] == d;
    }
  }

  // ---- header runs ----

  /** While the mask does not fire, only last_four_bytes and the Content-Length matcher move. */
  lemma {:induction false} HeaderRun(m: Parser, t: seq<Byte>, signedChar: bool)
    requires Sane(m) && m.header && Ascii(t) && Watch(SeenOf(m.last), t).Some?
    ensures var r := Run(m, t, signedChar);
            && r.header && SeenOf(r.last) == Watch(SeenOf(m.last), t).value
            && r.buffer == m.buffer && r.images == m.images && r.bd == m.bd
    decreases |t|
  {
    hide HeaderStep, IsCrlfCrlf, SeenOf, Push;
    if t != [] {
      PushSeen(m.last, t[0], signedChar);
      HeaderRun(Step(m, t[0], signedChar), t[1..], signedChar);
    }
  }

  /** The part header puts the extractor into an empty content, whatever the numbers in it. */
  lemma PartHeaderRun(images: Deliveries, size: nat, sec: int, usec: int, signedChar: bool)
    ensures var r := Run(Reset(images), CRLF + PartHeader(size, sec, usec), signedChar);
            !r.header && r.buffer == [] && r.bd == 0 && r.images == images
  {
    hide Run, Text, Decimal, Decimal06, Plain;
    TypeText();
    LengthText();
    StampText();
    DotText();
    DecimalPlain(size);
    DecimalPlain(sec);
    DecimalPlain(usec);
    var p := Text("Content-Type: image/jpeg");
    p := Appended(p, Text("\r\nContent-Length: "));
    p := Appended(p, Decimal(size));
    p := Appended(p, Text("\r\nX-Timestamp: "));
    p := Appended(p, Decimal(sec));
    p := Appended(p, Text("."));
    p := Appended(p, Decimal06(usec));
    assert CRLF + (p + Text("\r\n\r\n")) == (CRLF + p) + Text("\r\n\r\n");
    BlankLine(images, CRLF + p, signedChar);
  }

  lemma Appended(p: seq<Byte>, q: seq<Byte>) returns (r: seq<Byte>)
    requires Plain(CRLF + p) && Plain(q)
    ensures r == p + q && Plain(CRLF + r)
  {
    hide Plain;
    r := p + q;
    PlainConcat(CRLF + p, q);
    assert CRLF + (p + q) == (CRLF + p) + q;
  }

  /** A blank line after plain text ends the header. */
  lemma BlankLine(images: Deliveries, t: seq<Byte>, signedChar: bool)
    requires Plain(t)
    ensures var r := Run(Reset(images), t + Text("\r\n\r\n"), signedChar);
            !r.header && r.buffer == [] && r.bd == 0 && r.images == images
  {
    hide Run, HeaderStep, IsCrlfCrlf, Push, Watch;
    assert SeenOf(0) == CLEAN;
    var three: seq<Byte> := [13, 10, 13];
    BlankLineWatch();
    WatchConcat(CLEAN, t, three);
    HeaderRun(Reset(images), t + three, signedChar);
    assert Text("\r\n\r\n") == three + [10];
    assert t + Text("\r\n\r\n") == (t + three) + [10];
    RunOne(Reset(images), t + three, 10, signedChar);
    var m := Run(Reset(images), t + three, signedChar);
    PushSeen(m.last, 10, signedChar);
  }

  lemma BlankLineWatch()
    ensures Watch(CLEAN, [13, 10, 13]) == Some(Seen(true, false, true)) && Fires(Seen(true, false, true), 10)
  {
    var t: seq<Byte> := [13, 10, 13];
    assert t[1..] == [10, 13] && t[1..][1..] == [13] && t[1..][1..][1..] == [];
    assert Watch(After(After(After(CLEAN, 13), 10), 13), []) == Some(Seen(true, false, true));
  }

  lemma RunOne(m: Parser, s: seq<Byte>, b: Byte, signedChar: bool)
    requires Sane(m)
    ensures Run(m, s + [b], signedChar) == Step(Run(m, s, signedChar), b, signedChar)
  {
    hide Step, Run;
    assert (s + [b])[..|s|] == s && (s + [b])[..|s| + 1] == s + [b];
    RunSnoc(m, s + [b], |s|, signedChar);
  }

  // ---- content runs ----

  function Content(last: nat, cl: nat, images: Deliveries): Parser { Parser(false, last, cl, 0, [], images) }

  /** Without a match and with room, content bytes are stored one by one. */
  lemma {:induction false} ContentRun(last: nat, cl: nat, images: Deliveries, x: seq<Byte>, signedChar: bool)
    requires cl < |CONTENT_LENGTH| && |x| <= LIMIT && Silent(BOUNDARY, x)
    ensures Run(Content(last, cl, images), x, signedChar)
      == Parser(false, last, cl, Live(BOUNDARY, x), x, images)
    decreases |x|
  {
    hide HeaderStep, Text, Run;
    if x == [] {
      RunNone(Content(last, cl, images), signedChar);
    } else {
      var a, b := x[..|x| - 1], x[|x| - 1];
      assert x == a + [b];
      SilentPrefix(x, |x| - 1);
      ContentRun(last, cl, images, a, signedChar);
      RunOne(Content(last, cl, images), a, b, signedChar);
      assert x[..|x|] == x;
    }
  }

  lemma SilentPrefix(x: seq<Byte>, n: nat)
    requires n <= |x| && Silent(BOUNDARY, x)
    ensures Silent(BOUNDARY, x[..n])
  {
    hide Text, Live;
    forall k | 0 <= k <= n
      ensures State(BOUNDARY, x[..n][..k]) != |BOUNDARY|
    {
      assert x[..n][..k] == x[..k];
    }
  }

  /** The first match in the content, if the buffer has room for it, ends the part. */
  lemma FirstMatch(last: nat, cl: nat, images: Deliveries, x: seq<Byte>, signedChar: bool)
    requires cl < |CONTENT_LENGTH| && 0 < |x| <= LIMIT
    requires Silent(BOUNDARY, x[..|x| - 1]) && State(BOUNDARY, x) == |BOUNDARY|
    ensures Run(Content(last, cl, images), x, signedChar) == Reset(images + [Cut(x)])
  {
    hide HeaderStep, Text, Run, Cut;
    var a, b := x[..|x| - 1], x[|x| - 1];
    assert x == a + [b];
    ContentRun(last, cl, images, a, signedChar);
    RunOne(Content(last, cl, images), a, b, signedChar);
  }

  lemma BoundaryText()
    ensures |BOUNDARY| == 20 && 13 !in BOUNDARY && 10 !in BOUNDARY
  {
    assert forall i :: 0 <= i < 20 ==> BOUNDARY[i] != 13 && BOUNDARY[i] != 10;
  }

  /** After a silent frame the delimiter stays silent up to its last byte, and matches there. */
  lemma DelimiterMatches(frame: seq<Byte>)
    requires Silent(BOUNDARY, frame)
    ensures State(BOUNDARY, frame + CRLF + BOUNDARY) == |BOUNDARY|
    ensures Silent(BOUNDARY, (frame + CRLF + BOUNDARY)[..|frame| + 21]) && |BOUNDARY| == 20
  {
    hide Text, State, Live;
    BoundaryText();
    var x, n := frame + CRLF + BOUNDARY, |frame| + 21;
    var y := x[..n];
    assert frame + CRLF == (frame + [13]) + [10];
    FoundAfterForeign(BOUNDARY, frame + [13], 10);
    forall k | 0 <= k <= n
      ensures State(BOUNDARY, y[..k]) != |BOUNDARY|
    {
      assert y[..k] == x[..k];
      if k <= |frame| {
        assert x[..k] == frame[..k];
      } else if k == |frame| + 1 {
        assert x[..k] == frame + [13];
        ForeignByte(frame, 13);
      } else {
        assert x[..k] == (frame + [13] + [10]) + BOUNDARY[..k - |frame| - 2];
        ForeignByte(frame + [13], 10);
        FollowPattern(BOUNDARY, frame + [13] + [10], k - |frame| - 2);
        assert k == |frame| + 2 ==> x[..k] == frame + [13] + [10];
      }
    }
  }

  lemma ForeignByte(a: seq<Byte>, c: Byte)
    requires |BOUNDARY| == 20 && c !in BOUNDARY
    ensures State(BOUNDARY, a + [c]) == 0 && Live(BOUNDARY, a + [c]) == 0
  {
    hide Text;
    StateSnoc(BOUNDARY, a, c);
  }

  /** A frame comes through, up to its delimiter, exactly when the matcher stays silent in it and it
      fits the buffer together with CRLF and the boundary. */
  lemma FrameDeliveredIff(last: nat, cl: nat, images: Deliveries, frame: seq<Byte>, signedChar: bool)
    requires cl < |CONTENT_LENGTH|
    ensures var r := Run(Content(last, cl, images), frame + CRLF + BOUNDARY, signedChar);
            && (r.images == images + [Image(frame)] <==> Silent(BOUNDARY, frame) && |frame| <= 262121)
            && (Silent(BOUNDARY, frame) && |frame| <= 262121 ==> r == Reset(images + [Image(frame)]))
  {
    hide Text, Run, Silent;
    BoundaryText();
    var x := frame + CRLF + BOUNDARY;
    if !Silent(BOUNDARY, frame) {
      LoudFrame(last, cl, images, frame, CRLF + BOUNDARY, signedChar);
      assert frame + (CRLF + BOUNDARY) == x;
    } else {
      DelimiterMatches(frame);
      if |x| <= LIMIT {
        assert x[..|x| - 1] == x[..|frame| + 21];
        FirstMatch(last, cl, images, x, signedChar);
        assert x[..|frame|] == frame;
      } else {
        SilentPrefix(x[..|frame| + 21], LIMIT);
        assert x[..|frame| + 21][..LIMIT] == x[..LIMIT];
        Overfull(last, cl, images, x, signedChar);
      }
    }
  }

  /** More than the buffer holds before any match: nothing is delivered. */
  lemma Overfull(last: nat, cl: nat, images: Deliveries, x: seq<Byte>, signedChar: bool)
    requires cl < |CONTENT_LENGTH| && |x| >= LIMIT && Silent(BOUNDARY, x[..LIMIT])
    ensures Run(Content(last, cl, images), x, signedChar).images == images
  {
    hide Text, Run, Silent;
    ContentRun(last, cl, images, x[..LIMIT], signedChar);
    assert x == x[..LIMIT] + x[LIMIT..];
    RunConcat(Content(last, cl, images), x[..LIMIT], x[LIMIT..], signedChar);
    FullIsAbsorbing(Run(Content(last, cl, images), x[..LIMIT], signedChar), x[LIMIT..], signedChar);
  }

  /** The first callback out of a content comes from the first match, at k, if the buffer holds that much; k is 0
      when there is none. */
  lemma FirstCallback(last: nat, cl: nat, images: Deliveries, x: seq<Byte>, signedChar: bool) returns (k: nat)
    requires cl < |CONTENT_LENGTH|
    ensures k <= |x| && k <= LIMIT
    ensures var r := Run(Content(last, cl, images), x, signedChar);
            if k == 0
            then r.images == images && forall j :: 0 <= j <= |x| && j <= LIMIT ==> State(BOUNDARY, x[..j]) != 20
            else
              && State(BOUNDARY, x[..k]) == 20 && Silent(BOUNDARY, x[..k - 1])
              && |images| < |r.images| && r.images[|images|] == Cut(x[..k])
    ensures |BOUNDARY| == 20
  {
    hide Text, Run, Live, State;
    BoundaryText();
    var m := Content(last, cl, images);
    k := 0;
    if Silent(BOUNDARY, x) {
      if |x| <= LIMIT {
        ContentRun(last, cl, images, x, signedChar);
      } else {
        SilentPrefix(x, LIMIT);
        Overfull(last, cl, images, x, signedChar);
      }
    } else {
      var n := FirstLoud(x);
      if n <= LIMIT {
        k := n;
        var y, rest := x[..k], x[k..];
        assert y[..|y| - 1] == x[..k - 1];
        FirstMatch(last, cl, images, y, signedChar);
        assert x == y + rest;
        RunConcat(m, y, rest, signedChar);
        ImagesGrow(Reset(images + [Cut(y)]), rest, signedChar);
      } else {
        SilentPrefix(x[..n - 1], LIMIT);
        assert x[..n - 1][..LIMIT] == x[..LIMIT];
        Overfull(last, cl, images, x, signedChar);
        forall j | 0 <= j <= LIMIT
          ensures State(BOUNDARY, x[..j]) != 20
        {
          assert x[..j] == x[..LIMIT][..j];
        }
      }
    }
  }

  /** A match inside the frame delivers less than the frame, or nothing. */
  lemma LoudFrame(last: nat, cl: nat, images: Deliveries, frame: seq<Byte>, rest: seq<Byte>, signedChar: bool)
    requires cl < |CONTENT_LENGTH| && !Silent(BOUNDARY, frame) && |BOUNDARY| == 20
    ensures !(images + [Image(frame)] <= Run(Content(last, cl, images), frame + rest, signedChar).images)
  {
    hide Text, Run, Live, State;
    var j := FirstLoud(frame);
    var x := frame + rest;
    var k := FirstCallback(last, cl, images, x, signedChar);
    assert x[..j] == frame[..j];
    if j < k {
      ShorterPrefix(x, k, j);
    }
  }

  lemma ShorterPrefix(x: seq<Byte>, k: nat, j: nat)
    requires j < k <= |x|
    ensures x[..k - 1][..j] == x[..j]
  {
  }

  // ---- a boundary too soon ----

  /** The content starts with the boundary, or has it at its second byte behind something else than a dash. */
  predicate BoundaryTooSoon(x: seq<Byte>) {
    BOUNDARY <= x || (|x| >= 21 && x[0] != 45 && BOUNDARY <= x[1..])
  }

  /** A match ends with the boundary, so it needs twenty bytes. */
  lemma MatchLength(x: seq<Byte>, k: nat)
    requires k <= |x| && State(BOUNDARY, x[..k]) == |BOUNDARY| == 20
    ensures k >= 20 && x[k - 20..k] == BOUNDARY
  {
    hide Text, State;
    StateIsSuffix(BOUNDARY, x[..k]);
    assert BOUNDARY[..20] == BOUNDARY;
    assert x[k - 20..k] == x[..k][k - 20..];
  }

  lemma MatchAt20(x: seq<Byte>)
    requires |x| >= 20 && |BOUNDARY| == 20
    ensures State(BOUNDARY, x[..20]) == 20 <==> BOUNDARY <= x
  {
    hide Text;
    if State(BOUNDARY, x[..20]) == 20 {
      MatchLength(x, 20);
      assert x[0..20] == x[..20];
    }
    if BOUNDARY <= x {
      FoundIffFresh(BOUNDARY, []);
      assert [] + BOUNDARY == x[..20];
    }
  }

  lemma MatchAt21(x: seq<Byte>)
    requires |x| >= 21 && |BOUNDARY| == 20 && BOUNDARY[0] == 45
    ensures State(BOUNDARY, x[..21]) == 20 <==> x[0] != 45 && BOUNDARY <= x[1..]
  {
    hide Text;
    var c := x[0];
    StateSnoc(BOUNDARY, [], c);
    assert [] + [c] == [c];
    FoundIffFresh(BOUNDARY, [c]);
    if State(BOUNDARY, x[..21]) == 20 {
      MatchLength(x, 21);
      assert x[1..21] == x[1..][..20];
      assert [c] + BOUNDARY == x[..21];
    }
    if BOUNDARY <= x[1..] {
      assert [c] + BOUNDARY == x[..21];
    }
  }

  /** The first callback out of a content passes a negative length exactly when the boundary comes too soon. */
  lemma NegativeLengthIff(last: nat, cl: nat, images: Deliveries, x: seq<Byte>, signedChar: bool)
    requires cl < |CONTENT_LENGTH|
    ensures var r := Run(Content(last, cl, images), x, signedChar);
            |r.images| > |images| && r.images[|images|].NegativeLength? <==> BoundaryTooSoon(x)
  {
    hide Text, Run, State, Live;
    var k := FirstCallback(last, cl, images, x, signedChar);
    FirstDash();
    if |x| >= 20 {
      MatchAt20(x);
    }
    if |x| >= 21 {
      MatchAt21(x);
    }
    if k > 0 {
      MatchLength(x, k);
      if k > 20 {
        assert x[..k - 1][..20] == x[..20];
      }
      if k > 21 {
        assert x[..k - 1][..21] == x[..21];
      }
    }
  }

  lemma FirstDash()
    ensures |BOUNDARY| == 20 && BOUNDARY[0] == 45 && BOUNDARY[1] == 45
  {
  }

  /** The boundary alone passes -2. */
  lemma NegativeLengthAt(last: nat, cl: nat, images: Deliveries, signedChar: bool)
    requires cl < |CONTENT_LENGTH|
    ensures Run(Content(last, cl, images), BOUNDARY, signedChar) == Reset(images + [NegativeLength(-2)])
  {
    hide Text, Run, State, Live;
    FirstDash();
    MatchAt20(BOUNDARY);
    assert BOUNDARY[..20] == BOUNDARY;
    forall j | 0 <= j <= 19
      ensures State(BOUNDARY, BOUNDARY[..19][..j]) != 20
    {
      assert BOUNDARY[..19][..j] == BOUNDARY[..j];
      if State(BOUNDARY, BOUNDARY[..j]) == 20 {
        MatchLength(BOUNDARY, j);
      }
    }
    FirstMatch(last, cl, images, BOUNDARY, signedChar);
  }

  /** Behind a dash the boundary is missed: the matcher has taken the dash for the boundary's first byte. */
  lemma MissedBoundary(last: nat, cl: nat, images: Deliveries, signedChar: bool)
    requires cl < |CONTENT_LENGTH|
    ensures Occurs(BOUNDARY, [45] + BOUNDARY) && Deliverable([45] + BOUNDARY)
    ensures Run(Content(last, cl, images), [45] + BOUNDARY, signedChar).images == images
  {
    hide Text, Run, State, Live;
    FirstDash();
    var x := [45] + BOUNDARY;
    assert x[..21] == x && EndsWith(x[..21], BOUNDARY);
    MatchAt20(x);
    MatchAt21(x);
    assert x[1] == 45 && BOUNDARY[2] == 98 by { ThirdLetter(); }
    forall j | 0 <= j <= 21
      ensures State(BOUNDARY, x[..j]) != 20
    {
      if State(BOUNDARY, x[..j]) == 20 {
        MatchLength(x, j);
      }
    }
    ContentRun(last, cl, images, x, signedChar);
  }

  lemma ThirdLetter()
    ensures |BOUNDARY| == 20 && BOUNDARY[2] == 98
  {
  }

  lemma FirstLoud(x: seq<Byte>) returns (k: nat)
    requires !Silent(BOUNDARY, x)
    ensures 0 < k <= |x| && State(BOUNDARY, x[..k]) == |BOUNDARY| && Silent(BOUNDARY, x[..k - 1])
  {
    hide Text, Live;
    BoundaryText();
    k := 1;
    assert x[..0] == [];
    while State(BOUNDARY, x[..k]) != |BOUNDARY|
      invariant 1 <= k <= |x|
      invariant forall i :: 0 <= i < k ==> State(BOUNDARY, x[..i]) != |BOUNDARY|
      decreases |x| - k
    {
      k := k + 1;
    }
    var y := x[..k - 1];
    forall i | 0 <= i <= |y|
      ensures State(BOUNDARY, y[..i]) != |BOUNDARY|
    {
      assert y[..i] == x[..i];
    }
  }

  // ---- the round trip ----

  ghost predicate Deliverable(frame: seq<Byte>) {
    Silent(BOUNDARY, frame) && |frame| <= 262121
  }

  function AsImages(frames: seq<seq<Byte>>): Deliveries {
    seq(|frames|, i requires 0 <= i < |frames| => Image(frames[i]))
  }

  /** From the state just after a boundary: the frames of the parts written come out, in order, and
      nothing else; the extractor ends just after a boundary again, with CRLF taken in. */
  lemma {:induction false} StreamRoundTrip(images: Deliveries, frames: seq<seq<Byte>>, secs: seq<int>, usecs: seq<int>,
                                           signedChar: bool)
    requires |frames| == |secs| == |usecs| && forall i :: 0 <= i < |frames| ==> Deliverable(frames[i])
    ensures Run(Reset(images), CRLF + Parts(frames, secs, usecs), signedChar)
      == Run(Reset(images + AsImages(frames)), CRLF, signedChar)
    decreases |frames|
  {
    hide Run, Deliverable, Part, Text;
    if |frames| == 0 {
      assert CRLF + [] == CRLF && images + AsImages(frames) == images;
    } else {
      var f, fs := frames[0], frames[1..];
      FirstPart(images, f, secs[0], usecs[0], Parts(fs, secs[1..], usecs[1..]), signedChar);
      StreamRoundTrip(images + [Image(f)], fs, secs[1..], usecs[1..], signedChar);
      assert (images + [Image(f)]) + AsImages(fs) == images + AsImages(frames);
    }
  }

  /** The first part is taken off; the CRLF that ends it is the one that starts the next. */
  lemma FirstPart(images: Deliveries, frame: seq<Byte>, sec: int, usec: int, rest: seq<Byte>, signedChar: bool)
    requires Deliverable(frame)
    ensures Run(Reset(images), CRLF + (Part(frame, sec, usec) + rest), signedChar)
      == Run(Reset(images + [Image(frame)]), CRLF + rest, signedChar)
  {
    hide Run, PartHeader, Text, Deliverable;
    var h, x := CRLF + PartHeader(|frame|, sec, usec), frame + CRLF + BOUNDARY;
    PartHeaderRun(images, |frame|, sec, usec, signedChar);
    var m := Run(Reset(images), h, signedChar);
    assert CRLF + (Part(frame, sec, usec) + rest) == h + (x + (CRLF + rest));
    RunConcat(Reset(images), h, x + (CRLF + rest), signedChar);
    RunConcat(m, x, CRLF + rest, signedChar);
    DeliverableComes(m.last, m.cl, images, frame, signedChar);
  }

  lemma DeliverableComes(last: nat, cl: nat, images: Deliveries, frame: seq<Byte>, signedChar: bool)
    requires cl < |CONTENT_LENGTH| && Deliverable(frame)
    ensures Run(Content(last, cl, images), frame + CRLF + BOUNDARY, signedChar) == Reset(images + [Image(frame)])
  {
    hide Run, Text, Silent;
    FrameDeliveredIff(last, cl, images, frame, signedChar);
  }

  /** A frame that is not deliverable never comes out in its place, whatever follows it. */
  lemma FrameFails(last: nat, cl: nat, images: Deliveries, frame: seq<Byte>, rest: seq<Byte>, signedChar: bool)
    requires cl < |CONTENT_LENGTH| && !Deliverable(frame)
    ensures var r := Run(Content(last, cl, images), frame + CRLF + BOUNDARY + rest, signedChar);
            !(images + [Image(frame)] <= r.images)
  {
    hide Text, Run, Silent;
    BoundaryText();
    var x := frame + CRLF + BOUNDARY + rest;
    if !Silent(BOUNDARY, frame) {
      LoudFrame(last, cl, images, frame, CRLF + BOUNDARY + rest, signedChar);
      assert frame + (CRLF + BOUNDARY + rest) == x;
    } else {
      DelimiterMatches(frame);
      var y := frame + CRLF + BOUNDARY;
      SilentPrefix(y[..|frame| + 21], LIMIT);
      assert y[..|frame| + 21][..LIMIT] == x[..LIMIT];
      Overfull(last, cl, images, x, signedChar);
    }
  }

  lemma PartFails(images: Deliveries, frame: seq<Byte>, sec: int, usec: int, rest: seq<Byte>, signedChar: bool)
    requires !Deliverable(frame)
    ensures var r := Run(Reset(images), CRLF + Part(frame, sec, usec) + rest, signedChar);
            !(images + [Image(frame)] <= r.images)
  {
    hide Run, PartHeader, Text, Deliverable;
    var h, x := CRLF + PartHeader(|frame|, sec, usec), frame + CRLF + BOUNDARY + (CRLF + rest);
    PartHeaderRun(images, |frame|, sec, usec, signedChar);
    var m := Run(Reset(images), h, signedChar);
    assert CRLF + Part(frame, sec, usec) + rest == h + x;
    RunConcat(Reset(images), h, x, signedChar);
    FrameFails(m.last, m.cl, images, frame, CRLF + rest, signedChar);
  }

  /** Exactly the frames written come out, if and only if each of them is deliverable. */
  lemma {:induction false} StreamDeliversIff(images: Deliveries, frames: seq<seq<Byte>>, secs: seq<int>,
                                             usecs: seq<int>, signedChar: bool)
    requires |frames| == |secs| == |usecs|
    ensures Run(Reset(images), CRLF + Parts(frames, secs, usecs), signedChar).images == images + AsImages(frames)
      <==> forall i :: 0 <= i < |frames| ==> Deliverable(frames[i])
    decreases |frames|
  {
    hide Run, Deliverable, Part, Text;
    if |frames| == 0 {
      NothingDelivered(images, signedChar);
      assert images + AsImages(frames) == images;
    } else {
      var f, fs := frames[0], frames[1..];
      var rest := Parts(fs, secs[1..], usecs[1..]);
      if Deliverable(f) {
        FirstPart(images, f, secs[0], usecs[0], rest, signedChar);
        StreamDeliversIff(images + [Image(f)], fs, secs[1..], usecs[1..], signedChar);
        assert (images + [Image(f)]) + AsImages(fs) == images + AsImages(frames);
        assert frames == [f] + fs;
      } else {
        PartFails(images, f, secs[0], usecs[0], rest, signedChar);
        assert CRLF + Part(f, secs[0], usecs[0]) + rest == CRLF + (Part(f, secs[0], usecs[0]) + rest);
        assert images + [Image(f)] <= images + AsImages(frames);
      }
    }
  }

  lemma NothingDelivered(images: Deliveries, signedChar: bool)
    ensures Run(Reset(images), CRLF + [], signedChar).images == images
  {
    hide IsCrlf, Push, Text;
    var m := Step(Reset(images), 13, signedChar);
    assert CRLF + [] == CRLF && CRLF[1..] == [10] && [10][1..] == [];
    assert Run(Step(m, 10, signedChar), [], signedChar) == Step(m, 10, signedChar);
  }

  /** In particular frames come through that do not contain the boundary. */
  lemma BoundaryFreeRoundTrip(images: Deliveries, frames: seq<seq<Byte>>, secs: seq<int>, usecs: seq<int>,
                              signedChar: bool)
    requires |frames| == |secs| == |usecs|
    requires forall i :: 0 <= i < |frames| ==> !Occurs(BOUNDARY, frames[i]) && |frames[i]| <= 262121
    ensures Run(Reset(images), CRLF + Parts(frames, secs, usecs), signedChar)
      == Run(Reset(images + AsImages(frames)), CRLF, signedChar)
  {
    hide Run, Text, Parts, Silent, Occurs;
    BoundaryText();
    forall i | 0 <= i < |frames|
      ensures Deliverable(frames[i])
    {
      NoOccurrenceSilent(BOUNDARY, frames[i]);
    }
    StreamRoundTrip(images, frames, secs, usecs, signedChar);
  }

  // ---- the start of a session ----

  /** These texts with hyphens between them. */
  function Hyphened(words: seq<string>): seq<Byte> {
    if words == [] then []
    else if |words| == 1 then Text(words[0])
    else Text(words[0]) + [45] + Hyphened(words[1..])
  }

  /** The header lines send_stream writes after its status line, cut at their hyphens. */
  const HEAD_1: seq<string> := [
    "Access", "Control", "Allow", "Origin: *\r\nConnection: close\r\nServer: MJPG", "Streamer/0.2\r\nCache"]

  const HEAD_2: seq<string> := [
    "Control: no", "store, no", "cache, must", "revalidate, pre", "check=0, post", "check=0, max",
    "age=0\r\nPragma: no", "cache\r\nExpires: Mon, 3 Jan 2000 "]

  const HEAD_3: seq<string> := [
    "12:34:56 GMT\r\nContent", "Type: multipart/x", "mixed", "replace;boundary=boundarydonotcross\r\n"]

  function HeadLines(): seq<Byte> { Hyphened(HEAD_1 + HEAD_2) + Hyphened(HEAD_3) }

  /** All that send_stream writes. */
  function Session(frames: seq<seq<Byte>>, secs: seq<int>, usecs: seq<int>): seq<Byte>
    requires |frames| == |secs| == |usecs|
  {
    Text("HTTP/1.0 200 OK\r\n") + HeadLines() + CRLF + BOUNDARY + CRLF + Parts(frames, secs, usecs)
  }

  /** The header lines end in announcing the boundary that stands, behind two dashes, between the parts. */
  lemma BoundaryAnnounced() returns (lines: seq<Byte>)
    ensures HeadLines() == lines + Text("boundary=") + BOUNDARY[2..] + CRLF
    ensures BOUNDARY == [45, 45] + BOUNDARY[2..]
  {
    hide Text, Hyphened, HEAD_1, HEAD_2;
    LastWord(HEAD_3[0], HEAD_3[1], HEAD_3[2], HEAD_3[3]);
    var front := Text(HEAD_3[0]) + ([45] + (Text(HEAD_3[1]) + ([45] + (Text(HEAD_3[2]) + [45]))));
    lines := Hyphened(HEAD_1 + HEAD_2) + front + Text("replace;");
    BoundaryLine();
    BoundaryDashes();
  }

  lemma LastWord(a: string, b: string, c: string, d: string)
    ensures Hyphened([a, b, c, d]) == Text(a) + ([45] + (Text(b) + ([45] + (Text(c) + [45])))) + Text(d)
  {
    hide Text;
    var h := [a, b, c, d];
    assert h[1..] == [b, c, d] && [b, c, d][1..] == [c, d] && [c, d][1..] == [d];
    assert Hyphened([d]) == Text(d);
    assert Hyphened([c, d]) == Text(c) + [45] + Hyphened([d]);
    assert Hyphened([b, c, d]) == Text(b) + [45] + Hyphened([c, d]);
  }

  lemma BoundaryLine()
    ensures Text("replace;boundary=boundarydonotcross\r\n")
      == Text("replace;") + Text("boundary=") + BOUNDARY[2..] + CRLF
  {
    hide Text, BOUNDARY;
    WholeLine();
    FirstHalf();
    BoundaryEnd();
  }

  lemma FirstHalf()
    ensures Text("replace;boundary=") == Text("replace;") + Text("boundary=")
  {
  }

  lemma WholeLine()
    ensures Text("replace;boundary=boundarydonotcross\r\n")
      == Text("replace;boundary=") + Text("boundarydonotcross\r\n")
  {
  }

  lemma BoundaryEnd()
    ensures Text("boundarydonotcross\r\n") == BOUNDARY[2..] + CRLF
  {
  }

  lemma BoundaryDashes()
    ensures BOUNDARY[..2] == [45, 45]
  {
  }

  /** No two dashes in a row, and none at the end: such texts stay so when put together. */
  predicate SingleDashes(t: seq<Byte>) {
    (forall i :: 0 <= i < |t| - 1 ==> t[i] != 45 || t[i + 1] != 45) && (|t| > 0 ==> t[|t| - 1] != 45)
  }

  /** A word without hyphens, not empty and not long. */
  predicate PlainWord(word: string) { 0 < |word| <= 60 && '-' !in word }

  predicate PlainWords(words: seq<string>) { forall i :: 0 <= i < |words| ==> PlainWord(words[i]) }

  lemma {:induction false} HyphenedWords(words: seq<string>)
    requires PlainWords(words)
    ensures SingleDashes(Hyphened(words)) && |Hyphened(words)| <= 61 * |words|
    ensures |words| > 0 ==> |Hyphened(words)| > 0 && Hyphened(words)[0] != 45
    decreases |words|
  {
    if |words| > 0 {
      var w := Text(words[0]);
      WordText(words[0]);
      if |words| > 1 {
        HyphenedWords(words[1..]);
        var t, r := Hyphened(words[1..]), Hyphened(words);
        assert r == w + [45] + t;
        forall i | 0 <= i < |r| - 1
          ensures r[i] != 45 || r[i + 1] != 45
        {
          if |w| < i {
            assert r[i] == t[i - |w| - 1] && r[i + 1] == t[i - |w|];
          }
        }
      }
    }
  }

  lemma WordText(word: string)
    requires PlainWord(word)
    ensures 45 !in Text(word) && |Text(word)| == |word|
  {
    forall i | 0 <= i < |word|
      ensures Text(word)[i] != 45
    {
      assert word[i] in word;
    }
  }

  lemma SingleDashesSilent(t: seq<Byte>)
    requires SingleDashes(t)
    ensures Silent(BOUNDARY, t)
  {
    hide State;
    BoundaryText();
    assert BOUNDARY[0] == 45 && BOUNDARY[1] == 45;
    forall k | 0 <= k <= |t|
      ensures !EndsWith(t[..k], BOUNDARY)
    {
      if k >= 20 {
        var u := t[..k][k - 20..];
        assert u[0] == t[k - 20] && u[1] == t[k - 20 + 1];
      }
    }
    NoOccurrenceSilent(BOUNDARY, t);
  }

  lemma JoinedDashes(a: seq<Byte>, b: seq<Byte>)
    requires SingleDashes(a) && SingleDashes(b)
    ensures SingleDashes(a + b)
  {
    var r := a + b;
    forall i | 0 <= i < |r| - 1
      ensures r[i] != 45 || r[i + 1] != 45
    {
      if |a| <= i {
        assert r[i] == b[i - |a|] && r[i + 1] == b[i - |a| + 1];
      }
    }
  }

  lemma HeadLinesSilent()
    ensures Silent(BOUNDARY, HeadLines()) && |HeadLines()| + 22 <= LIMIT
  {
    hide Text, Silent, SingleDashes, Hyphened, HEAD_1, HEAD_2, HEAD_3, PlainWord;
    HeadWords1();
    HeadWords2();
    HeadWords3();
    HyphenedWords(HEAD_1 + HEAD_2);
    HyphenedWords(HEAD_3);
    JoinedDashes(Hyphened(HEAD_1 + HEAD_2), Hyphened(HEAD_3));
    SingleDashesSilent(HeadLines());
  }

  lemma HeadWords1()
    ensures PlainWords(HEAD_1) && |HEAD_1| == 5
  {
  }

  lemma HeadWords2()
    ensures PlainWords(HEAD_2) && |HEAD_2| == 8
  {
  }

  lemma HeadWords3()
    ensures PlainWords(HEAD_3) && |HEAD_3| == 4
  {
  }

  /** OK CR LF passes the four-byte test: the status line alone ends the header. */
  lemma StatusLineEndsHeader(signedChar: bool)
    ensures var r := Run(Reset([]), Text("HTTP/1.0 200 OK\r\n"), signedChar);
            !r.header && r.buffer == [] && r.bd == 0 && r.images == []
  {
    hide Run, HeaderStep, IsCrlfCrlf, Push, Watch;
    var t := Text("HTTP/1.0 200 OK\r");
    StatusText();
    assert SeenOf(0) == CLEAN;
    HeaderRun(Reset([]), t, signedChar);
    assert Text("HTTP/1.0 200 OK\r\n") == t + [10];
    RunOne(Reset([]), t, 10, signedChar);
    PushSeen(Run(Reset([]), t, signedChar).last, 10, signedChar);
  }

  lemma StatusText()
    ensures var t := Text("HTTP/1.0 200 OK\r");
            Ascii(t) && Watch(CLEAN, t).Some? && Fires(Watch(CLEAN, t).value, 10)
  {
    hide Watch;
    StatusNumber();
    OkWatch();
    WatchConcat(CLEAN, Text("HTTP/1.0 200 "), [79, 75, 13]);
    assert Text("HTTP/1.0 200 OK\r") == Text("HTTP/1.0 200 ") + [79, 75, 13];
  }

  lemma StatusNumber()
    ensures Plain(Text("HTTP/1.0 200 "))
  {
    hide Plain;
    HttpWord();
    NumberWord();
    PlainConcat(Text("HTTP/1"), Text(".0 200 "));
    assert Text("HTTP/1.0 200 ") == Text("HTTP/1") + Text(".0 200 ");
  }

  lemma HttpWord()
    ensures Plain(Text("HTTP/1"))
  {
    hide Plain, HasCr, HasLf;
    NoWindowPlain(Text("HTTP/1"));
  }

  lemma NumberWord()
    ensures Plain(Text(".0 200 "))
  {
    hide Plain, HasCr, HasLf;
    NoWindowPlain(Text(".0 200 "));
  }

  /** O has CR's bits and K has LF's. */
  lemma OkWatch()
    ensures Watch(CLEAN, [79, 75, 13]).Some? && Fires(Watch(CLEAN, [79, 75, 13]).value, 10)
  {
    var t: seq<Byte> := [79, 75, 13];
    assert t[1..] == [75, 13] && t[1..][1..] == [13] && t[1..][1..][1..] == [];
    assert Watch(After(After(After(CLEAN, 79), 75), 13), []).Some?;
  }

  /** A whole session delivers the server's own header lines as a first image, and then the frames. */
  lemma SessionDelivers(frames: seq<seq<Byte>>, secs: seq<int>, usecs: seq<int>, signedChar: bool)
    requires |frames| == |secs| == |usecs| && forall i :: 0 <= i < |frames| ==> Deliverable(frames[i])
    ensures Run(Reset([]), Session(frames, secs, usecs), signedChar)
      == Run(Reset([Image(HeadLines())] + AsImages(frames)), CRLF, signedChar)
  {
    hide Run, Text, Silent, Deliverable, HeadLines, Parts;
    StatusLineEndsHeader(signedChar);
    HeadLinesSilent();
    var status, h := Text("HTTP/1.0 200 OK\r\n"), HeadLines();
    var x, rest := h + CRLF + BOUNDARY, CRLF + Parts(frames, secs, usecs);
    var m := Run(Reset([]), status, signedChar);
    assert Session(frames, secs, usecs) == status + (x + rest);
    RunConcat(Reset([]), status, x + rest, signedChar);
    RunConcat(m, x, rest, signedChar);
    FrameDeliveredIff(m.last, m.cl, [], h, signedChar);
    assert [] + [Image(h)] == [Image(h)];
    StreamRoundTrip([Image(h)], frames, secs, usecs, signedChar);
  }
}
