/** The frame extractor of the HTTP input: extract_data as a step function and as its loop. */
module Extractor {
  import opened Words
  import opened Matcher

  const CONTENT_LENGTH: seq<Byte> := Text("Content-Length:")
  const BOUNDARY: seq<Byte> := Text("--boundarydonotcross")

  /** BUFFER_SIZE - 1 */
  const LIMIT: nat := 262143

  /** What the callback gets. The code passes a negative length when the matcher completes the boundary within
      the first 21 bytes of the content (Stream.NegativeLengthIff). */
  datatype Delivery = Image(data: seq<Byte>) | NegativeLength(length: int)

  type Deliveries = seq<Delivery>

  /** The parser's fields and the callbacks so far. */
  datatype Parser = Parser(header: bool, last: nat, cl: nat, bd: nat, buffer: seq<Byte>, images: Deliveries)

  ghost predicate Sane(m: Parser) { m.cl < |CONTENT_LENGTH| && m.bd < |BOUNDARY| && |m.buffer| <= LIMIT }

  /** init_extractor_state */
  function Reset(images: Deliveries): Parser { Parser(true, 0, 0, 0, [], images) }

  /** The image handed over when the buffer ends with the boundary: that and CRLF cut off. */
  function Cut(buffer: seq<Byte>): Delivery {
    var n := |buffer| - (|BOUNDARY| + 2);
    if n >= 0 then Image(buffer[..n]) else NegativeLength(n)
  }

  function HeaderStep(m: Parser, b: Byte, signedChar: bool): (r: Parser)
    requires m.cl < |CONTENT_LENGTH|
    ensures r.buffer == m.buffer && r.images == m.images && r.bd == m.bd && r.cl < |CONTENT_LENGTH|
    ensures r.last == Push(m.last, b, signedChar) && r.header == !IsCrlfCrlf(r.last)
  {
    var last := Push(m.last, b, signedChar);
    if IsCrlfCrlf(last) then m.(last := last, header := false)
    else if IsCrlf(last) then m.(last := last, cl := 0, header := true)
    else
      var cl := Advance(CONTENT_LENGTH, m.cl, b);
      m.(last := last, cl := if cl == |CONTENT_LENGTH| then 0 else cl, header := true)
  }

  function ContentStep(m: Parser, b: Byte): (r: Parser)
    requires m.bd < |BOUNDARY|
  {
    if |m.buffer| >= LIMIT then m else
    var buffer, bd := m.buffer + [b], Advance(BOUNDARY, m.bd, b);
    if bd == |BOUNDARY| then Reset(m.images + [Cut(buffer)]) else m.(buffer := buffer, bd := bd)
  }

  function Step(m: Parser, b: Byte, signedChar: bool): (r: Parser)
    requires Sane(m)
    ensures Sane(r)
  {
    if m.header then HeaderStep(m, b, signedChar) else ContentStep(m, b)
  }

  /** One call of extract_data on s. */
  function Run(m: Parser, s: seq<Byte>, signedChar: bool): (r: Parser)
    requires Sane(m)
    ensures Sane(r)
    decreases |s|, m
  {
    if s == [] then m else Run(Step(m, s[0], signedChar), s[1..], signedChar)
  }

  /** How the input is cut into calls does not matter. */
  lemma {:induction false} RunConcat(m: Parser, a: seq<Byte>, b: seq<Byte>, signedChar: bool)
    requires Sane(m)
    ensures Run(m, a + b, signedChar) == Run(Run(m, a, signedChar), b, signedChar)
    decreases |a|
  {
    hide Step;
    if a == [] {
      assert a + b == b;
    } else {
      RunConcat(Step(m, a[0], signedChar), a[1..], b, signedChar);
      assert (a + b)[1..] == a[1..] + b;
    }
  }

  function Concat(chunks: seq<seq<Byte>>): seq<Byte> {
    if chunks == [] then [] else chunks[0] + Concat(chunks[1..])
  }

  function RunChunks(m: Parser, chunks: seq<seq<Byte>>, signedChar: bool): (r: Parser)
    requires Sane(m)
    ensures Sane(r)
    decreases |chunks|, m
  {
    if chunks == [] then m else RunChunks(Run(m, chunks[0], signedChar), chunks[1..], signedChar)
  }

  /** Any chunking ends in the same state with the same callbacks as a single call. */
  lemma {:induction false} ChunkingIndependence(m: Parser, chunks: seq<seq<Byte>>, signedChar: bool)
    requires Sane(m)
    ensures RunChunks(m, chunks, signedChar) == Run(m, Concat(chunks), signedChar)
    decreases |chunks|
  {
    hide Step;
    if chunks != [] {
      ChunkingIndependence(Run(m, chunks[0], signedChar), chunks[1..], signedChar);
      RunConcat(m, chunks[0], Concat(chunks[1..]), signedChar);
    }
  }

  /** A full buffer is the end: nothing is delivered any more. */
  lemma {:induction false} FullIsAbsorbing(m: Parser, s: seq<Byte>, signedChar: bool)
    requires Sane(m) && !m.header && |m.buffer| == 262143
    ensures Run(m, s, signedChar) == m
    decreases |s|
  {
    if s != [] {
      FullIsAbsorbing(m, s[1..], signedChar);
    }
  }

  lemma StepImages(m: Parser, b: Byte, signedChar: bool)
    requires Sane(m)
    ensures var m1, n1 := Step(m, b, signedChar), Step(m.(images := []), b, signedChar);
            m1.images == m.images + n1.images && m1.(images := []) == n1.(images := [])
  {
    hide IsCrlf, Push;
    assert m.images + [] == m.images;
  }

  /** Callbacks are only ever added, and they do not depend on earlier ones. */
  lemma {:induction false} ImagesGrow(m: Parser, s: seq<Byte>, signedChar: bool)
    requires Sane(m)
    ensures Run(m, s, signedChar) ==
            var r := Run(m.(images := []), s, signedChar);
            r.(images := m.images + r.images)
    decreases |s|
  {
    hide Step;
    if s == [] {
      assert m.images + [] == m.images;
    } else {
      StepImages(m, s[0], signedChar);
      var m1 := Step(m, s[0], signedChar);
      var n1 := Step(m.(images := []), s[0], signedChar);
      ImagesGrow(m1, s[1..], signedChar);
      ImagesGrow(n1, s[1..], signedChar);
      var r := Run(m1.(images := []), s[1..], signedChar);
      assert (m.images + n1.images) + r.images == m.images + (n1.images + r.images);
    }
  }

  class ExtractorState {
    var buffer: array<Byte>
    var length: nat
    var header: bool
    var lastFourBytes: nat
    const contentlength: SearchPattern
    const boundary: SearchPattern
    var images: Deliveries
    const signedChar: bool

    ghost predicate Valid()
      reads this, contentlength, boundary, buffer
    {
      && buffer.Length == LIMIT + 1 && length <= LIMIT
      && contentlength.pattern == CONTENT_LENGTH && contentlength.matched < |CONTENT_LENGTH|
      && boundary.pattern == BOUNDARY && boundary.matched < |BOUNDARY|
      && contentlength != boundary
    }

    ghost function Fields(): (m: Parser)
      requires Valid()
      reads this, contentlength, boundary, buffer
      ensures Sane(m)
    {
      Parser(header, lastFourBytes, contentlength.matched, boundary.matched, buffer[..length], images)
    }

    constructor (signedChar: bool)
      ensures Valid() && Fields() == Reset([]) && this.signedChar == signedChar
      ensures fresh(buffer) && fresh(contentlength) && fresh(boundary)
    {
      this.signedChar := signedChar;
      buffer := new Byte[LIMIT + 1];
      length, header, lastFourBytes := 0, true, 0;
      contentlength := new SearchPattern(CONTENT_LENGTH);
      boundary := new SearchPattern(BOUNDARY);
      images := [];
    }

    /** init_extractor_state */
    method Init()
      requires buffer.Length == LIMIT + 1 && contentlength != boundary
      requires contentlength.pattern == CONTENT_LENGTH && boundary.pattern == BOUNDARY
      modifies this`length, this`header, this`lastFourBytes, contentlength, boundary
      ensures Valid() && Fields() == Reset(images)
    {
      length, header, lastFourBytes := 0, true, 0;
      contentlength.Reset();
      boundary.Reset();
    }

    method HeaderByte(b: Byte)
      requires Valid() && header
      modifies this`header, this`lastFourBytes, contentlength
      ensures Valid() && Fields() == HeaderStep(old(Fields()), b, signedChar)
    {
      hide IsCrlf;
      lastFourBytes := Push(lastFourBytes, b, signedChar);
      if IsCrlfCrlf(lastFourBytes) {
        header := false;
      } else if IsCrlf(lastFourBytes) {
        contentlength.Reset();
      } else {
        var hit := contentlength.Compare(b);
        if contentlength.Matches() {
          contentlength.Reset();
        }
      }
    }

    method ContentByte(b: Byte)
      requires Valid() && !header
      modifies this, buffer, contentlength, boundary
      ensures Valid() && Fields() == ContentStep(old(Fields()), b) && buffer == old(buffer)
    {
      if length >= LIMIT {
        return;
      }
      buffer[length] := b;
      length := length + 1;
      var hit := boundary.Compare(b);
      assert buffer[..length] == old(buffer[..length]) + [b];
      if boundary.Matches() {
        var n: int := length - (|BOUNDARY| + 2);
        images := images + [if n >= 0 then Image(buffer[..n]) else NegativeLength(n)];
        assert n >= 0 ==> buffer[..length][..n] == buffer[..n];
        Init();
      }
    }

    /** The switch on the part being read. */
    method OneByte(b: Byte)
      requires Valid()
      modifies this, buffer, contentlength, boundary
      ensures Valid() && Fields() == Step(old(Fields()), b, signedChar) && buffer == old(buffer)
    {
      hide HeaderStep, ContentStep;
      if header {
        HeaderByte(b);
      } else {
        ContentByte(b);
      }
    }

    /** extract_data; stop(i) is what the loop finds in *should_stop before byte i. */
    method ExtractData(input: seq<Byte>, stop: nat -> bool) returns (i: nat)
      requires Valid()
      modifies this, buffer, contentlength, boundary
      ensures Valid() && buffer == old(buffer) && i <= |input|
      ensures (i < |input| ==> stop(i)) && forall k :: 0 <= k < i ==> !stop(k)
      ensures Fields() == Run(old(Fields()), input[..i], signedChar)
    {
      hide Step, Run, Sane;
      i := 0;
      ghost var from := Fields();
      RunNone(from, signedChar);
      while i < |input| && !stop(i)
        invariant i <= |input| && Valid() && buffer == old(buffer)
        invariant forall k :: 0 <= k < i ==> !stop(k)
        invariant Fields() == Run(from, input[..i], signedChar)
      {
        RunSnoc(from, input, i, signedChar);
        OneByte(input[i]);
        i := i + 1;
      }
    }

    /** The receive loop: whatever sizes recv returns, the result is that of the whole response. */
    method ProcessResponse(chunks: seq<seq<Byte>>)
      requires Valid()
      modifies this, buffer, contentlength, boundary
      ensures Valid() && Fields() == Run(Reset(old(images)), Concat(chunks), signedChar)
    {
      hide Run, Step;
      Init();
      ghost var from := Fields();
      var k := 0;
      ConcatPrefix(chunks, 0);
      RunNone(from, signedChar);
      while k < |chunks|
        invariant k <= |chunks| && Valid() && buffer == old(buffer)
        invariant Fields() == Run(from, Concat(chunks[..k]), signedChar)
      {
        var n := ExtractData(chunks[k], _ => false);
        assert chunks[k][..n] == chunks[k];
        ConcatPrefix(chunks, k);
        RunConcat(from, Concat(chunks[..k]), chunks[k], signedChar);
        k := k + 1;
      }
      assert chunks[..k] == chunks;
    }
  }

  lemma RunNone(m: Parser, signedChar: bool)
    requires Sane(m)
    ensures Run(m, [], signedChar) == m
  {
  }

  lemma RunSnoc(m: Parser, s: seq<Byte>, i: nat, signedChar: bool)
    requires Sane(m) && i < |s|
    ensures Run(m, s[..i + 1], signedChar) == Step(Run(m, s[..i], signedChar), s[i], signedChar)
  {
    hide Step;
    assert s[..i + 1] == s[..i] + [s[i]];
    RunConcat(m, s[..i], [s[i]], signedChar);
    var n := Run(m, s[..i], signedChar);
    assert Run(n, [s[i]], signedChar) == Run(Step(n, s[i], signedChar), [], signedChar);
  }

  lemma {:induction false} ConcatPrefix(chunks: seq<seq<Byte>>, k: nat)
    requires k <= |chunks|
    ensures k < |chunks| ==> Concat(chunks[..k + 1]) == Concat(chunks[..k]) + chunks[k]
    ensures k == 0 ==> Concat(chunks[..k]) == []
    decreases k
  {
    if 0 < k < |chunks| {
      var rest := chunks[1..];
      ConcatPrefix(rest, k - 1);
      assert chunks[..k + 1][1..] == rest[..k] && chunks[..k][1..] == rest[..k - 1];
    } else if |chunks| > 0 {
      assert chunks[..1][1..] == [];
    }
  }
}
