/** The buffered reader of the HTTP server: pending bytes sit at the end of a 256-byte buffer. */
module IoBuffer {
  import opened Words

  const IO_BUFFER: nat := 256
  const NEWLINE: Byte := 10

  /** What select and read do next on the socket: nothing in time, some bytes, end or error. */
  datatype Answer = Timeout | Data(count: nat) | Closed | Failed

  /** What read returns: the number of bytes, 0 at the end, -1 for an error. A peer with nothing more to send
      has closed. */
  function Amount(a: Answer, unread: nat): (n: int)
    requires a != Timeout
    ensures -1 <= n <= IO_BUFFER && n <= unread
  {
    match a
    case Failed => -1
    case Closed => 0
    case Data(count) =>
      var most := if count > IO_BUFFER then IO_BUFFER else count;
      if most > unread then unread else if most == 0 && unread > 0 then 1 else most
  }

  /** How many of the `unread` bytes arrive before the first timeout, end or error. */
  function Arriving(unread: nat, answers: seq<Answer>): (n: nat)
    ensures n <= unread
    decreases |answers|
  {
    if answers == [] || answers[0] == Timeout || Amount(answers[0], unread) <= 0 then 0
    else
      var n := Amount(answers[0], unread);
      n + Arriving(unread - n, answers[1..])
  }

  /** Whether it is an end or an error that stops them, and not a timeout. */
  predicate Breaks(unread: nat, answers: seq<Answer>)
    decreases |answers|
  {
    answers != [] && answers[0] != Timeout
    && (Amount(answers[0], unread) <= 0 || Breaks(unread - Amount(answers[0], unread), answers[1..]))
  }

  /** The peer's bytes not yet read and the socket's behaviour; both arbitrary. */
  class Peer {
    var unread: seq<Byte>
    var answers: seq<Answer>

    constructor (unread: seq<Byte>, answers: seq<Answer>)
      ensures this.unread == unread && this.answers == answers
    {
      this.unread, this.answers := unread, answers;
    }

    /** select: whether something happened before the timeout. */
    method Select() returns (ready: bool)
      modifies this`answers
      ensures ready <==> old(answers) != [] && old(answers)[0] != Timeout
      ensures ready ==> answers == old(answers)
    {
      ready := answers != [] && answers[0] != Timeout;
      if !ready && answers != [] {
        answers := answers[1..];
      }
    }

    /** read into the front of the buffer. */
    method Read(buffer: array<Byte>) returns (n: int)
      requires answers != [] && answers[0] != Timeout && buffer.Length == IO_BUFFER
      modifies this, buffer
      ensures -1 <= n <= 256 && n == Amount(old(answers)[0], |old(unread)|) && answers == old(answers)[1..]
      ensures n > 0 ==> buffer[..n] == old(unread)[..n] && unread == old(unread)[n..]
      ensures n <= 0 ==> unread == old(unread)
    {
      var a := answers[0];
      answers := answers[1..];
      n := Amount(a, |unread|);
      if n > 0 {
        var i := 0;
        while i < n
          invariant 0 <= i <= n && unread == old(unread) && answers == old(answers)[1..] && buffer[..i] == unread[..i]
        {
          buffer[i] := unread[i];
          i := i + 1;
        }
        unread := unread[n..];
      }
    }
  }

  /** How a pass of _read ends: len reached, nothing in time, go on, end or error. */
  datatype Outcome = Enough | Late | Again | Lost

  /** The first n bytes of the stream are in the output, zeros after them. */
  ghost predicate Moved(out: seq<Byte>, stream: seq<Byte>, n: nat) {
    n <= |out| && n <= |stream| && out[..n] == stream[..n] && forall i :: n <= i < |out| ==> out[i] == 0
  }

  class Reader {
    const buffer: array<Byte>
    var level: int

    ghost predicate Valid()
      reads this
    {
      buffer.Length == IO_BUFFER && 0 <= level <= IO_BUFFER
    }

    ghost function Pending(): seq<Byte>
      requires Valid()
      reads this, buffer
    {
      buffer[IO_BUFFER - level..]
    }

    /** How many bytes _read can still hand out before it is stopped. */
    ghost function Reach(fd: Peer): (n: nat)
      requires Valid()
      reads this, fd
      ensures n <= level + |fd.unread|
    {
      level + Arriving(|fd.unread|, fd.answers)
    }

    constructor ()
      ensures Valid() && level == 0 && fresh(buffer)
    {
      buffer := new Byte[IO_BUFFER](_ => 0);
      level := 0;
    }

    /** init_iobuffer */
    method Init()
      requires buffer.Length == IO_BUFFER
      modifies this, buffer
      ensures Valid() && level == 0
    {
      Clear(buffer);
      level := 0;
    }

    /** Refill an empty buffer: read to its front, then move the bytes to its end. After an end or an
        error, level holds what read returned. */
    method Refill(fd: Peer)
      requires Valid() && level == 0 && fd.answers != [] && fd.answers[0] != Timeout
      modifies this, buffer, fd
      ensures level == Amount(old(fd.answers)[0], |old(fd.unread)|) && fd.answers == old(fd.answers)[1..]
      ensures level > 0 ==> Valid() && Pending() + fd.unread == old(fd.unread)
      ensures level <= 0 ==> fd.unread == old(fd.unread)
    {
      Init();
      level := fd.Read(buffer);
      if level > 0 {
        ghost var front := buffer[..level];
        var shift, i := IO_BUFFER - level, level;
        while i > 0
          invariant 0 <= i <= level && shift == IO_BUFFER - level && 0 < level <= IO_BUFFER
          invariant level == Amount(old(fd.answers)[0], |old(fd.unread)|) && fd.answers == old(fd.answers)[1..]
          invariant fd.unread == old(fd.unread)[level..] && front == old(fd.unread)[..level]
          invariant buffer[..i] == front[..i] && buffer[shift + i..] == front[i..]
          decreases i
        {
          i := i - 1;
          buffer[shift + i] := buffer[i];
          assert buffer[shift + i..] == [front[i]] + front[i + 1..];
        }
      }
    }

    /** Take the first n pending bytes to out[at..]. */
    method TakePending(out: array<Byte>, at: nat, n: nat)
      requires Valid() && n <= level && at + n <= out.Length && out != buffer
      modifies this`level, out
      ensures Valid() && level == old(level) - n
      ensures out[..at + n] == old(out[..at]) + old(Pending())[..n] && out[at + n..] == old(out[at + n..])
      ensures Pending() == old(Pending())[n..]
    {
      var i := 0;
      while i < n
        invariant 0 <= i <= n && level == old(level)
        invariant out[..at + i] == old(out[..at]) + old(Pending())[..i] && out[at + i..] == old(out[at + i..])
      {
        out[at + i] := buffer[IO_BUFFER - level + i];
        i := i + 1;
      }
      level := level - n;
    }

    /** memset(buffer, 0, len) */
    method Clear(out: array<Byte>)
      modifies out
      ensures forall i :: 0 <= i < out.Length ==> out[i] == 0
    {
      var z := 0;
      while z < out.Length
        invariant 0 <= z <= out.Length
        invariant forall i :: 0 <= i < z ==> out[i] == 0
      {
        out[z] := 0;
        z := z + 1;
      }
    }

    /** _read. It hands out len bytes exactly when that many can be reached; otherwise it hands out all that
        can, and returns their number after a timeout but -1 after an end or an error. */
    method Read(fd: Peer, out: array<Byte>) returns (rc: int, ghost n: nat)
      requires Valid() && out != buffer
      modifies this, buffer, out, fd
      ensures n == if out.Length <= old(Reach(fd)) then out.Length else old(Reach(fd))
      ensures rc == if n < out.Length && old(Breaks(|fd.unread|, fd.answers)) then -1 else n
      ensures Moved(out[..], old(Pending() + fd.unread), n)
      ensures rc >= 0 ==> Valid() && Pending() + fd.unread == old(Pending() + fd.unread)[n..]
      ensures n == out.Length ==>
                Reach(fd) == old(Reach(fd)) - n
                && Breaks(|fd.unread|, fd.answers) == old(Breaks(|fd.unread|, fd.answers))
      ensures n < out.Length ==> level <= 0 && fd.unread == old(Pending() + fd.unread)[n..]
    {
      hide Arriving, Breaks, Moved;
      ghost var stream, reach, breaks := Pending() + fd.unread, Reach(fd), Breaks(|fd.unread|, fd.answers);
      Clear(out);
      NothingMoved(out[..], stream);
      var copied := 0;
      while copied < out.Length
        invariant 0 <= copied <= out.Length && (copied < out.Length || out.Length == 0) && Valid()
        invariant copied <= |stream|
        invariant Moved(out[..], stream, copied) && Pending() + fd.unread == stream[copied..]
        invariant Reach(fd) == reach - copied && Breaks(|fd.unread|, fd.answers) == breaks
        decreases |fd.answers|
      {
        var how;
        copied, how := Pass(fd, out, copied, stream);
        if how == Enough || how == Late {
          return copied, copied;
        }
        if how == Lost {
          return -1, copied;
        }
      }
      assert copied == out.Length == 0;
      return 0, copied;
    }

    /** One pass of _read's loop: pending bytes first, then wait and refill if that was not enough. */
    method Pass(fd: Peer, out: array<Byte>, from: nat, ghost stream: seq<Byte>) returns (copied: nat, how: Outcome)
      requires Valid() && out != buffer && from < out.Length
      requires Moved(out[..], stream, from) && Pending() + fd.unread == stream[from..]
      modifies this, buffer, out, fd
      ensures copied <= out.Length && copied <= |stream| && Moved(out[..], stream, copied)
      ensures how == Enough <==> copied == out.Length
      ensures how == Late ==> level == 0 && !old(Breaks(|fd.unread|, fd.answers))
      ensures how == Lost ==> level <= 0 && fd.unread == stream[copied..] && old(Breaks(|fd.unread|, fd.answers))
      ensures how == Late || how == Lost ==> old(Reach(fd)) == copied - from
      ensures how != Lost ==> Valid() && Pending() + fd.unread == stream[copied..]
      ensures how == Again || how == Enough ==>
                && Reach(fd) == old(Reach(fd)) - (copied - from)
                && Breaks(|fd.unread|, fd.answers) == old(Breaks(|fd.unread|, fd.answers))
      ensures how == Again ==> |fd.answers| < |old(fd.answers)|
    {
      hide Moved, Amount;
      var i := if level < out.Length - from then level else out.Length - from;
      ghost var bytes, before := Pending(), out[..];
      MovedMore(before, stream, from, bytes, fd.unread, i);
      TakePending(out, from, i);
      copied := from + i;
      assert out[..] == out[..copied] + out[copied..];
      assert out[..] == before[..from] + bytes[..i] + before[copied..];
      MovedPrefix(out[..], stream, copied);
      if copied >= out.Length {
        return copied, Enough;
      }
      var ready := fd.Select();
      if !ready {
        return copied, Late;
      }
      Refill(fd);
      how := if level <= 0 then Lost else Again;
    }

    /** _read of one byte. */
    method ReadByte(fd: Peer) returns (got: int, c: Byte)
      requires Valid()
      modifies this, buffer, fd
      ensures if old(Reach(fd)) > 0
              then got == 1 && Valid() && Reach(fd) == old(Reach(fd)) - 1
                   && [c] + (Pending() + fd.unread) == old(Pending() + fd.unread)
              else got <= 0 && level <= 0 && fd.unread == old(Pending() + fd.unread)
    {
      hide Arriving, Breaks, Amount, Moved;
      ghost var stream := Pending() + fd.unread;
      var one := new Byte[1];
      ghost var n;
      got, n := Read(fd, one);
      MovedPrefix(one[..], stream, n);
      c := one[0];
      if n == 1 {
        assert one[..][..1] == [c];
        assert stream == stream[..1] + stream[1..];
      } else {
        assert stream[0..] == stream;
      }
    }

    /** _readline: one byte at a time up to a newline or the limit. It succeeds exactly when a whole line can be
        reached; otherwise what could be reached is lost. */
    method ReadLine(fd: Peer, out: array<Byte>) returns (rc: int, ghost n: nat)
      requires Valid() && out != buffer
      modifies this, buffer, out, fd
      ensures rc == if LineArrives(old(Pending() + fd.unread), old(Reach(fd)), out.Length) then n else -1
      ensures Moved(out[..], old(Pending() + fd.unread), n)
      ensures rc >= 0 ==>
                && Valid() && out[..n] == Line(old(Pending() + fd.unread), out.Length)
                && Pending() + fd.unread == old(Pending() + fd.unread)[n..] && Reach(fd) == old(Reach(fd)) - n
      ensures rc < 0 ==> n == old(Reach(fd)) && level <= 0 && fd.unread == old(Pending() + fd.unread)[n..]
    {
      hide Arriving, Breaks, Amount, Moved, Line, LineArrives, Unbroken;
      ghost var stream, reach := Pending() + fd.unread, Reach(fd);
      Clear(out);
      NothingMoved(out[..], stream);
      NothingBroken(stream);
      var c: Byte, i := 0, 0;
      while i < out.Length && c != NEWLINE
        invariant 0 <= i <= out.Length && i <= |stream| && Valid()
        invariant Pending() + fd.unread == stream[i..] && Reach(fd) == reach - i
        invariant Moved(out[..], stream, i) && Unbroken(stream, i, c)
        decreases out.Length - i
      {
        var got;
        ghost var last, before := c, out[..];
        got, c := ReadByte(fd);
        if got <= 0 {
          NoLine(stream, reach, out.Length, last);
          return -1, i;
        }
        OneMore(before, stream, i, last, c, Pending() + fd.unread);
        out[i] := c;
        assert out[..] == before[i := c];
        i := i + 1;
      }
      MovedPrefix(out[..], stream, i);
      ThisLine(stream, reach, out.Length, i, c);
      return i, i;
    }

    /** The loop of client_thread over the request's header lines. It collects the stream's lines one after the
        other, up to the first that ends the header, or fails at the first line that does not arrive. From a stream
        that starts with a header it takes exactly that, empty line included, if all of it arrives. */
    method ReadHeader(fd: Peer, out: array<Byte>) returns (ok: bool, lines: seq<seq<Byte>>)
      requires Valid() && out != buffer && out.Length > 0
      modifies this, buffer, out, fd
      ensures lines <= Lines(old(Pending() + fd.unread), out.Length)
      ensures var n := |Flat(lines)|;
              && n <= old(Reach(fd)) <= |old(Pending() + fd.unread)|
              && (ok ==> lines != [] && Valid() && Pending() + fd.unread == old(Pending() + fd.unread)[n..]
                         && Reach(fd) == old(Reach(fd)) - n)
              && (!ok ==> !LineArrives(old(Pending() + fd.unread)[n..], old(Reach(fd)) - n, out.Length))
      ensures forall k :: 0 <= k < |lines| ==> (EndsHeader(lines[k]) <==> ok && k == |lines| - 1)
      ensures forall header, rest :: out.Length >= 2 && HeaderLines(header, out.Length)
                                     && Flat(header) + [13, 10] + rest == old(Pending() + fd.unread) ==>
                && (ok <==> |Flat(header)| + 2 <= old(Reach(fd)))
                && (ok ==> Flat(lines) == Flat(header) + [13, 10] && Pending() + fd.unread == rest)
    {
      hide Line, Lines, LineArrives, EndsHeader, HeaderLines, Flat;
      ghost var stream, reach := Pending() + fd.unread, Reach(fd);
      ok, lines := HeaderLoop(fd, out);
      forall header, rest |
          out.Length >= 2 && HeaderLines(header, out.Length) && Flat(header) + [13, 10] + rest == stream
        ensures (ok <==> |Flat(header)| + 2 <= reach)
                && (ok ==> Flat(lines) == Flat(header) + [13, 10] && Pending() + fd.unread == rest)
      {
        HeaderIsRead(stream, reach, out.Length, header, rest, ok, lines);
        assert stream[|Flat(header) + [13, 10]|..] == rest;
      }
    }

    method HeaderLoop(fd: Peer, out: array<Byte>) returns (ok: bool, lines: seq<seq<Byte>>)
      requires Valid() && out != buffer && out.Length > 0
      modifies this, buffer, out, fd
      ensures lines <= Lines(old(Pending() + fd.unread), out.Length)
      ensures forall k :: 0 <= k < |lines| ==> (EndsHeader(lines[k]) <==> ok && k == |lines| - 1)
      ensures var n := |Flat(lines)|;
              && n <= old(Reach(fd)) <= |old(Pending() + fd.unread)|
              && (ok ==> lines != [] && Valid() && Pending() + fd.unread == old(Pending() + fd.unread)[n..]
                         && Reach(fd) == old(Reach(fd)) - n)
              && (!ok ==> !LineArrives(old(Pending() + fd.unread)[n..], old(Reach(fd)) - n, out.Length))
    {
      hide Arriving, Line, Complete, Lines, LineArrives;
      ghost var stream, reach := Pending() + fd.unread, Reach(fd);
      lines, ok := [], true;
      var more := true;
      ghost var used := 0;
      while more
        invariant Valid() && lines <= Lines(stream, out.Length)
        invariant used == |Flat(lines)| <= reach <= |stream|
        invariant Pending() + fd.unread == stream[used..] && Reach(fd) == reach - used
        invariant forall k :: 0 <= k < |lines| ==> (EndsHeader(lines[k]) <==> !more && k == |lines| - 1)
        invariant more || lines != []
        decreases more, reach - used
      {
        var cnt;
        ghost var n;
        cnt, n := ReadLine(fd, out);
        if cnt == -1 {
          return false, lines;
        }
        SomeBytes(stream[used..], reach - used, out.Length);
        NextLine(stream, out.Length, lines, used);
        lines := lines + [out[..cnt]];
        used := used + cnt;
        more := cnt > 2 && !(out[0] == 13 && out[1] == NEWLINE);
      }
    }
  }

  lemma NothingMoved(out: seq<Byte>, stream: seq<Byte>)
    requires forall i :: 0 <= i < |out| ==> out[i] == 0
    ensures Moved(out, stream, 0)
  {
  }

  lemma MovedPrefix(out: seq<Byte>, stream: seq<Byte>, n: nat)
    requires Moved(out, stream, n)
    ensures n <= |out| && n <= |stream| && out[..n] == stream[..n]
  {
  }

  /** c is the last of the first n bytes (0 if there is none), and no byte before it is a newline. */
  ghost predicate Unbroken(stream: seq<Byte>, n: nat, c: Byte) {
    n <= |stream| && c == (if n == 0 then 0 else stream[n - 1])
    && forall k :: 0 <= k < n - 1 ==> stream[k] != NEWLINE
  }

  lemma NothingBroken(stream: seq<Byte>)
    ensures Unbroken(stream, 0, 0)
  {
  }

  lemma OneMore(out: seq<Byte>, stream: seq<Byte>, i: nat, last: Byte, c: Byte, rest: seq<Byte>)
    requires Moved(out, stream, i) && Unbroken(stream, i, last) && last != NEWLINE
    requires i < |out| && [c] + rest == stream[i..]
    ensures i < |stream| && Moved(out[i := c], stream, i + 1) && Unbroken(stream, i + 1, c)
    ensures rest == stream[i + 1..]
  {
    assert stream[i..][0] == c && stream[i..][1..] == rest;
    assert out[i := c][..i + 1] == out[..i] + [c];
    assert stream[..i + 1] == stream[..i] + [stream[i]];
  }

  lemma MovedMore(out: seq<Byte>, stream: seq<Byte>, n: nat, pending: seq<Byte>, unread: seq<Byte>, i: nat)
    requires Moved(out, stream, n) && pending + unread == stream[n..] && i <= |pending| && n + i <= |out|
    ensures Moved(out[..n] + pending[..i] + out[n + i..], stream, n + i)
    ensures pending[i..] + unread == stream[n + i..]
  {
    assert stream == stream[..n] + (pending + unread);
    assert stream[..n] + pending[..i] == stream[..n + i];
    var r := out[..n] + pending[..i] + out[n + i..];
    assert r[..n + i] == out[..n] + pending[..i];
  }

  // ---- lines ----

  /** The first line of a stream: up to its first newline, or to the limit, or all there is. */
  function Line(s: seq<Byte>, limit: nat): (r: seq<Byte>) {
    if limit == 0 || s == [] then []
    else if s[0] == NEWLINE then [s[0]]
    else [s[0]] + Line(s[1..], limit - 1)
  }

  /** The line ended: at the limit or at its only newline. */
  predicate Complete(line: seq<Byte>, limit: nat) {
    (|line| == limit || (line != [] && line[|line| - 1] == NEWLINE))
    && forall k :: 0 <= k < |line| - 1 ==> line[k] != NEWLINE
  }

  lemma {:induction false} LineIs(s: seq<Byte>, limit: nat, n: nat)
    requires n <= limit && n <= |s|
    requires n == limit || (n > 0 && s[n - 1] == NEWLINE)
    requires forall k :: 0 <= k < n - 1 ==> s[k] != NEWLINE
    ensures Line(s, limit) == s[..n] && Complete(s[..n], limit)
    decreases n
  {
    if n > 0 && !(n == 1 && s[0] == NEWLINE) {
      assert forall k :: 0 <= k < n - 2 ==> s[1..][k] == s[k + 1];
      LineIs(s[1..], limit - 1, n - 1);
      assert s[..n] == [s[0]] + s[1..][..n - 1];
    }
  }

  function Lines(s: seq<Byte>, limit: nat): seq<seq<Byte>>
    requires limit > 0
    decreases |s|
  {
    if s == [] then [] else
    LinePrefix(s, limit);
    [Line(s, limit)] + Lines(s[|Line(s, limit)|..], limit)
  }

  function Flat(ls: seq<seq<Byte>>): seq<Byte> {
    if ls == [] then [] else ls[0] + Flat(ls[1..])
  }

  lemma {:induction false} LinePrefix(s: seq<Byte>, limit: nat)
    ensures Line(s, limit) <= s && |Line(s, limit)| <= limit
    ensures limit > 0 && s != [] ==> Line(s, limit) != []
    decreases limit
  {
    if limit > 0 && s != [] && s[0] != NEWLINE {
      LinePrefix(s[1..], limit - 1);
    }
  }

  /** Successive lines put together are the stream. */
  lemma {:induction false} LinesConcatenate(s: seq<Byte>, limit: nat)
    requires limit > 0
    ensures Flat(Lines(s, limit)) == s
    decreases |s|
  {
    if s != [] {
      LinePrefix(s, limit);
      var n := |Line(s, limit)|;
      LinesConcatenate(s[n..], limit);
      assert Lines(s, limit)[1..] == Lines(s[n..], limit);
      assert s == s[..n] + s[n..];
    }
  }

  /** A whole line is among the first `reach` bytes. */
  predicate LineArrives(s: seq<Byte>, reach: nat, limit: nat)
    requires reach <= |s|
  {
    Complete(Line(s[..reach], limit), limit)
  }

  /** At most two bytes, or a leading CR LF. */
  predicate EndsHeader(line: seq<Byte>) { |line| <= 2 || (line[0] == 13 && line[1] == NEWLINE) }

  lemma ThisLine(s: seq<Byte>, reach: nat, limit: nat, n: nat, c: Byte)
    requires Unbroken(s, n, c) && n <= limit && n <= reach <= |s| && (n == limit || c == NEWLINE)
    ensures LineArrives(s, reach, limit) && Line(s, limit) == s[..n]
  {
    LineIs(s, limit, n);
    LineIs(s[..reach], limit, n);
  }

  lemma SomeBytes(s: seq<Byte>, reach: nat, limit: nat)
    requires reach <= |s| && limit > 0 && LineArrives(s, reach, limit)
    ensures reach > 0
  {
  }

  lemma NoLine(s: seq<Byte>, reach: nat, limit: nat, c: Byte)
    requires Unbroken(s, reach, c) && c != NEWLINE && reach < limit
    ensures !LineArrives(s, reach, limit)
  {
    Unfinished(s[..reach], limit);
  }

  lemma {:induction false} Unfinished(s: seq<Byte>, limit: nat)
    requires |s| < limit && forall k :: 0 <= k < |s| ==> s[k] != NEWLINE
    ensures Line(s, limit) == s
    decreases |s|
  {
    if s != [] {
      Unfinished(s[1..], limit - 1);
      assert s == [s[0]] + s[1..];
    }
  }

  /** The line at the place reached is the next of the stream's lines. */
  lemma {:induction false} NextLine(s: seq<Byte>, limit: nat, lines: seq<seq<Byte>>, used: nat)
    requires limit > 0 && lines <= Lines(s, limit) && used == |Flat(lines)| <= |s|
    ensures used < |s| ==> lines + [Line(s[used..], limit)] <= Lines(s, limit)
    ensures |Flat(lines + [Line(s[used..], limit)])| == used + |Line(s[used..], limit)|
    decreases |lines|
  {
    LinePrefix(s, limit);
    hide Line;
    if lines == [] {
      assert s[0..] == s;
      assert Flat([Line(s, limit)]) == Line(s, limit) + Flat([]);
    } else {
      var first, n := Line(s, limit), |Line(s, limit)|;
      var rest := s[n..];
      assert Lines(s, limit)[1..] == Lines(rest, limit) && lines[0] == first;
      assert lines[1..] <= Lines(rest, limit);
      NextLine(rest, limit, lines[1..], used - n);
      assert rest[used - n..] == s[used..];
      var next := Line(s[used..], limit);
      assert (lines + [next])[1..] == lines[1..] + [next];
    }
  }

  // ---- a request header in bytes ----

  /** A line of at least three bytes, within the limit, ending at its only newline. */
  predicate HeaderLine(line: seq<Byte>, limit: nat) {
    3 <= |line| <= limit && line[|line| - 1] == 10 && forall k :: 0 <= k < |line| - 1 ==> line[k] != 10
  }

  predicate HeaderLines(lines: seq<seq<Byte>>, limit: nat) {
    forall k :: 0 <= k < |lines| ==> HeaderLine(lines[k], limit)
  }

  /** The empty line that ends a request header. */
  const EMPTY_LINE: seq<Byte> := [13, 10]

  lemma FirstOfHeader(line: seq<Byte>, rest: seq<Byte>, limit: nat)
    requires HeaderLine(line, limit) || (line == EMPTY_LINE && limit >= 2)
    ensures Line(line + rest, limit) == line && Complete(line, limit)
  {
    assert (line + rest)[..|line|] == line;
    LineIs(line + rest, limit, |line|);
  }

  /** The lines of a header, its empty line, and what follows it. */
  lemma {:induction false} LinesOfHeader(lines: seq<seq<Byte>>, rest: seq<Byte>, limit: nat)
    requires limit >= 2 && HeaderLines(lines, limit)
    ensures Lines(Flat(lines) + EMPTY_LINE + rest, limit) == lines + [EMPTY_LINE] + Lines(rest, limit)
    decreases |lines|
  {
    var s := Flat(lines) + EMPTY_LINE + rest;
    if lines == [] {
      assert s == EMPTY_LINE + rest;
      FirstOfHeader(EMPTY_LINE, rest, limit);
      assert s[2..] == rest;
      assert Lines(s, limit) == [EMPTY_LINE] + Lines(rest, limit);
    } else {
      var tail := Flat(lines[1..]) + EMPTY_LINE + rest;
      assert s == lines[0] + tail;
      FirstOfHeader(lines[0], tail, limit);
      assert s[|lines[0]|..] == tail;
      LinesOfHeader(lines[1..], rest, limit);
      assert Lines(s, limit) == [lines[0]] + Lines(tail, limit);
      assert [lines[0]] + (lines[1..] + [EMPTY_LINE] + Lines(rest, limit)) == lines + [EMPTY_LINE] + Lines(rest, limit);
    }
  }

  lemma {:induction false} FlatPrefix(a: seq<seq<Byte>>, b: seq<seq<Byte>>)
    ensures Flat(a + b) == Flat(a) + Flat(b)
    decreases |a|
  {
    if a == [] {
      assert a + b == b;
    } else {
      FlatPrefix(a[1..], b);
      assert (a + b)[1..] == a[1..] + b;
    }
  }

  /** What ReadHeader promises, told of a stream that starts with a header: it reads exactly the header, empty line
      included, if all of it can be reached, and fails otherwise. */
  lemma HeaderIsRead(stream: seq<Byte>, reach: nat, limit: nat, header: seq<seq<Byte>>, rest: seq<Byte>, ok: bool,
                     lines: seq<seq<Byte>>)
    requires limit >= 2 && HeaderLines(header, limit) && stream == Flat(header) + EMPTY_LINE + rest && reach <= |stream|
    requires lines <= Lines(stream, limit) && |Flat(lines)| <= reach
    requires forall k :: 0 <= k < |lines| ==> (EndsHeader(lines[k]) <==> ok && k == |lines| - 1)
    requires ok ==> lines != []
    requires !ok ==> !LineArrives(stream[|Flat(lines)|..], reach - |Flat(lines)|, limit)
    ensures ok <==> |Flat(header)| + 2 <= reach
    ensures ok ==> lines == header + [EMPTY_LINE] && Flat(lines) == Flat(header) + EMPTY_LINE
  {
    hide Line, Lines, LineArrives, EndsHeader, HeaderLines, Flat, Complete;
    LinesOfHeader(header, rest, limit);
    NoEarlyEnd(header, limit);
    FlatPrefix(header, [EMPTY_LINE]);
    OneLine();
    WhereItStops(lines, header, Lines(rest, limit), ok);
    if !ok {
      NextArrives(stream, reach, limit, header, rest, |lines|);
    }
  }

  /** Lines that end at the first that ends a header. */
  lemma WhereItStops(lines: seq<seq<Byte>>, header: seq<seq<Byte>>, more: seq<seq<Byte>>, ok: bool)
    requires lines <= header + [EMPTY_LINE] + more && EndsHeader(EMPTY_LINE)
    requires forall k :: 0 <= k < |header| ==> !EndsHeader(header[k])
    requires forall k :: 0 <= k < |lines| ==> (EndsHeader(lines[k]) <==> ok && k == |lines| - 1)
    requires ok ==> lines != []
    ensures if ok then lines == header + [EMPTY_LINE] else |lines| <= |header| && lines == header[..|lines|]
  {
    hide EndsHeader;
    var n, all := |header|, header + [EMPTY_LINE] + more;
    assert all[n] == EMPTY_LINE && all[..n + 1] == header + [EMPTY_LINE];
    forall k | 0 <= k < |lines|
      ensures lines[k] == all[k] && (k < n ==> lines[k] == header[k])
    {
    }
    if |lines| > n {
      assert EndsHeader(lines[n]);
    }
    if ok {
      NotBefore(lines, header);
    }
  }

  lemma NotBefore(lines: seq<seq<Byte>>, header: seq<seq<Byte>>)
    requires lines != [] && EndsHeader(lines[|lines| - 1])
    requires forall k :: 0 <= k < |lines| && k < |header| ==> lines[k] == header[k]
    requires forall k :: 0 <= k < |header| ==> !EndsHeader(header[k])
    ensures |lines| > |header|
  {
    hide EndsHeader;
  }

  lemma OneLine()
    ensures Flat([EMPTY_LINE]) == EMPTY_LINE && EndsHeader(EMPTY_LINE)
  {
    assert [EMPTY_LINE][1..] == [] && Flat([]) == [];
  }

  lemma NoEarlyEnd(header: seq<seq<Byte>>, limit: nat)
    requires HeaderLines(header, limit)
    ensures forall k :: 0 <= k < |header| ==> !EndsHeader(header[k])
  {
  }

  /** If the whole header can be reached, so can its line k. */
  lemma NextArrives(stream: seq<Byte>, reach: nat, limit: nat, header: seq<seq<Byte>>, rest: seq<Byte>, k: nat)
    requires limit >= 2 && HeaderLines(header, limit) && stream == Flat(header) + EMPTY_LINE + rest && reach <= |stream|
    requires k <= |header|
    ensures |Flat(header[..k])| <= |stream|
    ensures |Flat(header)| + 2 <= reach ==>
              var n := |Flat(header[..k])|;
              n <= reach && LineArrives(stream[n..], reach - n, limit)
  {
    hide Line;
    var done, later := Flat(header[..k]), header[k..] + [EMPTY_LINE];
    assert header == header[..k] + header[k..];
    FlatPrefix(header[..k], header[k..]);
    FlatPrefix(header[k..], [EMPTY_LINE]);
    OneLine();
    var line := later[0];
    var tail := Flat(later[1..]) + rest;
    assert Flat(later) == line + Flat(later[1..]);
    assert stream == done + (Flat(later) + rest);
    assert stream[|done|..] == Flat(later) + rest;
    assert stream[|done|..] == line + tail;
    if |Flat(header)| + 2 <= reach {
      var m := reach - |done|;
      assert |line| <= m;
      assert stream[|done|..][..m] == line + tail[..m - |line|];
      FirstOfHeader(line, tail[..m - |line|], limit);
    }
  }
}
