/** The JPEG encoder callback of the Raspberry Pi camera input: a frame arrives in fragments, under a
    lock that stays held from one callback to the next. */
module Raspicam {
  import opened Words

  /** One callback: the fragment, and whether its flags say FRAME_END or TRANSMISSION_FAILED. */
  datatype Fragment = Fragment(data: seq<Byte>, end: bool)

  // ---- what a callback sequence amounts to ----

  /** The bytes of the frame being assembled. */
  function Pending(es: seq<Fragment>): seq<Byte> {
    if es == [] then []
    else if es[|es| - 1].end then []
    else Pending(es[..|es| - 1]) + es[|es| - 1].data
  }

  /** The frames ended so far. */
  function Frames(es: seq<Fragment>): seq<seq<Byte>> {
    if es == [] then []
    else
      var before, e := es[..|es| - 1], es[|es| - 1];
      if e.end then Frames(before) + [Pending(before) + e.data] else Frames(before)
  }

  /** Every frame that ends has at least one byte. */
  ghost predicate NonEmptyFrames(es: seq<Fragment>) {
    forall k :: 0 <= k < |es| && es[k].end ==> Pending(es[..k]) + es[k].data != []
  }

  /** A frame that ends without a byte. */
  lemma EmptyFrame(es: seq<Fragment>)
    requires Pending(es) == []
    ensures !NonEmptyFrames(es + [Fragment([], true)])
  {
    var all := es + [Fragment([], true)];
    assert all[..|es|] == es && all[|es|].end && Pending(all[..|es|]) + all[|es|].data == [];
  }

  /** A frame of several fragments is their concatenation in order. */
  lemma {:induction false} FragmentsConcatenate(es: seq<Fragment>, fs: seq<seq<Byte>>)
    requires |fs| > 0
    ensures var run := seq(|fs|, i requires 0 <= i < |fs| => Fragment(fs[i], i == |fs| - 1));
            (Pending(es) == [] ==> Frames(es + run) == Frames(es) + [Flat(fs)])
    decreases |fs|
  {
    var run := seq(|fs|, i requires 0 <= i < |fs| => Fragment(fs[i], i == |fs| - 1));
    var body := run[..|fs| - 1];
    if Pending(es) == [] {
      Unended(es, fs[..|fs| - 1], body);
      assert es + run == (es + body) + [Fragment(fs[|fs| - 1], true)];
      assert (es + run)[..|es + run| - 1] == es + body;
    }
  }

  function Flat(fs: seq<seq<Byte>>): seq<Byte> {
    if fs == [] then [] else Flat(fs[..|fs| - 1]) + fs[|fs| - 1]
  }

  lemma {:induction false} Unended(es: seq<Fragment>, fs: seq<seq<Byte>>, body: seq<Fragment>)
    requires Pending(es) == [] && |body| == |fs|
    requires forall i :: 0 <= i < |fs| ==> body[i] == Fragment(fs[i], false)
    ensures Pending(es + body) == Flat(fs) && Frames(es + body) == Frames(es)
    decreases |fs|
  {
    if fs == [] {
      assert es + body == es;
    } else {
      var n := |fs| - 1;
      Unended(es, fs[..n], body[..n]);
      assert (es + body)[..|es + body| - 1] == es + body[..n];
    }
  }

  // ---- the callback ----

  class Encoder {
    var buf: array<Byte>
    var size: nat
    var offset: nat
    var lockHeld: bool
    var pool: nat
    var port: nat
    /** An unlock of a mutex the thread does not hold has happened. */
    var badUnlock: bool
    ghost var published: seq<seq<Byte>>
    ghost var events: seq<Fragment>

    ghost predicate Valid()
      reads this, buf
    {
      && offset <= buf.Length && buf[..offset] == Pending(events)
      && published == Frames(events)
      && (lockHeld <==> offset > 0)
      && (badUnlock <==> !NonEmptyFrames(events))
      && (published != [] && offset == 0 ==> size <= buf.Length && buf[..size] == published[|published| - 1])
    }

    constructor (capacity: nat, headers: nat)
      ensures Valid() && events == [] && pool == 0 && port == headers && buf.Length == capacity && fresh(buf)
    {
      buf := new Byte[capacity];
      size, offset, lockHeld, pool, port, badUnlock := 0, 0, false, 0, headers, false;
      published, events := [], [];
    }

    /** encoder_buffer_callback. The fragment must fit, as nothing checks it; enabled and sendOk are
        what the port and mmal_port_send_buffer answer. */
    method Callback(data: seq<Byte>, end: bool, enabled: bool, sendOk: bool)
      requires Valid() && offset + |data| <= buf.Length && port > 0
      modifies this, buf
      ensures Valid() && buf == old(buf) && events == old(events) + [Fragment(data, end)]
      ensures badUnlock <==> old(badUnlock) || (end && old(offset) == 0 && data == [])
      ensures end ==> offset == 0 && size == old(offset) + |data|
      ensures pool == old(pool) + if enabled then 0 else 1
      ensures port == old(port) - if enabled && sendOk then 0 else 1
      ensures pool + port == old(pool + port) - if enabled && !sendOk then 1 else 0
    {
      hide Pending, Frames, NonEmptyFrames;
      ghost var es, e := events, Fragment(data, end);
      OneMore(es, e);
      EndingKept(es, e);
      Absorb(data);
      if end {
        Finish();
      }
      events := es + [e];
      Recycle(enabled, sendOk);
    }

    /** The fragment, under the lock taken with the frame's first byte. */
    method Absorb(data: seq<Byte>)
      requires offset + |data| <= buf.Length
      modifies this`offset, this`lockHeld, buf
      ensures offset == old(offset) + |data| && buf[..offset] == old(buf[..offset]) + data
      ensures lockHeld == (old(lockHeld) || (data != [] && old(offset) == 0))
      ensures data == [] ==> buf[..] == old(buf[..])
    {
      if |data| > 0 {
        if offset == 0 {
          lockHeld := true;
        }
        CopyIn(data);
        offset := offset + |data|;
      }
    }

    /** The end of a frame: size, broadcast, unlock. */
    method Finish()
      requires offset <= buf.Length
      modifies this`size, this`offset, this`lockHeld, this`badUnlock, this`published
      ensures size == old(offset) && offset == 0 && !lockHeld
      ensures published == old(published) + [buf[..old(offset)]]
      ensures badUnlock == (old(badUnlock) || !old(lockHeld))
    {
      size := offset;
      offset := 0;
      published := published + [buf[..size]];
      if !lockHeld {
        badUnlock := true;
      }
      lockHeld := false;
    }

    /** The header goes back to the pool, and one from the pool to the port. */
    method Recycle(enabled: bool, sendOk: bool)
      requires port > 0
      modifies this`pool, this`port
      ensures pool == old(pool) + if enabled then 0 else 1
      ensures port == old(port) - if enabled && sendOk then 0 else 1
    {
      port, pool := port - 1, pool + 1;
      if enabled {
        pool := pool - 1;
        if sendOk {
          port := port + 1;
        }
      }
    }

    /** memcpy to the current offset */
    method CopyIn(data: seq<Byte>)
      requires offset + |data| <= buf.Length
      modifies buf
      ensures buf[..offset + |data|] == old(buf[..offset]) + data
    {
      var i := 0;
      while i < |data|
        invariant 0 <= i <= |data|
        invariant buf[..offset + i] == old(buf[..offset]) + data[..i]
      {
        buf[offset + i] := data[i];
        i := i + 1;
      }
    }
  }

  lemma EndingKept(es: seq<Fragment>, e: Fragment)
    ensures NonEmptyFrames(es + [e]) <==> NonEmptyFrames(es) && (e.end ==> Pending(es) + e.data != [])
  {
    var all := es + [e];
    assert all[..|es|] == es;
    assert forall k :: 0 <= k < |es| ==> all[k] == es[k] && all[..k] == es[..k];
    if NonEmptyFrames(all) {
      assert e.end ==> Pending(all[..|es|]) + all[|es|].data != [];
      forall k | 0 <= k < |es| && es[k].end
        ensures Pending(es[..k]) + es[k].data != []
      {
        assert Pending(all[..k]) + all[k].data != [];
      }
    }
  }

  lemma OneMore(es: seq<Fragment>, e: Fragment)
    ensures Pending(es + [e]) == if e.end then [] else Pending(es) + e.data
    ensures Frames(es + [e]) == if e.end then Frames(es) + [Pending(es) + e.data] else Frames(es)
  {
    assert (es + [e])[..|es + [e]| - 1] == es;
  }
}
