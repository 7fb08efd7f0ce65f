/** The libjpeg destination manager that compresses to memory: a staging buffer in front of the
    output. */
module Destination {
  import opened Words

  const OUTPUT_BUF_SIZE: nat := 4096

  class Manager {
    const outbuffer: array<Byte>
    const buffer: array<Byte>
    var cursor: nat
    var written: nat
    var free: nat
    ghost var emitted: seq<Byte>

    /** Output so far plus staged bytes is all that was emitted. */
    ghost predicate Valid()
      reads this, outbuffer, buffer
    {
      && outbuffer != buffer && buffer.Length == OUTPUT_BUF_SIZE
      && 0 < free <= OUTPUT_BUF_SIZE && written == cursor <= outbuffer.Length
      && outbuffer[..cursor] + buffer[..OUTPUT_BUF_SIZE - free] == emitted
    }

    /** dest_buffer and init_destination */
    constructor (outbuffer: array<Byte>)
      ensures Valid() && fresh(buffer) && this.outbuffer == outbuffer && emitted == []
    {
      this.outbuffer := outbuffer;
      buffer := new Byte[OUTPUT_BUF_SIZE](_ => 0);
      cursor, written, free, emitted := 0, 0, OUTPUT_BUF_SIZE, [];
    }

    /** memcpy(outbuffer_cursor, buffer, n) and the two advances */
    method Flush(n: nat)
      requires outbuffer != buffer && n <= buffer.Length && cursor + n <= outbuffer.Length
      modifies this`cursor, this`written, outbuffer
      ensures cursor == old(cursor) + n && written == old(written) + n
      ensures outbuffer[..cursor] == old(outbuffer[..cursor]) + buffer[..n]
      ensures outbuffer[cursor..] == old(outbuffer[..])[cursor..]
    {
      forall i | 0 <= i < n {
        outbuffer[cursor + i] := buffer[i];
      }
      cursor := cursor + n;
      written := written + n;
    }

    /** One byte from the compressor: it stores, counts down, and has a full buffer emptied
        (empty_output_buffer). */
    method Emit(b: Byte)
      requires Valid() && |emitted| < outbuffer.Length
      modifies this, outbuffer, buffer
      ensures Valid() && emitted == old(emitted) + [b]
      ensures old(cursor) <= cursor <= outbuffer.Length
      ensures outbuffer[cursor..] == old(outbuffer[..])[cursor..]
    {
      ghost var staged := OUTPUT_BUF_SIZE - free;
      buffer[OUTPUT_BUF_SIZE - free] := b;
      free := free - 1;
      emitted := emitted + [b];
      assert buffer[..staged + 1] == old(buffer[..OUTPUT_BUF_SIZE - free]) + [b];
      if free == 0 {
        Flush(OUTPUT_BUF_SIZE);
        free := OUTPUT_BUF_SIZE;
        assert buffer[..0] == [];
      }
    }

    /** term_destination: afterwards the output is exactly what was emitted. */
    method Term()
      requires Valid() && |emitted| <= outbuffer.Length
      modifies this`cursor, this`written, outbuffer
      ensures cursor == written == |emitted| && outbuffer[..written] == emitted == old(emitted)
      ensures outbuffer[cursor..] == old(outbuffer[..])[cursor..]
    {
      Flush(OUTPUT_BUF_SIZE - free);
    }

    /** A whole picture. */
    method Compress(picture: seq<Byte>)
      requires Valid() && emitted == [] && |picture| <= outbuffer.Length
      modifies this, outbuffer, buffer
      ensures written == |picture| && outbuffer[..] == picture + old(outbuffer[..])[|picture|..]
    {
      ghost var was := outbuffer[..];
      var i := 0;
      while i < |picture|
        invariant i <= |picture| && Valid() && emitted == picture[..i]
        invariant outbuffer[cursor..] == was[cursor..]
      {
        assert picture[..i + 1] == picture[..i] + [picture[i]];
        ghost var c, before := cursor, outbuffer[..];
        assert before[c..] == was[c..];
        Emit(picture[i]);
        assert before[cursor..] == before[c..][cursor - c..] == was[c..][cursor - c..] == was[cursor..];
        i := i + 1;
      }
      Term();
      assert outbuffer[..] == outbuffer[..written] + outbuffer[written..];
    }
  }
}
