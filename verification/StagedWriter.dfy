/** The staging writer both tagged encoders use (include/nanom/tagged_encode.hpp:45-85 and
    include/nanom/protobuf_encode.hpp:194-230) over a sink that may refuse bytes (include/nanom/sink.hpp). */
module StagedWriter {
  import opened Bytes
  import opened Leb128

  /** The bytes the staging buffer holds. */
  const STAGE := 256

  datatype Error = Refused | TooLong

  class Writer {
    /** What the sink has taken; it refuses, whole, what would take it past `capacity`. */
    var sink: seq<byte>
    const capacity: nat
    var total: nat
    var err: Option<Error>
    var len: nat
    const buf: array<byte>
    /** Everything the encoder has asked to be written, from the first byte on. */
    ghost var asked: seq<byte>
    /** What the sink held before. */
    ghost const origin: seq<byte>

    constructor (sink: seq<byte>, capacity: nat)
      requires |sink| <= capacity
      ensures Valid() && fresh(buf) && err == None && asked == sink && this.capacity == capacity && origin == sink
    {
      this.sink, this.capacity, total, err, len, asked := sink, capacity, 0, None, 0, sink;
      origin := sink;
      buf := new byte[STAGE];
    }

    /** Nothing is lost, nothing is written past the sink, and a refusal means the bytes asked for do not fit. */
    ghost predicate Valid()
      reads this, buf
    {
      && len <= STAGE == buf.Length && |sink| <= capacity && origin <= sink && total == |sink| - |origin|
      && match err
         case None => sink + buf[..len] == asked
         case Some(Refused) => sink <= asked && |asked| > capacity
         case Some(TooLong) => sink <= asked
    }

    /** byte_sink::put of a sink with room for `capacity` bytes. */
    method Put(bytes: seq<byte>) returns (ok: bool)
      modifies this`sink
      ensures ok <==> |old(sink)| + |bytes| <= capacity
      ensures sink == if ok then old(sink) + bytes else old(sink)
    {
      ok := |sink| + |bytes| <= capacity;
      if ok {
        sink := sink + bytes;
      }
    }

    /** What a write of `bytes` does: they are asked for, an earlier error stays, a new one is a refusal. */
    ghost predicate Wrote(before: seq<byte>, errBefore: Option<Error>, bytes: seq<byte>)
      reads this
    {
      && asked == before + bytes
      && (if errBefore == None then err == None || err == Some(Refused) else err == errBefore)
    }

    method Flush()
      requires Valid()
      modifies this`sink, this`total, this`err, this`len
      ensures Valid() && Wrote(old(asked), old(err), []) && (err == None ==> len == 0 && sink == asked)
    {
      assert asked + [] == asked;
      if err != None || len == 0 {
        return;
      }
      var ok := Put(buf[..len]);
      if !ok {
        err := Some(Refused);
        return;
      }
      total := total + len;
      len := 0;
    }

    /** bytes into the staging buffer, room for them proved. */
    method Stage(bytes: seq<byte>)
      requires Valid() && (err == None ==> len + |bytes| <= STAGE)
      modifies this, buf
      ensures Valid() && Wrote(old(asked), old(err), bytes) && err == old(err)
    {
      asked := asked + bytes;
      if err != None {
        return;
      }
      for i := 0 to |bytes|
        modifies buf
        invariant forall k :: 0 <= k < len ==> buf[k] == old(buf[k])
        invariant forall k :: 0 <= k < i ==> buf[len + k] == bytes[k]
      {
        buf[len + i] := bytes[i];
      }
      assert buf[..len + |bytes|] == old(buf[..len]) + bytes;
      assert sink + (old(buf[..len]) + bytes) == sink + old(buf[..len]) + bytes;
      len := len + |bytes|;
    }

    /** u8, varint and fixed: staged, after a flush when fewer than `slack` bytes are free. */
    method Small(bytes: seq<byte>, slack: nat)
      requires Valid() && |bytes| <= slack <= STAGE
      modifies this, buf
      ensures Valid() && Wrote(old(asked), old(err), bytes)
    {
      if STAGE - len < slack {
        Flush();
      }
      Stage(bytes);
    }

    method U8(b: byte)
      requires Valid()
      modifies this, buf
      ensures Valid() && Wrote(old(asked), old(err), [b])
    {
      Small([b], 1);
    }

    method Varint(v: nat)
      requires Valid() && v < Pow2(64)
      modifies this, buf
      ensures Valid() && Wrote(old(asked), old(err), Uleb128(v))
    {
      hide Uleb128, Pow2;
      Pow2Monotone(64, 70);
      UlebLength(v, 10);
      var bytes := Uleb128Encode(v);
      Small(bytes, 10);
    }

    method Fixed(v: nat, n: nat)
      requires Valid() && n <= 8
      modifies this, buf
      ensures Valid() && Wrote(old(asked), old(err), LeBytes(v, n))
    {
      Small(LeBytes(v, n), 8);
    }

    /** Small payloads are staged, large ones go straight to the sink. */
    method Raw(bytes: seq<byte>)
      requires Valid()
      modifies this, buf
      ensures Valid() && Wrote(old(asked), old(err), bytes)
    {
      if err != None || |bytes| == 0 {
        asked := asked + bytes;
        return;
      }
      if |bytes| <= STAGE - len {
        Stage(bytes);
        return;
      }
      Flush();
      if err != None {
        asked := asked + bytes;
        return;
      }
      asked := asked + bytes;
      var ok := Put(bytes);
      if !ok {
        err := Some(Refused);
        return;
      }
      total := total + |bytes|;
      assert buf[..0] == [];
    }

    /** After an error the encoder stops short: what it would still have asked for. */
    ghost method Ask(bytes: seq<byte>)
      requires Valid() && err != None
      modifies this`asked
      ensures Valid() && Wrote(old(asked), old(err), bytes)
    {
      asked := asked + bytes;
    }

    /** A length the wire cannot carry. */
    method Fail()
      requires Valid()
      modifies this`err
      ensures Valid() && err == if old(err) == None then Some(TooLong) else old(err)
    {
      if err == None {
        err := Some(TooLong);
      }
    }
  }

  /** When all is asked for and flushed: either the sink holds exactly what was asked and `total` counts it,
      or what was asked does not fit and the sink holds a prefix of it within its capacity. */
  method Finish(w: Writer)
    requires w.Valid() && w.err != Some(TooLong)
    modifies w, w.buf
    ensures w.Valid() && w.asked == old(w.asked)
    ensures w.err == None <==> |w.asked| <= w.capacity
    ensures w.err == None ==> w.sink == w.asked && w.total == |w.asked| - |w.origin|
    ensures w.sink <= w.asked && |w.sink| <= w.capacity
  {
    w.Flush();
    assert w.asked + [] == w.asked;
  }
}
