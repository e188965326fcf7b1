/** The Thrift compact encoder through the staging writer: include/nanom/tagged_encode.hpp:87-206. */
module ThriftWriter {
  import opened Bytes
  import opened Leb128
  import opened Thrift
  import opened ThriftEncode
  import opened StagedWriter

  /** What writing a value does: an encodable one is asked for byte by byte, any other leaves an error. */
  ghost predicate Written(w: Writer, before: seq<byte>, errBefore: Option<Error>, ok: bool, bytes: seq<byte>)
    reads w
  {
    && (errBefore != None ==> w.err == errBefore)
    && (if ok then w.Wrote(before, errBefore, bytes) else w.err != None)
  }

  /** writer::list_header. */
  method WriteListHead(w: Writer, n: nat, t: nat)
    requires w.Valid() && 1 <= t <= 12
    modifies w, w.buf
    ensures w.Valid() && Written(w, old(w.asked), old(w.err), n <= INT32_MAX, ListHead(n, t))
  {
    hide Uleb128;
    if n > INT32_MAX {
      w.Fail();
      return;
    }
    if n < 15 {
      w.U8(16 * n + t);
    } else {
      w.U8(240 + t);
      assert n < Pow2(64) by { Pow2Values(); }
      w.Varint(n);
      assert old(w.asked) + [240 + t] + Uleb128(n) == old(w.asked) + ([240 + t] + Uleb128(n));
    }
  }

  /** writer::length and writer::raw. */
  method WriteBlob(w: Writer, bytes: seq<byte>)
    requires w.Valid()
    modifies w, w.buf
    ensures w.Valid() && Written(w, old(w.asked), old(w.err), |bytes| <= INT32_MAX, Uleb128(|bytes|) + bytes)
  {
    hide Uleb128;
    if |bytes| > INT32_MAX {
      w.Fail();
      return;
    }
    assert |bytes| < Pow2(64) by { Pow2Values(); }
    w.Varint(|bytes|);
    w.Raw(bytes);
    assert old(w.asked) + Uleb128(|bytes|) + bytes == old(w.asked) + (Uleb128(|bytes|) + bytes);
  }

  method WriteInt(w: Writer, n: int, bits: nat)
    requires w.Valid() && 1 <= bits <= 64 && IsSigned(n, bits)
    modifies w, w.buf
    ensures w.Valid() && w.Wrote(old(w.asked), old(w.err), Uleb128(ZigzagNat(n)))
  {
    hide Uleb128, Pow2, ZigzagEncode;
    ZigzagValue(n, bits);
    Pow2Monotone(bits, 64);
    w.Varint(ZigzagEncode(n, bits));
  }

  method WriteFieldHead(w: Writer, id: nat, last: nat, t: nat)
    requires w.Valid() && last < id <= 32767 && 1 <= t <= 12
    modifies w, w.buf
    ensures w.Valid() && w.Wrote(old(w.asked), old(w.err), FieldHead(id, last, t))
  {
    hide Uleb128;
    var delta := id - last;
    if 1 <= delta <= 15 {
      w.U8(16 * delta + t);
    } else {
      w.U8(t);
      assert IsSigned(id, 16) by { Pow2Values(); Pow2Twice(16); }
      WriteInt(w, id, 16);
      assert old(w.asked) + [t] + Uleb128(2 * id) == old(w.asked) + ([t] + Uleb128(2 * id));
    }
  }

  /** tagged_encode.hpp:109-154. */
  method WriteValue(w: Writer, v: Value, ty: Type)
    requires w.Valid() && SchemaOk(ty) && Typed(v, ty)
    modifies w, w.buf
    ensures w.Valid() && Written(w, old(w.asked), old(w.err), Encodable(v), Enc(v, ty))
    decreases ty, 1, 0
  {
    hide Uleb128, IsSigned, Pow2, LeBytes;
    match ty
    case Bool => w.U8(if v.b then 1 else 2);
    case I8 =>
      SignedByte(v.n);
      w.U8(if v.n >= 0 then v.n else v.n + 256);
    case I16 => WriteInt(w, v.n, 16);
    case I32 => WriteInt(w, v.n, 32);
    case I64 => WriteInt(w, v.n, 64);
    case Dbl => w.Raw(LeBytes(v.bits, 8));
    case Binary => WriteBlob(w, v.bytes);
    case List(elem) => WriteList(w, v, elem);
    case Empty => w.U8(0);
    case Struct(fields) => WriteStruct(w, v, fields);
  }

  method WriteList(w: Writer, v: Value, elem: Type)
    requires w.Valid() && SchemaOk(elem) && Typed(v, List(elem))
    modifies w, w.buf
    ensures w.Valid() && Written(w, old(w.asked), old(w.err), Encodable(v), Enc(v, List(elem)))
    decreases List(elem), 0, 0
  {
    hide SchemaOk, ListHead, EncElems, Enc, Encodable, EncodableUpTo;
    ghost var before := w.asked;
    var n := |v.elems|;
    WriteListHead(w, n, TypeOf(elem));
    ghost var head := ListHead(n, TypeOf(elem));
    ghost var mid, midErr := w.asked, w.err;
    assert v.elems[0..] == v.elems;
    ElemsStart(v.elems);
    for i := 0 to n
      invariant w.Valid() && (midErr != None ==> w.err == midErr)
      invariant if EncodableUpTo(v.elems, i)
                then w.asked + EncElems(v.elems[i..], elem) == mid + EncElems(v.elems, elem)
                     && (midErr == None ==> w.err == None || w.err == Some(Refused))
                else w.err != None
    {
      ElemsStep(v.elems, elem, i);
      ghost var now := w.asked;
      WriteValue(w, v.elems[i], elem);
      assert now + (Enc(v.elems[i], elem) + EncElems(v.elems[i + 1..], elem)) ==
             now + Enc(v.elems[i], elem) + EncElems(v.elems[i + 1..], elem);
    }
    ElemsEnd(v, elem);
    assert w.asked + [] == w.asked;
    assert before + head + EncElems(v.elems, elem) == before + (head + EncElems(v.elems, elem));
  }

  ghost predicate EncodableUpTo(vs: seq<Value>, i: nat)
    requires i <= |vs|
  {
    forall k :: 0 <= k < i ==> Encodable(vs[k])
  }

  lemma {:induction false} ElemsStart(vs: seq<Value>)
    ensures EncodableUpTo(vs, 0)
  {
  }

  lemma {:induction false} ElemsStep(vs: seq<Value>, elem: Type, i: nat)
    requires SchemaOk(elem) && (forall k :: 0 <= k < |vs| ==> Typed(vs[k], elem)) && i < |vs|
    ensures EncElems(vs[i..], elem) == Enc(vs[i], elem) + EncElems(vs[i + 1..], elem)
    ensures EncodableUpTo(vs, i + 1) <==> EncodableUpTo(vs, i) && Encodable(vs[i])
  {
    hide Enc, Encodable, Typed, SchemaOk;
    assert vs[i..][1..] == vs[i + 1..];
  }

  lemma {:induction false} ElemsEnd(v: Value, elem: Type)
    requires SchemaOk(elem) && Typed(v, List(elem))
    ensures EncElems(v.elems[|v.elems|..], elem) == []
    ensures Encodable(v) <==> |v.elems| <= INT32_MAX && EncodableUpTo(v.elems, |v.elems|)
    ensures Enc(v, List(elem)) == ListHead(|v.elems|, TypeOf(elem)) + EncElems(v.elems, elem)
  {
  }

  /** tagged_encode.hpp:157-193. */
  method WriteStruct(w: Writer, v: Value, fields: seq<Field>)
    requires w.Valid() && SchemaOk(Struct(fields)) && Typed(v, Struct(fields))
    modifies w, w.buf
    ensures w.Valid() && Written(w, old(w.asked), old(w.err), Encodable(v), Enc(v, Struct(fields)))
    decreases Struct(fields), 0, 0
  {
    hide SchemaOk, Typed, Encodable, EncFields, Enc, FieldHead, FieldWire;
    Shape(v, fields);
    var ms := v.members;
    var last := 0;
    ghost var before, errBefore := w.asked, w.err;
    FieldsStart(v, fields);
    for i := 0 to |fields|
      invariant w.Valid() && (errBefore != None ==> w.err == errBefore)
      invariant 0 <= last && (i < |fields| ==> last < fields[i].id)
      invariant if MembersUpTo(ms, i)
                then w.asked + EncFields(fields, ms, i, last) == before + EncFields(fields, ms, 0, 0)
                     && (errBefore == None ==> w.err == None || w.err == Some(Refused))
                else w.err != None
    {
      FieldCases(v, fields, i, last);
      if w.err != None {
        ghost var rest := if ms[i].None? then [] else FieldBytes(ms[i].value, fields[i], last);
        ghost var now := w.asked;
        w.Ask(rest);
        if ms[i].Some? {
          assert now + (rest + EncFields(fields, ms, i + 1, fields[i].id)) ==
                 now + rest + EncFields(fields, ms, i + 1, fields[i].id);
          last := fields[i].id;
        } else {
          assert now + [] == now;
        }
      } else if ms[i].Some? {
        ghost var now := w.asked;
        WriteField(w, ms[i].value, fields[i], last);
        assert now + (FieldBytes(ms[i].value, fields[i], last) + EncFields(fields, ms, i + 1, fields[i].id)) ==
               now + FieldBytes(ms[i].value, fields[i], last) + EncFields(fields, ms, i + 1, fields[i].id);
        last := fields[i].id;
      }
    }
    FieldsStop(v, fields, last);
    if w.err != None {
      w.Ask([0]);
    } else {
      w.U8(0);
    }
  }

  /** One present field: its header and, unless it is a bool, its value. */
  ghost function FieldBytes(v: Value, f: Field, last: nat): seq<byte>
    requires last < f.id <= 32767 && SchemaOk(f.ty) && Typed(v, f.ty)
  {
    FieldHead(f.id, last, FieldWire(v, f.ty)) + (if f.ty.Bool? then [] else Enc(v, f.ty))
  }

  method WriteField(w: Writer, v: Value, f: Field, last: nat)
    requires w.Valid() && last < f.id <= 32767 && SchemaOk(f.ty) && Typed(v, f.ty)
    modifies w, w.buf
    ensures w.Valid() && Written(w, old(w.asked), old(w.err), Encodable(v), FieldBytes(v, f, last))
    decreases f, 0, 0
  {
    hide SchemaOk, Typed, Encodable, Enc, FieldHead;
    WriteFieldHead(w, f.id, last, FieldWire(v, f.ty));
    ghost var head := FieldHead(f.id, last, FieldWire(v, f.ty));
    if f.ty.Bool? {
      BoolEncodable(v);
      assert head + [] == head;
    } else {
      WriteValue(w, v, f.ty);
      assert old(w.asked) + head + Enc(v, f.ty) == old(w.asked) + (head + Enc(v, f.ty));
    }
  }

  lemma {:induction false} BoolEncodable(v: Value)
    requires Typed(v, Bool)
    ensures Encodable(v)
  {
  }

  ghost predicate MembersUpTo(ms: seq<Option<Value>>, i: nat)
    requires i <= |ms|
  {
    forall k :: 0 <= k < i ==> ms[k].Some? ==> Encodable(ms[k].value)
  }

  lemma {:induction false} Shape(v: Value, fields: seq<Field>)
    requires Typed(v, Struct(fields))
    ensures v.VStruct? && |v.members| == |fields| && v == VStruct(v.members)
  {
  }

  lemma {:induction false} FieldsStart(v: Value, fields: seq<Field>)
    requires SchemaOk(Struct(fields)) && Typed(v, Struct(fields))
    ensures |fields| > 0 ==> 0 < fields[0].id
    ensures Enc(v, Struct(fields)) == EncFields(fields, v.members, 0, 0)
    ensures MembersUpTo(v.members, 0)
  {
  }

  lemma {:induction false} FieldCases(v: Value, fields: seq<Field>, i: nat, last: nat)
    requires SchemaOk(Struct(fields)) && Typed(v, Struct(fields)) && i < |fields| && last < fields[i].id
    ensures 1 <= fields[i].id <= 32767 && SchemaOk(fields[i].ty) && v == VStruct(v.members)
    ensures i + 1 < |fields| ==> fields[i].id < fields[i + 1].id
    ensures v.members[i].None? ==> EncFields(fields, v.members, i, last) == EncFields(fields, v.members, i + 1, last)
    ensures v.members[i].Some? ==>
      && Typed(v.members[i].value, fields[i].ty)
      && EncFields(fields, v.members, i, last) ==
         FieldBytes(v.members[i].value, fields[i], last) + EncFields(fields, v.members, i + 1, fields[i].id)
    ensures MembersUpTo(v.members, i + 1) <==>
            MembersUpTo(v.members, i) && (v.members[i].Some? ==> Encodable(v.members[i].value))
  {
    hide SchemaOk, Typed, Encodable, Enc, EncFields, FieldHead, FieldWire;
    Shape(v, fields);
    MemberTyped(fields, v.members, i);
    EncFieldsStep(fields, v.members, i, last);
  }

  lemma {:induction false} FieldsStop(v: Value, fields: seq<Field>, last: nat)
    requires SchemaOk(Struct(fields)) && Typed(v, Struct(fields))
    ensures EncFields(fields, v.members, |fields|, last) == [0]
    ensures MembersUpTo(v.members, |fields|) <==> Encodable(v)
  {
  }

  /** thrift_compact_encode: into a sink holding `out`, with room for `capacity` bytes in all. It succeeds
      exactly when every length fits the wire and the encoding fits the sink. */
  method Encode(m: Value, fields: seq<Field>, out: seq<byte>, capacity: nat)
    returns (r: Option<nat>, out': seq<byte>)
    requires SchemaOk(Struct(fields)) && Typed(m, Struct(fields)) && |out| <= capacity
    ensures r.Some? <==> Encodable(m) && |out| + |Enc(m, Struct(fields))| <= capacity
    ensures r.Some? ==> out' == out + Enc(m, Struct(fields)) && r.value == |Enc(m, Struct(fields))|
    ensures |out'| <= capacity && out <= out'
  {
    hide SchemaOk, Typed, Encodable, Enc;
    var w := new Writer(out, capacity);
    WriteStruct(w, m, fields);
    w.Flush();
    if w.err != None {
      return None, w.sink;
    }
    return Some(w.total), w.sink;
  }
}
