/** The Thrift compact writer, include/nanom/tagged_encode.hpp section 42, and the round trip. */
module ThriftEncode {
  import opened Bytes
  import opened Leb128
  import opened Tagged
  import opened Thrift

  // ------------------------------------------------------------------
  // Messages a schema admits
  // ------------------------------------------------------------------

  /** Ids are 1..32767 and strictly ascending, at every level. */
  ghost predicate SchemaOk(ty: Type) {
    match ty
    case List(elem) => SchemaOk(elem)
    case Struct(fields) =>
      && (forall i :: 0 <= i < |fields| ==> 1 <= fields[i].id <= 32767 && SchemaOk(fields[i].ty))
      && (forall i, j :: 0 <= i < j < |fields| ==> fields[i].id < fields[j].id)
    case _ => true
  }

  /** v is a value of the member type ty. */
  ghost predicate Typed(v: Value, ty: Type)
    decreases ty
  {
    match ty
    case Bool => v.VBool?
    case I8 => v.VInt? && IsSigned(v.n, 8)
    case I16 => v.VInt? && IsSigned(v.n, 16)
    case I32 => v.VInt? && IsSigned(v.n, 32)
    case I64 => v.VInt? && IsSigned(v.n, 64)
    case Dbl => v.VDbl? && v.bits < Pow2(64)
    case Binary => v.VBin?
    case List(elem) => v.VList? && forall i :: 0 <= i < |v.elems| ==> Typed(v.elems[i], elem)
    case Empty => v.VEmpty?
    case Struct(fields) => v.VStruct? && |v.members| == |fields| && forall i :: 0 <= i < |fields| ==>
      if v.members[i].None? then fields[i].presence.Optional? else Typed(v.members[i].value, fields[i].ty)
  }

  /** No string or list exceeds the wire's i32 length: what the writer refuses otherwise. */
  ghost predicate Encodable(v: Value) {
    match v
    case VBin(bytes) => |bytes| <= INT32_MAX
    case VList(elems) => |elems| <= INT32_MAX && forall i :: 0 <= i < |elems| ==> Encodable(elems[i])
    case VStruct(members) =>
      forall i :: 0 <= i < |members| ==> members[i].Some? ==> Encodable(members[i].value)
    case _ => true
  }

  /** v, read at this depth, stays within the reader's nesting limit. */
  ghost predicate DepthOk(v: Value, depth: nat)
    decreases v
  {
    match v
    case VList(elems) => depth <= MAX_DEPTH && forall i :: 0 <= i < |elems| ==> DepthOk(elems[i], depth + 1)
    case VEmpty => depth + 1 <= MAX_DEPTH
    case VStruct(members) =>
      && depth + 1 <= MAX_DEPTH
      && forall i :: 0 <= i < |members| ==> members[i].Some? ==> DepthOk(members[i].value, depth + 1)
    case _ => true
  }

  // ------------------------------------------------------------------
  // What is written
  // ------------------------------------------------------------------

  function ListHead(n: nat, t: nat): (s: seq<byte>)
    requires t < 16
  {
    if n < 15 then [16 * n + t] else [240 + t] + Uleb128(n)
  }

  function FieldHead(id: nat, last: nat, t: nat): (s: seq<byte>)
    requires last < id <= 32767 && 1 <= t <= 12
    ensures |s| >= 1
  {
    if id - last <= 15 then [16 * (id - last) + t] else [t] + Uleb128(2 * id)
  }

  function FieldWire(v: Value, ty: Type): (t: nat)
    ensures 1 <= t <= 12
  {
    if ty.Bool? && v == VBool(false) then 2 else TypeOf(ty)
  }

  /** One value as a list element or a field body. */
  function Enc(v: Value, ty: Type): (s: seq<byte>)
    requires SchemaOk(ty) && Typed(v, ty)
    ensures |s| >= MinElemBytes(TypeOf(ty))
    decreases ty, 1, 0
  {
    match ty
    case Bool => [if v.b then 1 else 2]
    case I8 =>
      assert Pow2(7) == 128 by { Pow2Values(); }
      [if v.n >= 0 then v.n else v.n + 256]
    case Dbl => LeBytes(v.bits, 8)
    case Binary => Uleb128(|v.bytes|) + v.bytes
    case List(elem) => ListHead(|v.elems|, TypeOf(elem)) + EncElems(v.elems, elem)
    case Empty => [0]
    case Struct(fields) => EncFields(fields, v.members, 0, 0)
    case _ => Uleb128(ZigzagNat(v.n))
  }

  function EncElems(vs: seq<Value>, elem: Type): (s: seq<byte>)
    requires SchemaOk(elem) && forall i :: 0 <= i < |vs| ==> Typed(vs[i], elem)
    ensures |s| >= |vs| * MinElemBytes(TypeOf(elem))
    decreases elem, 2, |vs|
  {
    if |vs| == 0 then [] else Enc(vs[0], elem) + EncElems(vs[1..], elem)
  }

  /** The fields from number i on, after one with id `last`, and the STOP byte. */
  function EncFields(fields: seq<Field>, members: seq<Option<Value>>, i: nat, last: nat): (s: seq<byte>)
    requires SchemaOk(Struct(fields)) && Typed(VStruct(members), Struct(fields)) && i <= |fields|
    requires i < |fields| ==> last < fields[i].id
    ensures |s| >= 1
    decreases Struct(fields), 0, |fields| - i
  {
    if i == |fields| then [0]
    else if members[i].None? then EncFields(fields, members, i + 1, last)
    else
      var v, ty := members[i].value, fields[i].ty;
      FieldHead(fields[i].id, last, FieldWire(v, ty)) + (if ty.Bool? then [] else Enc(v, ty)) +
      EncFields(fields, members, i + 1, fields[i].id)
  }

  // ------------------------------------------------------------------
  // Reading back the parts
  // ------------------------------------------------------------------

  lemma {:induction false} VarintBack(s: seq<byte>, p: nat, u: nat)
    requires u < Pow2(64) && At(s, p, Uleb128(u))
    ensures Varint(s, p) == Ok(u, p + |Uleb128(u)|)
  {
    UlebRoundTrip(s, p, u, 64);
  }

  lemma {:induction false} Pow2Twice(w: nat)
    requires w > 0
    ensures Pow2(w) == 2 * Pow2(w - 1)
  {
  }

  lemma {:induction false} ZigzagBack(s: seq<byte>, p: nat, n: int, w: nat)
    requires 1 <= w <= 64 && IsSigned(n, w) && At(s, p, Uleb128(ZigzagNat(n)))
    ensures Zigzag(s, p, w) == Ok(n, p + |Uleb128(ZigzagNat(n))|)
  {
    hide Uleb128, At, Pow2, Varint;
    var u := ZigzagNat(n);
    Pow2Monotone(w - 1, 63);
    Pow2Twice(64);
    VarintBack(s, p, u);
    ZigzagDecodeValue(u, 64);
  }

  lemma {:induction false} ListHeadBack(s: seq<byte>, p: nat, n: nat, t: nat)
    requires n <= INT32_MAX && t < 16 && At(s, p, ListHead(n, t))
    requires n * MinElemBytes(t) <= |s| - (p + |ListHead(n, t)|)
    ensures ListHeader(s, p) == Ok(Header(n, t), p + |ListHead(n, t)|)
  {
    hide Uleb128;
    var head := ListHead(n, t);
    assert s[p] == head[0];
    if n >= 15 {
      AtConcat(s, p, [240 + t], Uleb128(n));
      Pow2Values();
      VarintBack(s, p + 1, n);
    }
  }

  lemma {:induction false} FieldHeadBack(s: seq<byte>, p: nat, id: nat, last: nat, t: nat)
    requires last < id <= 32767 && 1 <= t <= 12 && At(s, p, FieldHead(id, last, t))
    ensures p < |s| && s[p] != 0 && s[p] % 16 == t
    ensures FieldId(s, p + 1, s[p] / 16, last) == Ok(id, p + |FieldHead(id, last, t)|)
  {
    hide Uleb128, Zigzag;
    assert s[p] == FieldHead(id, last, t)[0];
    if id - last > 15 {
      AtConcat(s, p, [t], Uleb128(2 * id));
      assert IsSigned(id, 16) by { Pow2Values(); Pow2Twice(16); }
      ZigzagBack(s, p + 1, id, 16);
    }
  }

  lemma {:induction false} BlobBack(s: seq<byte>, p: nat, b: seq<byte>)
    requires |b| <= INT32_MAX && At(s, p, Uleb128(|b|) + b)
    ensures Blob(s, p) == Ok(b, p + |Uleb128(|b|) + b|)
  {
    hide Uleb128, Varint;
    AtConcat(s, p, Uleb128(|b|), b);
    Pow2Values();
    VarintBack(s, p, |b|);
  }

  lemma {:induction false} SlotOfOwn(fields: seq<Field>, i: nat)
    requires SchemaOk(Struct(fields)) && i < |fields|
    ensures SlotOf(fields, fields[i].id) == Some(i)
  {
  }

  // ------------------------------------------------------------------
  // The round trip
  // ------------------------------------------------------------------

  /** The members met before field i. */
  ghost function Present(members: seq<Option<Value>>, i: nat): (seen: set<nat>)
    requires i <= |members|
    ensures forall j :: j in seen <==> 0 <= j < i && members[j].Some?
  {
    if i == 0 then {}
    else Present(members, i - 1) + (if members[i - 1].Some? then {i - 1} else {})
  }

  /** A message read up to field i: the rest still holds its defaults. */
  ghost function UpTo(fields: seq<Field>, members: seq<Option<Value>>, i: nat): (ms: seq<Option<Value>>)
    requires |members| == |fields| && i <= |fields|
    ensures |ms| == |fields|
  {
    members[..i] + DefaultMembers(fields)[i..]
  }

  ghost predicate DepthOkFrom(members: seq<Option<Value>>, i: nat, depth: nat) {
    forall j :: i <= j < |members| ==> members[j].Some? ==> DepthOk(members[j].value, depth)
  }

  ghost predicate DepthOkAll(vs: seq<Value>, depth: nat) {
    forall j :: 0 <= j < |vs| ==> DepthOk(vs[j], depth)
  }

  ghost function Outcome(ok: bool, v: Value, next: nat): Result<Value> {
    if ok then Ok(v, next) else Fail(TooDeep)
  }

  /** Reading what was written gives the value back exactly when it nests within the limit; otherwise the
      reader says it is too deep. */
  lemma {:induction false} ReadBack(s: seq<byte>, p: nat, depth: nat, v: Value, ty: Type)
    requires SchemaOk(ty) && Typed(v, ty) && Encodable(v) && At(s, p, Enc(v, ty))
    ensures ReadValue(s, p, depth, ty, Default(ty)) == Outcome(DepthOk(v, depth), v, p + |Enc(v, ty)|)
    decreases ty, 1, 0
  {
    hide ReadValue, Enc, Typed, Encodable, At, DepthOk, Default;
    match ty
    case List(elem) => ReadBackList(s, p, depth, v, elem);
    case Struct(fields) => ReadBackStruct(s, p, depth, v, fields);
    case _ => ReadBackScalar(s, p, depth, v, ty);
  }

  lemma {:induction false} ReadBackScalar(s: seq<byte>, p: nat, depth: nat, v: Value, ty: Type)
    requires !ty.List? && !ty.Struct? && Typed(v, ty) && Encodable(v) && At(s, p, Enc(v, ty))
    ensures ReadValue(s, p, depth, ty, Default(ty)) == Outcome(DepthOk(v, depth), v, p + |Enc(v, ty)|)
  {
    hide Pow2, Uleb128, Zigzag, LeNat, LeBytes, Blob, IsSigned;
    AtSlice(s, p, Enc(v, ty));
    match ty
    case Bool =>
    case I8 => SignedByte(v.n);
    case I16 => ZigzagBack(s, p, v.n, 16);
    case I32 => ZigzagBack(s, p, v.n, 32);
    case I64 => ZigzagBack(s, p, v.n, 64);
    case Dbl => LeNatLeBytes(v.bits, 8);
    case Binary => BlobBack(s, p, v.bytes);
    case Empty =>
  }

  lemma {:induction false} SignedByte(n: int)
    requires IsSigned(n, 8)
    ensures -128 <= n < 128
  {
    Pow2Values();
  }

  lemma {:induction false} ReadBackList(s: seq<byte>, p: nat, depth: nat, v: Value, elem: Type)
    requires SchemaOk(elem) && Typed(v, List(elem)) && Encodable(v) && At(s, p, Enc(v, List(elem)))
    ensures ReadValue(s, p, depth, List(elem), Default(List(elem))) ==
            Outcome(DepthOk(v, depth), v, p + |Enc(v, List(elem))|)
    decreases List(elem), 0, 0
  {
    hide At, ReadElems, EncElems, ListHead, ListHeader, MinElemBytes, SchemaOk;
    var head, body := ListHead(|v.elems|, TypeOf(elem)), EncElems(v.elems, elem);
    AtConcat(s, p, head, body);
    AtSlice(s, p + |head|, body);
    ListHeadBack(s, p, |v.elems|, TypeOf(elem));
    if depth <= MAX_DEPTH {
      ReadBackElems(s, p + |head|, depth + 1, v.elems, elem, []);
      assert [] + v.elems == v.elems;
    }
  }

  lemma {:induction false} ReadBackElems(s: seq<byte>, p: nat, depth: nat, vs: seq<Value>, elem: Type, acc: seq<Value>)
    requires SchemaOk(elem) && forall i :: 0 <= i < |vs| ==> Typed(vs[i], elem) && Encodable(vs[i])
    requires At(s, p, EncElems(vs, elem))
    ensures ReadElems(s, p, depth, elem, |vs|, acc) ==
            Outcome(DepthOkAll(vs, depth), VList(acc + vs), p + |EncElems(vs, elem)|)
    decreases elem, 2, |vs|
  {
    hide At, Enc, ReadValue, Default, SchemaOk, Typed, Encodable, DepthOk, DepthOkAll;
    AtSlice(s, p, EncElems(vs, elem));
    DepthOkHead(vs, depth);
    if |vs| == 0 {
      assert acc + vs == acc;
    } else {
      AtConcat(s, p, Enc(vs[0], elem), EncElems(vs[1..], elem));
      ReadBack(s, p, depth, vs[0], elem);
      if DepthOk(vs[0], depth) {
        ReadBackElems(s, p + |Enc(vs[0], elem)|, depth, vs[1..], elem, acc + [vs[0]]);
        assert acc + [vs[0]] + vs[1..] == acc + vs;
        DepthOkTail(vs, depth);
      }
    }
  }

  lemma {:induction false} DepthOkHead(vs: seq<Value>, depth: nat)
    ensures |vs| == 0 ==> DepthOkAll(vs, depth)
    ensures |vs| > 0 && !DepthOk(vs[0], depth) ==> !DepthOkAll(vs, depth)
  {
  }

  lemma {:induction false} DepthOkTail(vs: seq<Value>, depth: nat)
    requires |vs| > 0 && DepthOk(vs[0], depth)
    ensures DepthOkAll(vs, depth) <==> DepthOkAll(vs[1..], depth)
  {
    assert forall j :: 0 < j < |vs| ==> vs[j] == vs[1..][j - 1];
  }

  lemma {:induction false} ReadBackStruct(s: seq<byte>, p: nat, depth: nat, v: Value, fields: seq<Field>)
    requires SchemaOk(Struct(fields)) && Typed(v, Struct(fields)) && Encodable(v) && At(s, p, Enc(v, Struct(fields)))
    ensures ReadValue(s, p, depth, Struct(fields), Default(Struct(fields))) ==
            Outcome(DepthOk(v, depth), v, p + |Enc(v, Struct(fields))|)
    decreases Struct(fields), 0, |fields| + 1
  {
    hide At, ReadFields, EncFields, SchemaOk, Typed, Encodable;
    StructParts(v, fields);
    AtSlice(s, p, Enc(v, Struct(fields)));
    if depth + 1 <= MAX_DEPTH {
      assert v.members[..0] + DefaultMembers(fields)[0..] == DefaultMembers(fields);
      ReadBackFields(s, p, depth + 1, fields, v.members, 0, 0);
    }
  }

  lemma {:induction false} StructParts(v: Value, fields: seq<Field>)
    requires SchemaOk(Struct(fields)) && Typed(v, Struct(fields)) && Encodable(v)
    ensures v.VStruct? && |v.members| == |fields| && v == VStruct(v.members)
    ensures |fields| > 0 ==> 0 < fields[0].id
    ensures Enc(v, Struct(fields)) == EncFields(fields, v.members, 0, 0)
  {
  }

  lemma {:induction false} ReadBackFields(s: seq<byte>, p: nat, depth: nat, fields: seq<Field>,
                                          members: seq<Option<Value>>, i: nat, last: nat)
    requires |members| == |fields|
    requires SchemaOk(Struct(fields)) && Typed(VStruct(members), Struct(fields)) && Encodable(VStruct(members))
    requires i <= |fields| && (i < |fields| ==> last < fields[i].id)
    requires At(s, p, EncFields(fields, members, i, last))
    ensures ReadFields(s, p, depth, fields, UpTo(fields, members, i), last, Present(members, i)) ==
            Outcome(DepthOkFrom(members, i, depth), VStruct(members), p + |EncFields(fields, members, i, last)|)
    decreases Struct(fields), 0, |fields| - i
  {
    hide At, EncFields, ReadFields, SchemaOk, Typed, Encodable, DepthOkFrom, UpTo, Present, DepthOk, ReadValue, Enc,
         FieldHead, FieldId, FieldWire, Default, SlotOf, DefaultMembers;
    AtSlice(s, p, EncFields(fields, members, i, last));
    if i == |fields| {
      FieldsEnd(s, p, depth, fields, members, last);
    } else {
      FieldFacts(fields, members, i, depth);
      EncFieldsStep(fields, members, i, last);
      if members[i].None? {
        ReadBackFields(s, p, depth, fields, members, i + 1, last);
      } else {
        var v, ty := members[i].value, fields[i].ty;
        var head := FieldHead(fields[i].id, last, FieldWire(v, ty));
        var body := if ty.Bool? then [] else Enc(v, ty);
        AtConcat(s, p, head + body, EncFields(fields, members, i + 1, fields[i].id));
        AtConcat(s, p, head, body);
        FieldHeadBack(s, p, fields[i].id, last, FieldWire(v, ty));
        if !ty.Bool? {
          ReadBack(s, p + |head|, depth, v, ty);
        }
        FieldStep(s, p, depth, fields, members, i, last, p + |head|);
        if DepthOk(v, depth) {
          ReadBackFields(s, p + |head + body|, depth, fields, members, i + 1, fields[i].id);
        }
      }
    }
  }

  lemma {:induction false} FieldsEnd(s: seq<byte>, p: nat, depth: nat, fields: seq<Field>,
                                     members: seq<Option<Value>>, last: nat)
    requires |members| == |fields|
    requires SchemaOk(Struct(fields)) && Typed(VStruct(members), Struct(fields))
    requires At(s, p, EncFields(fields, members, |fields|, last))
    ensures ReadFields(s, p, depth, fields, UpTo(fields, members, |fields|), last, Present(members, |fields|)) ==
            Ok(VStruct(members), p + |EncFields(fields, members, |fields|, last)|)
    ensures DepthOkFrom(members, |fields|, depth)
  {
    hide Typed, SchemaOk;
    assert EncFields(fields, members, |fields|, last) == [0];
    assert UpTo(fields, members, |fields|) == members;
    forall i | 0 <= i < |fields| && fields[i].presence.Required? ensures members[i].Some? {
      MemberTyped(fields, members, i);
    }
  }

  lemma {:induction false} MemberTyped(fields: seq<Field>, members: seq<Option<Value>>, i: nat)
    requires |members| == |fields|
    requires SchemaOk(Struct(fields)) && Typed(VStruct(members), Struct(fields)) && i < |fields|
    ensures 1 <= fields[i].id <= 32767 && SchemaOk(fields[i].ty)
    ensures if members[i].None? then fields[i].presence.Optional? else Typed(members[i].value, fields[i].ty)
    ensures i + 1 < |fields| ==> fields[i].id < fields[i + 1].id
    ensures fields[i].ty.Bool? && members[i].Some? ==> members[i].value.VBool?
  {
  }

  /** What the state of the reader becomes across field i. */
  lemma {:induction false} FieldFacts(fields: seq<Field>, members: seq<Option<Value>>, i: nat, depth: nat)
    requires |members| == |fields|
    requires SchemaOk(Struct(fields)) && Typed(VStruct(members), Struct(fields)) && Encodable(VStruct(members))
    requires i < |fields|
    ensures 1 <= fields[i].id <= 32767 && SchemaOk(fields[i].ty) && SlotOf(fields, fields[i].id) == Some(i)
    ensures i + 1 < |fields| ==> fields[i].id < fields[i + 1].id
    ensures members[i].None? ==>
      && UpTo(fields, members, i + 1) == UpTo(fields, members, i) && Present(members, i + 1) == Present(members, i)
      && (DepthOkFrom(members, i, depth) <==> DepthOkFrom(members, i + 1, depth))
    ensures members[i].Some? ==>
      && Typed(members[i].value, fields[i].ty) && Encodable(members[i].value)
      && (fields[i].ty.Bool? ==> members[i].value.VBool? && DepthOk(members[i].value, depth))
      && UpTo(fields, members, i)[i := members[i]] == UpTo(fields, members, i + 1)
      && (UpTo(fields, members, i)[i] == None || UpTo(fields, members, i)[i] == Some(Default(fields[i].ty)))
      && Present(members, i) + {i} == Present(members, i + 1)
      && (DepthOkFrom(members, i, depth) <==> DepthOk(members[i].value, depth) && DepthOkFrom(members, i + 1, depth))
  {
    hide Typed, SchemaOk, DepthOk, Default, DefaultMembers, DepthOkFrom, UpTo;
    MemberTyped(fields, members, i);
    SlotOfOwn(fields, i);
    UpToNext(fields, members, i);
    DepthOkNext(members, i, depth);
  }

  lemma {:induction false} UpToNext(fields: seq<Field>, members: seq<Option<Value>>, i: nat)
    requires |members| == |fields| && i < |fields|
    ensures UpTo(fields, members, i)[i := members[i]] == UpTo(fields, members, i + 1)
    ensures UpTo(fields, members, i)[i] == DefaultMembers(fields)[i]
  {
    hide DefaultMembers;
  }

  lemma {:induction false} DepthOkNext(members: seq<Option<Value>>, i: nat, depth: nat)
    requires i < |members|
    ensures members[i].Some? && members[i].value.VBool? ==> DepthOk(members[i].value, depth)
    ensures DepthOkFrom(members, i, depth) <==>
            (members[i].Some? ==> DepthOk(members[i].value, depth)) && DepthOkFrom(members, i + 1, depth)
  {
  }

  lemma {:induction false} EncFieldsStep(fields: seq<Field>, members: seq<Option<Value>>, i: nat, last: nat)
    requires |members| == |fields|
    requires SchemaOk(Struct(fields)) && Typed(VStruct(members), Struct(fields)) && i < |fields|
    requires last < fields[i].id <= 32767 && SchemaOk(fields[i].ty)
    requires i + 1 < |fields| ==> fields[i].id < fields[i + 1].id
    requires members[i].Some? ==> Typed(members[i].value, fields[i].ty)
    ensures EncFields(fields, members, i, last) ==
      if members[i].None? then EncFields(fields, members, i + 1, last)
      else
        var v, ty := members[i].value, fields[i].ty;
        FieldHead(fields[i].id, last, FieldWire(v, ty)) + (if ty.Bool? then [] else Enc(v, ty)) +
        EncFields(fields, members, i + 1, fields[i].id)
  {
    hide Typed, SchemaOk, Enc, FieldHead;
  }

  /** One turn of the reader's field loop over a field just as written. */
  lemma {:induction false} FieldStep(s: seq<byte>, p: nat, depth: nat, fields: seq<Field>,
                                     members: seq<Option<Value>>, i: nat, last: nat, q: nat)
    requires |members| == |fields| && i < |fields| && members[i].Some? && p < |s| && s[p] != 0
    requires SlotOf(fields, fields[i].id) == Some(i)
    requires s[p] % 16 == FieldWire(members[i].value, fields[i].ty)
    requires fields[i].ty.Bool? ==> members[i].value.VBool?
    requires FieldId(s, p + 1, s[p] / 16, last) == Ok(fields[i].id, q)
    requires UpTo(fields, members, i)[i := members[i]] == UpTo(fields, members, i + 1)
    requires UpTo(fields, members, i)[i] == None || UpTo(fields, members, i)[i] == Some(Default(fields[i].ty))
    requires Present(members, i) + {i} == Present(members, i + 1)
    ensures
      var r := ReadFields(s, p, depth, fields, UpTo(fields, members, i), last, Present(members, i));
      if fields[i].ty.Bool? then
        r == ReadFields(s, q, depth, fields, UpTo(fields, members, i + 1), fields[i].id, Present(members, i + 1))
      else
        var b := ReadValue(s, q, depth, fields[i].ty, Default(fields[i].ty));
        if b.Fail? then r == Fail(b.f)
        else b.v == members[i].value ==>
          r == ReadFields(s, b.next, depth, fields, UpTo(fields, members, i + 1), fields[i].id, Present(members, i + 1))
  {
    hide ReadValue, Default, UpTo, Present, FieldId, SlotOf;
  }

  /** Every message the writer accepts: reading its encoding, whatever follows, gives the message back and
      stops after its STOP byte exactly when it nests within the limit. */
  lemma {:induction false} RoundTrip(m: Value, fields: seq<Field>, suffix: seq<byte>)
    requires SchemaOk(Struct(fields)) && Typed(m, Struct(fields)) && Encodable(m)
    ensures Decode(Enc(m, Struct(fields)) + suffix, fields) ==
            Outcome(DepthOkFrom(m.members, 0, 0), m, |Enc(m, Struct(fields))|)
  {
    hide ReadFields, EncFields, SchemaOk, Typed, Encodable, DepthOkFrom;
    StructParts(m, fields);
    var s := Enc(m, Struct(fields)) + suffix;
    assert At(s, 0, Enc(m, Struct(fields)));
    assert m.members[..0] + DefaultMembers(fields)[0..] == DefaultMembers(fields);
    ReadBackFields(s, 0, 0, fields, m.members, 0, 0);
  }
}
