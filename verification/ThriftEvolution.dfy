/** A message written under one schema and read under another: fields the reader does not declare are stepped over,
    fields of another wire type too (include/nanom/tagged.hpp:749-804). */
module ThriftEvolution {
  import opened Bytes
  import opened Leb128
  import opened Tagged
  import opened Thrift
  import opened ThriftEncode
  import opened ThriftWire

  // ------------------------------------------------------------------
  // What the writer writes, in the format's own terms
  // ------------------------------------------------------------------

  ghost function WireOf(v: Value, ty: Type): (w: Wire)
    requires Typed(v, ty)
    decreases ty, 1, 0
  {
    match ty
    case Bool => WBool(v.b)
    case I8 =>
      SignedByte(v.n);
      WByte(if v.n >= 0 then v.n else v.n + 256)
    case Dbl => WDbl(v.bits)
    case Binary => WBin(v.bytes)
    case List(elem) => WList(false, TypeOf(elem), WiresOf(v.elems, elem))
    case Empty => WStruct([])
    case Struct(fields) => WStruct(TagsOf(fields, v.members, 0, 0))
    case _ => WInt(TypeOf(ty), ZigzagNat(v.n))
  }

  ghost function WiresOf(vs: seq<Value>, elem: Type): (ws: seq<Wire>)
    requires forall i :: 0 <= i < |vs| ==> Typed(vs[i], elem)
    ensures |ws| == |vs|
    ensures forall i :: 0 <= i < |vs| ==> ws[i] == WireOf(vs[i], elem)
    decreases elem, 2, |vs|
  {
    if |vs| == 0 then [] else [WireOf(vs[0], elem)] + WiresOf(vs[1..], elem)
  }

  ghost function TagsOf(fields: seq<Field>, ms: seq<Option<Value>>, i: nat, last: int): (tags: seq<Tag>)
    requires Typed(VStruct(ms), Struct(fields)) && i <= |fields|
    decreases Struct(fields), 0, |fields| - i
  {
    if i == |fields| then []
    else if ms[i].None? then TagsOf(fields, ms, i + 1, last)
    else
      var id := fields[i].id;
      [Tag(id, id - last > 15, WireOf(ms[i].value, fields[i].ty))] + TagsOf(fields, ms, i + 1, id)
  }

  lemma {:induction false} WireOfEnc(v: Value, ty: Type)
    requires SchemaOk(ty) && Typed(v, ty) && Encodable(v)
    ensures Legal(WireOf(v, ty)) && Under(WireOf(v, ty), TypeOf(ty)) && Wired(WireOf(v, ty)) == Enc(v, ty)
    ensures ty.Bool? || Code(WireOf(v, ty)) == TypeOf(ty)
    decreases ty, 1, 0
  {
    hide IsSigned, Uleb128, EncElems, ElemBytes, LeBytes, Pow2;
    match ty
    case I8 => SignedByte(v.n);
    case I16 => ZigzagFits(v.n, 16);
    case I32 => ZigzagFits(v.n, 32);
    case I64 => ZigzagFits(v.n, 64);
    case List(elem) => WiresOfEnc(v.elems, elem);
    case Struct(fields) =>
      StructParts(v, fields);
      TagsOfEnc(fields, v.members, 0, 0);
    case _ =>
  }

  lemma {:induction false} ZigzagFits(n: int, w: nat)
    requires 1 <= w <= 64 && IsSigned(n, w)
    ensures ZigzagNat(n) < Pow2(64)
  {
    hide Pow2;
    Pow2Monotone(w - 1, 63);
    Pow2Twice(64);
  }

  lemma {:induction false} WiresOfEnc(vs: seq<Value>, elem: Type)
    requires SchemaOk(elem) && forall i :: 0 <= i < |vs| ==> Typed(vs[i], elem) && Encodable(vs[i])
    ensures forall i :: 0 <= i < |vs| ==> Legal(WireOf(vs[i], elem)) && Under(WireOf(vs[i], elem), TypeOf(elem))
    ensures ElemBytes(WiresOf(vs, elem), TypeOf(elem)) == EncElems(vs, elem)
    decreases elem, 2, |vs|
  {
    hide Typed, SchemaOk, Encodable, WireOf, Legal, Under, Wired, Enc;
    if |vs| > 0 {
      WireOfEnc(vs[0], elem);
      WiresOfEnc(vs[1..], elem);
      assert WiresOf(vs, elem)[1..] == WiresOf(vs[1..], elem);
    }
  }

  lemma {:induction false} TagsOfEnc(fields: seq<Field>, ms: seq<Option<Value>>, i: nat, last: nat)
    requires |ms| == |fields| && i <= |fields| && (i < |fields| ==> last < fields[i].id)
    requires SchemaOk(Struct(fields)) && Typed(VStruct(ms), Struct(fields)) && Encodable(VStruct(ms))
    ensures LegalFrom(TagsOf(fields, ms, i, last), last)
    ensures FieldBytes(TagsOf(fields, ms, i, last), last) == EncFields(fields, ms, i, last)
    decreases Struct(fields), 0, |fields| - i
  {
    hide Typed, SchemaOk, Encodable, WireOf, Enc, TagBytes, LegalTag, FieldHead, FieldWire, Wired, Legal, EncFields,
         UpTo, Present, DepthOkFrom, DepthOk, Default, SlotOf;
    if i == |fields| {
      assert EncFields(fields, ms, i, last) == [0] by { EncFieldsEnd(fields, ms, last); }
    } else {
      FieldFacts(fields, ms, i, 0);
      EncFieldsStep(fields, ms, i, last);
      if ms[i].None? {
        TagsOfEnc(fields, ms, i + 1, last);
      } else {
        TagsOfEnc(fields, ms, i + 1, fields[i].id);
        WireOfEnc(ms[i].value, fields[i].ty);
        TagOfEnc(fields[i].id, last, ms[i].value, fields[i].ty);
        var tags := TagsOf(fields, ms, i, last);
        assert tags[1..] == TagsOf(fields, ms, i + 1, fields[i].id);
      }
    }
  }

  lemma {:induction false} EncFieldsEnd(fields: seq<Field>, ms: seq<Option<Value>>, last: nat)
    requires SchemaOk(Struct(fields)) && Typed(VStruct(ms), Struct(fields))
    ensures EncFields(fields, ms, |fields|, last) == [0]
  {
  }

  lemma {:induction false} TagOfEnc(id: nat, last: nat, v: Value, ty: Type)
    requires last < id <= 32767 && SchemaOk(ty) && Typed(v, ty) && Encodable(v)
    requires Legal(WireOf(v, ty)) && Wired(WireOf(v, ty)) == Enc(v, ty)
    requires ty.Bool? || Code(WireOf(v, ty)) == TypeOf(ty)
    ensures
      var f := Tag(id, id - last > 15, WireOf(v, ty));
      && LegalTag(f, last)
      && TagBytes(f, last) == FieldHead(id, last, FieldWire(v, ty)) + if ty.Bool? then [] else Enc(v, ty)
  {
    hide SchemaOk, Encodable, Wired, Enc, Legal, Uleb128;
    BoolWire(v, ty);
  }

  lemma {:induction false} BoolWire(v: Value, ty: Type)
    requires Typed(v, ty)
    ensures WireOf(v, ty).WBool? <==> ty.Bool?
    ensures ty.Bool? ==> Code(WireOf(v, ty)) == FieldWire(v, ty)
  {
  }

  lemma {:induction false} WireOfShallow(v: Value, ty: Type, depth: nat)
    requires Typed(v, ty)
    ensures Shallow(WireOf(v, ty), depth) <==> DepthOk(v, depth)
    decreases ty, 1, 0
  {
    hide IsSigned, Pow2, TagsOf;
    match ty
    case List(elem) =>
      forall i | 0 <= i < |v.elems|
        ensures Shallow(WireOf(v.elems[i], elem), depth + 1) <==> DepthOk(v.elems[i], depth + 1)
      {
        WireOfShallow(v.elems[i], elem, depth + 1);
      }
    case Struct(fields) =>
      TagsOfShallow(fields, v.members, 0, 0, depth + 1);
    case _ =>
  }

  lemma {:induction false} TagsOfShallow(fields: seq<Field>, ms: seq<Option<Value>>, i: nat, last: int, depth: nat)
    requires |ms| == |fields| && i <= |fields| && Typed(VStruct(ms), Struct(fields))
    ensures ShallowFrom(TagsOf(fields, ms, i, last), depth) <==> DepthOkFrom(ms, i, depth)
    decreases Struct(fields), 0, |fields| - i
  {
    hide WireOf, Shallow, DepthOk, DepthOkFrom;
    if i == |fields| {
      assert DepthOkFrom(ms, i, depth) by { DepthOkNone(ms, depth); }
    } else {
      DepthOkNext(ms, i, depth);
      if ms[i].None? {
        TagsOfShallow(fields, ms, i + 1, last, depth);
      } else {
        TagsOfShallow(fields, ms, i + 1, fields[i].id, depth);
        WireOfShallow(ms[i].value, fields[i].ty, depth);
        var tags := TagsOf(fields, ms, i, last);
        assert tags[1..] == TagsOf(fields, ms, i + 1, fields[i].id);
      }
    }
  }

  lemma {:induction false} DepthOkNone(ms: seq<Option<Value>>, depth: nat)
    ensures DepthOkFrom(ms, |ms|, depth)
  {
  }

  // ------------------------------------------------------------------
  // What the reader's schema makes of the writer's message
  // ------------------------------------------------------------------

  /** A value of the writer's type as the reader's type sees it. */
  ghost function View(v: Value, from: Type, to: Type): Option<Value>
    requires Typed(v, from) && TypeOf(from) == TypeOf(to)
    decreases from, 1, 0
  {
    match to
    case List(elem) =>
      if |v.elems| == 0 then Some(v)
      else if TypeOf(from.elem) != TypeOf(elem) then None
      else ViewAll(v.elems, from.elem, elem)
    case Empty => Some(VEmpty)
    case Struct(mine) =>
      if from.Struct? then ViewStruct(v.members, from.fields, mine)
      else if AllSeen(mine, {}) then Some(Default(to))
      else None
    case _ => Some(v)
  }

  ghost function ViewAll(vs: seq<Value>, from: Type, to: Type): Option<Value>
    requires TypeOf(from) == TypeOf(to) && forall i :: 0 <= i < |vs| ==> Typed(vs[i], from)
    decreases from, 3, 0
  {
    if forall i :: 0 <= i < |vs| ==> View(vs[i], from, to).Some? then Some(VList(Views(vs, from, to, |vs|))) else None
  }

  ghost function Views(vs: seq<Value>, from: Type, to: Type, n: nat): (r: seq<Value>)
    requires TypeOf(from) == TypeOf(to) && n <= |vs| && forall i :: 0 <= i < |vs| ==> Typed(vs[i], from)
    requires forall i :: 0 <= i < n ==> View(vs[i], from, to).Some?
    ensures |r| == n && forall i :: 0 <= i < n ==> View(vs[i], from, to) == Some(r[i])
    decreases from, 2, 0
  {
    seq(n, i requires 0 <= i < n => View(vs[i], from, to).value)
  }

  /** The member of the writer's message that field `f` of the reader takes: the one of its id, if it is there and
      has the wire type. */
  ghost function Source(ms: seq<Option<Value>>, theirs: seq<Field>, f: Field): (r: Option<nat>)
    requires |ms| == |theirs|
    ensures r.Some? ==>
      && r.value < |theirs| && ms[r.value].Some?
      && theirs[r.value].id == f.id && TypeOf(theirs[r.value].ty) == TypeOf(f.ty)
  {
    var j := SlotOf(theirs, f.id);
    if j.Some? && ms[j.value].Some? && TypeOf(theirs[j.value].ty) == TypeOf(f.ty) then j else None
  }

  /** Every field of the reader has what its source gives it, or its default; the required ones need a source. */
  ghost function ViewStruct(ms: seq<Option<Value>>, theirs: seq<Field>, mine: seq<Field>): Option<Value>
    requires Typed(VStruct(ms), Struct(theirs))
    decreases Struct(theirs), 0, 0
  {
    if && (forall k :: 0 <= k < |mine| && mine[k].presence.Required? ==> Source(ms, theirs, mine[k]).Some?)
       && (forall k :: 0 <= k < |mine| && Source(ms, theirs, mine[k]).Some? ==>
             var j := Source(ms, theirs, mine[k]).value;
             View(ms[j].value, theirs[j].ty, mine[k].ty).Some?)
    then
      Some(VStruct(seq(|mine|, k requires 0 <= k < |mine| =>
        var j := Source(ms, theirs, mine[k]);
        if j.None? then DefaultMembers(mine)[k] else View(ms[j.value].value, theirs[j.value].ty, mine[k].ty))))
    else None
  }

  /** The reader's members once the writer's fields before i are read. */
  ghost function Midway(ms: seq<Option<Value>>, theirs: seq<Field>, mine: seq<Field>, i: nat): (r: seq<Option<Value>>)
    requires Typed(VStruct(ms), Struct(theirs))
    ensures |r| == |mine|
  {
    seq(|mine|, k requires 0 <= k < |mine| =>
      var j := Source(ms, theirs, mine[k]);
      if j.None? || j.value >= i then DefaultMembers(mine)[k]
      else View(ms[j.value].value, theirs[j.value].ty, mine[k].ty))
  }

  ghost function Met(ms: seq<Option<Value>>, theirs: seq<Field>, mine: seq<Field>, i: nat): set<nat>
    requires |ms| == |theirs|
  {
    set k: nat | k < |mine| && Source(ms, theirs, mine[k]).Some? && Source(ms, theirs, mine[k]).value < i
  }

  ghost predicate SoFar(ms: seq<Option<Value>>, theirs: seq<Field>, mine: seq<Field>, i: nat)
    requires Typed(VStruct(ms), Struct(theirs))
  {
    forall k :: 0 <= k < |mine| && Source(ms, theirs, mine[k]).Some? && Source(ms, theirs, mine[k]).value < i ==>
      var j := Source(ms, theirs, mine[k]).value;
      View(ms[j].value, theirs[j].ty, mine[k].ty).Some?
  }

  // ------------------------------------------------------------------
  // The meaning of what was written is the view
  // ------------------------------------------------------------------

  lemma {:induction false} MeaningIsView(v: Value, from: Type, to: Type)
    requires SchemaOk(from) && SchemaOk(to) && Typed(v, from) && TypeOf(from) == TypeOf(to)
    ensures Meaning(WireOf(v, from), to, Default(to)) == View(v, from, to)
    decreases from, 1, 0
  {
    hide Pow2, TagsOf, ElemMeanings, ViewAll, ViewStruct, Fold, Default, DefaultMembers, WiresOf;
    match to
    case I8 => SignedByte(v.n);
    case List(elem) => ListIsView(v, from, elem);
    case Struct(mine) => StructIsView(v, from, mine);
    case _ =>
  }

  lemma {:induction false} ListIsView(v: Value, from: Type, elem: Type)
    requires from.List? && SchemaOk(from) && SchemaOk(elem) && Typed(v, from)
    ensures Meaning(WireOf(v, from), List(elem), Default(List(elem))) == View(v, from, List(elem))
    decreases from, 0, 0
  {
    hide ElemMeanings, ViewAll, Default, WiresOf, Views;
    if |v.elems| == 0 {
      ElemsNone(elem);
    } else if TypeOf(from.elem) == TypeOf(elem) {
      ElemsAreViews(v.elems, from.elem, elem, 0);
      assert WiresOf(v.elems, from.elem)[0..] == WiresOf(v.elems, from.elem);
      assert Views(v.elems, from.elem, elem, 0) == [];
    }
  }

  lemma {:induction false} StructIsView(v: Value, from: Type, mine: seq<Field>)
    requires (from.Struct? || from.Empty?) && SchemaOk(from) && SchemaOk(Struct(mine)) && Typed(v, from)
    ensures Meaning(WireOf(v, from), Struct(mine), Default(Struct(mine))) == View(v, from, Struct(mine))
    decreases from, 0, 1
  {
    hide TagsOf, ViewStruct, Fold, Default, DefaultMembers, Base;
    BaseDefault(mine);
    if from.Struct? {
      MidwayStart(v.members, from.fields, mine);
      FoldIsView(v.members, from.fields, mine, 0, 0);
    } else {
      FoldNone(mine);
    }
  }

  lemma {:induction false} ElemsNone(elem: Type)
    ensures ElemMeanings([], elem, []) == Some(VList([]))
  {
  }

  lemma {:induction false} FoldNone(mine: seq<Field>)
    ensures Fold([], mine, DefaultMembers(mine), {}) ==
            if AllSeen(mine, {}) then Some(Default(Struct(mine))) else None
  {
  }

  lemma {:induction false} BaseDefault(mine: seq<Field>)
    ensures Base(Default(Struct(mine)), mine) == DefaultMembers(mine)
  {
  }

  /** The elements from i on, over the views of those before. */
  lemma {:induction false} ElemsAreViews(vs: seq<Value>, from: Type, to: Type, i: nat)
    requires SchemaOk(from) && SchemaOk(to) && TypeOf(from) == TypeOf(to) && i <= |vs|
    requires forall k :: 0 <= k < |vs| ==> Typed(vs[k], from)
    requires forall k :: 0 <= k < i ==> View(vs[k], from, to).Some?
    ensures ElemMeanings(WiresOf(vs, from)[i..], to, Views(vs, from, to, i)) == ViewAll(vs, from, to)
    decreases from, 2, |vs| - i
  {
    hide View, WireOf, Meaning, Default, SchemaOk, Typed, TypeOf, Views, WiresOf, ViewAll;
    var ws, acc := WiresOf(vs, from)[i..], Views(vs, from, to, i);
    if i == |vs| {
      assert ViewAll(vs, from, to) == Some(VList(acc)) by { AllViewed(vs, from, to); }
    } else {
      MeaningIsView(vs[i], from, to);
      assert ws[0] == WireOf(vs[i], from) && ws[1..] == WiresOf(vs, from)[i + 1..];
      var v := View(vs[i], from, to);
      if v.Some? {
        assert acc + [v.value] == Views(vs, from, to, i + 1);
        ElemsAreViews(vs, from, to, i + 1);
      } else {
        assert ViewAll(vs, from, to) == None by { NotAllViewed(vs, from, to, i); }
      }
    }
  }

  lemma {:induction false} AllViewed(vs: seq<Value>, from: Type, to: Type)
    requires TypeOf(from) == TypeOf(to) && forall i :: 0 <= i < |vs| ==> Typed(vs[i], from)
    requires forall i :: 0 <= i < |vs| ==> View(vs[i], from, to).Some?
    ensures ViewAll(vs, from, to) == Some(VList(Views(vs, from, to, |vs|)))
  {
    hide View, Views, Typed, TypeOf;
  }

  lemma {:induction false} NotAllViewed(vs: seq<Value>, from: Type, to: Type, i: nat)
    requires TypeOf(from) == TypeOf(to) && forall i :: 0 <= i < |vs| ==> Typed(vs[i], from)
    requires i < |vs| && View(vs[i], from, to).None?
    ensures ViewAll(vs, from, to) == None
  {
    hide View, Views, Typed, TypeOf;
  }

  lemma {:induction false} MidwayStart(ms: seq<Option<Value>>, theirs: seq<Field>, mine: seq<Field>)
    requires Typed(VStruct(ms), Struct(theirs))
    ensures Midway(ms, theirs, mine, 0) == DefaultMembers(mine) && Met(ms, theirs, mine, 0) == {}
    ensures SoFar(ms, theirs, mine, 0)
  {
    hide Typed, View, DefaultMembers, Source;
  }

  lemma {:induction false} FoldIsView(ms: seq<Option<Value>>, theirs: seq<Field>, mine: seq<Field>, i: nat, last: int)
    requires |ms| == |theirs| && i <= |theirs| && SchemaOk(Struct(theirs)) && SchemaOk(Struct(mine))
    requires Typed(VStruct(ms), Struct(theirs)) && SoFar(ms, theirs, mine, i)
    ensures Fold(TagsOf(theirs, ms, i, last), mine, Midway(ms, theirs, mine, i), Met(ms, theirs, mine, i)) ==
            ViewStruct(ms, theirs, mine)
    decreases Struct(theirs), 0, 0, |theirs| - i
  {
    hide Typed, SchemaOk, View, Midway, Met, SoFar, ViewStruct, WireOf, Source, Known, TagMeaning, SlotOf, Default,
         DefaultMembers, AllSeen;
    if i == |theirs| {
      FoldEnd(ms, theirs, mine);
    } else {
      MemberTyped(theirs, ms, i);
      if ms[i].None? {
        NoSource(ms, theirs, mine, i);
        FoldIsView(ms, theirs, mine, i + 1, last);
      } else {
        var f := Tag(theirs[i].id, theirs[i].id - last > 15, WireOf(ms[i].value, theirs[i].ty));
        var tags := TagsOf(theirs, ms, i, last);
        assert tags[0] == f && tags[1..] == TagsOf(theirs, ms, i + 1, theirs[i].id);
        KnownIff(f, ms, theirs, mine, i);
        if !Known(f, mine) {
          NoSource(ms, theirs, mine, i);
          FoldIsView(ms, theirs, mine, i + 1, theirs[i].id);
        } else {
          KnownSlot(f, mine);
          var k := SlotOf(mine, theirs[i].id).value;
          SourceNext(ms, theirs, mine, i, k);
          MeaningIsView(ms[i].value, theirs[i].ty, mine[k].ty);
          TagMeans(f, mine[k].ty, Default(mine[k].ty));
          if View(ms[i].value, theirs[i].ty, mine[k].ty).Some? {
            FoldIsView(ms, theirs, mine, i + 1, theirs[i].id);
          }
        }
      }
    }
  }

  lemma {:induction false} TagMeans(f: Tag, ty: Type, cur: Value)
    ensures TagMeaning(f, ty, cur) == Meaning(f.v, ty, cur)
  {
  }

  lemma {:induction false} FoldEnd(ms: seq<Option<Value>>, theirs: seq<Field>, mine: seq<Field>)
    requires |ms| == |theirs| && Typed(VStruct(ms), Struct(theirs)) && SoFar(ms, theirs, mine, |theirs|)
    ensures (if AllSeen(mine, Met(ms, theirs, mine, |theirs|)) then Some(VStruct(Midway(ms, theirs, mine, |theirs|)))
             else None) == ViewStruct(ms, theirs, mine)
  {
    hide Typed, View, Source, DefaultMembers;
    var whole := ViewStruct(ms, theirs, mine);
    if whole.Some? {
      assert whole.value.members == Midway(ms, theirs, mine, |theirs|);
    }
  }

  lemma {:induction false} KnownIff(f: Tag, ms: seq<Option<Value>>, theirs: seq<Field>, mine: seq<Field>, i: nat)
    requires |ms| == |theirs| && i < |theirs| && SchemaOk(Struct(theirs)) && SchemaOk(Struct(mine)) && ms[i].Some?
    requires Typed(ms[i].value, theirs[i].ty)
    requires f.id == theirs[i].id && f.v == WireOf(ms[i].value, theirs[i].ty)
    ensures Known(f, mine) ==>
      var k := SlotOf(mine, f.id).value;
      Source(ms, theirs, mine[k]) == Some(i) && TypeOf(theirs[i].ty) == TypeOf(mine[k].ty) && SchemaOk(mine[k].ty)
    ensures !Known(f, mine) ==> forall k :: 0 <= k < |mine| ==> Source(ms, theirs, mine[k]) != Some(i)
  {
    hide SlotOf, Typed;
    SlotOfOwn(theirs, i);
    var slot := SlotOf(mine, f.id);
    if slot.Some? {
      CodeOf(ms[i].value, theirs[i].ty, mine[slot.value].ty);
      forall k | 0 <= k < |mine| && mine[k].id == f.id ensures k == slot.value {
        SlotOfOwn(mine, k);
      }
    }
  }

  lemma {:induction false} CodeOf(v: Value, from: Type, to: Type)
    requires Typed(v, from)
    ensures WireOk(TypeOf(to), Code(WireOf(v, from))) <==> TypeOf(from) == TypeOf(to)
  {
    hide TagsOf, WiresOf;
  }

  lemma {:induction false} NoSource(ms: seq<Option<Value>>, theirs: seq<Field>, mine: seq<Field>, i: nat)
    requires |ms| == |theirs| && i < |theirs| && Typed(VStruct(ms), Struct(theirs))
    requires ms[i].None? || forall k :: 0 <= k < |mine| ==> Source(ms, theirs, mine[k]) != Some(i)
    ensures Midway(ms, theirs, mine, i + 1) == Midway(ms, theirs, mine, i)
    ensures Met(ms, theirs, mine, i + 1) == Met(ms, theirs, mine, i)
    ensures SoFar(ms, theirs, mine, i + 1) <==> SoFar(ms, theirs, mine, i)
  {
    hide Typed, View, Source, DefaultMembers;
  }

  lemma {:induction false} SourceNext(ms: seq<Option<Value>>, theirs: seq<Field>, mine: seq<Field>, i: nat, k: nat)
    requires |ms| == |theirs| && i < |theirs| && k < |mine| && SchemaOk(Struct(mine))
    requires Typed(VStruct(ms), Struct(theirs)) && Source(ms, theirs, mine[k]) == Some(i)
    requires SoFar(ms, theirs, mine, i)
    ensures Held(Midway(ms, theirs, mine, i)[k], mine[k].ty) == Default(mine[k].ty)
    ensures
      var v := View(ms[i].value, theirs[i].ty, mine[k].ty);
      && Midway(ms, theirs, mine, i + 1) == Midway(ms, theirs, mine, i)[k := v]
      && Met(ms, theirs, mine, i + 1) == Met(ms, theirs, mine, i) + {k}
      && (SoFar(ms, theirs, mine, i + 1) <==> v.Some?)
      && (v.None? ==> ViewStruct(ms, theirs, mine) == None)
  {
    hide Typed, View, Source, DefaultMembers, SchemaOk, Default;
    assert Typed(ms[i].value, theirs[i].ty) by { SourceTyped(ms, theirs, mine[k]); }
    forall n | 0 <= n < |mine| && Source(ms, theirs, mine[n]) == Some(i) ensures n == k {
      OneSource(mine, n, k);
    }
    assert DefaultMembers(mine)[k] == if mine[k].presence.Optional? then None else Some(Default(mine[k].ty));
  }

  lemma {:induction false} SourceTyped(ms: seq<Option<Value>>, theirs: seq<Field>, f: Field)
    requires |ms| == |theirs| && Typed(VStruct(ms), Struct(theirs)) && Source(ms, theirs, f).Some?
    ensures Typed(ms[Source(ms, theirs, f).value].value, theirs[Source(ms, theirs, f).value].ty)
  {
  }

  lemma {:induction false} OneSource(mine: seq<Field>, n: nat, k: nat)
    requires n < |mine| && k < |mine| && SchemaOk(Struct(mine)) && mine[n].id == mine[k].id
    ensures n == k
  {
  }

  // ------------------------------------------------------------------
  // The theorems
  // ------------------------------------------------------------------

  /** Written under one schema, read under any other: the reader gets its view of the message exactly when it has one
      and the message nests within the limit, and stops where the message stops. */
  lemma {:induction false} ReadUnderAnother(m: Value, theirs: seq<Field>, mine: seq<Field>, suffix: seq<byte>)
    requires SchemaOk(Struct(theirs)) && SchemaOk(Struct(mine)) && Typed(m, Struct(theirs)) && Encodable(m)
    ensures Reads(Decode(Enc(m, Struct(theirs)) + suffix, mine), View(m, Struct(theirs), Struct(mine)),
                  DepthOkFrom(m.members, 0, 0), |Enc(m, Struct(theirs))|)
  {
    hide SchemaOk, Typed, Encodable, Decode, DepthOkFrom, EncFields, Fold, TagsOf, FieldBytes, LegalFrom, ShallowFrom,
         Midway, Met, SoFar;
    StructParts(m, theirs);
    TagsOfEnc(theirs, m.members, 0, 0);
    TagsOfShallow(theirs, m.members, 0, 0, 0);
    DecodeWire(TagsOf(theirs, m.members, 0, 0), mine, suffix);
    MidwayStart(m.members, theirs, mine);
    FoldIsView(m.members, theirs, mine, 0, 0);
  }

  /** Member k of the reader's message r is what its source gives it, or its default. */
  ghost predicate KeptAt(ms: seq<Option<Value>>, theirs: seq<Field>, mine: seq<Field>, r: seq<Option<Value>>, k: nat)
    requires Typed(VStruct(ms), Struct(theirs)) && |r| == |mine| && k < |mine|
  {
    var j := Source(ms, theirs, mine[k]);
    if j.None? then !mine[k].presence.Required? && r[k] == DefaultMembers(mine)[k]
    else r[k].Some? && View(ms[j.value].value, theirs[j.value].ty, mine[k].ty) == r[k]
  }

  lemma {:induction false} ViewKept(ms: seq<Option<Value>>, theirs: seq<Field>, mine: seq<Field>, r: seq<Option<Value>>)
    requires Typed(VStruct(ms), Struct(theirs)) && |r| == |mine|
    requires forall k :: 0 <= k < |mine| ==> KeptAt(ms, theirs, mine, r, k)
    ensures ViewStruct(ms, theirs, mine) == Some(VStruct(r))
  {
    hide View, Source, DefaultMembers;
    forall k | 0 <= k < |mine|
      ensures
        var j := Source(ms, theirs, mine[k]);
        if j.None? then !mine[k].presence.Required? && r[k] == DefaultMembers(mine)[k]
        else View(ms[j.value].value, theirs[j.value].ty, mine[k].ty) == r[k] && r[k].Some?
    {
      assert KeptAt(ms, theirs, mine, r, k);
    }
    var whole := ViewStruct(ms, theirs, mine);
    assert whole.Some?;
    assert whole.value.members == r;
  }

  /** Under the writer's own type the view is the value. */
  lemma {:induction false} ViewSame(v: Value, ty: Type)
    requires SchemaOk(ty) && Typed(v, ty)
    ensures View(v, ty, ty) == Some(v)
    decreases ty
  {
    hide ViewStruct, Views, KeptAt;
    match ty
    case List(elem) =>
      forall i | 0 <= i < |v.elems| ensures View(v.elems[i], elem, elem) == Some(v.elems[i]) {
        ViewSame(v.elems[i], elem);
      }
      if |v.elems| > 0 {
        assert Views(v.elems, elem, elem, |v.elems|) == v.elems;
      }
    case Struct(fields) =>
      forall i | 0 <= i < |fields| ensures KeptAt(v.members, fields, fields, v.members, i) {
        if v.members[i].Some? {
          ViewSame(v.members[i].value, fields[i].ty);
        }
        KeptSame(v.members, fields, fields, v.members, i, i);
      }
      ViewKept(v.members, fields, fields, v.members);
    case _ =>
  }

  lemma {:induction false} KeptSame(ms: seq<Option<Value>>, theirs: seq<Field>, mine: seq<Field>,
                                    r: seq<Option<Value>>, k: nat, j: nat)
    requires |ms| == |theirs| && |r| == |mine| && k < |mine| && j < |theirs| && mine[k] == theirs[j] && r[k] == ms[j]
    requires SchemaOk(Struct(theirs)) && Typed(VStruct(ms), Struct(theirs))
    requires ms[j].Some? ==>
      Typed(ms[j].value, theirs[j].ty) && View(ms[j].value, theirs[j].ty, theirs[j].ty) == ms[j]
    ensures KeptAt(ms, theirs, mine, r, k)
  {
    hide SchemaOk, Typed, View, SlotOf;
    SlotOfOwn(theirs, j);
    MemberTyped(theirs, ms, j);
  }

  /** A reader that declares only some of the writer's fields gets those members, each as written, and ends after the
      whole message, under the writer's own depth condition: the fields it leaves out are stepped over. */
  lemma {:induction false} FewerFields(m: Value, fields: seq<Field>, pick: seq<nat>, suffix: seq<byte>)
    requires SchemaOk(Struct(fields)) && Typed(m, Struct(fields)) && Encodable(m) && Ascending(pick, |fields|)
    ensures Decode(Enc(m, Struct(fields)) + suffix, Picked(fields, pick)) ==
            Outcome(DepthOkFrom(m.members, 0, 0), VStruct(Picked(m.members, pick)), |Enc(m, Struct(fields))|)
  {
    hide Decode, DepthOkFrom, Enc, Encodable, View, ViewStruct, Typed, SchemaOk, KeptAt;
    StructTyped(m, fields);
    var mine, r := Picked(fields, pick), Picked(m.members, pick);
    SchemaPicked(fields, pick);
    forall k | 0 <= k < |mine| ensures KeptAt(m.members, fields, mine, r, k) {
      MemberTyped(fields, m.members, pick[k]);
      if r[k].Some? {
        ViewSame(r[k].value, mine[k].ty);
      }
      KeptSame(m.members, fields, mine, r, k, pick[k]);
    }
    ViewKept(m.members, fields, mine, r);
    ViewOfStruct(m, fields, mine);
    ReadUnderAnother(m, fields, mine, suffix);
  }

  lemma {:induction false} SchemaPicked(fields: seq<Field>, pick: seq<nat>)
    requires SchemaOk(Struct(fields)) && Ascending(pick, |fields|)
    ensures SchemaOk(Struct(Picked(fields, pick)))
  {
  }

  lemma {:induction false} StructTyped(m: Value, fields: seq<Field>)
    requires Typed(m, Struct(fields))
    ensures m.VStruct? && |m.members| == |fields| && m == VStruct(m.members)
  {
  }

  lemma {:induction false} ViewOfStruct(m: Value, theirs: seq<Field>, mine: seq<Field>)
    requires Typed(m, Struct(theirs))
    ensures View(m, Struct(theirs), Struct(mine)) == ViewStruct(m.members, theirs, mine)
  {
  }

  /** A reader that declares one field with a type of another wire code: that member keeps its default, the others come
      back as written; a required one is reported missing. */
  lemma {:induction false} OtherWireType(m: Value, fields: seq<Field>, i: nat, ty: Type, suffix: seq<byte>)
    requires SchemaOk(Struct(fields)) && Typed(m, Struct(fields)) && Encodable(m)
    requires i < |fields| && SchemaOk(ty) && TypeOf(ty) != TypeOf(fields[i].ty)
    ensures
      var mine := fields[i := fields[i].(ty := ty)];
      var r := Decode(Enc(m, Struct(fields)) + suffix, mine);
      if fields[i].presence.Required? then r.Fail?
      else r == Outcome(DepthOkFrom(m.members, 0, 0), VStruct(m.members[i := DefaultMembers(mine)[i]]),
                        |Enc(m, Struct(fields))|)
  {
    hide Decode, DepthOkFrom, Enc, Encodable, View, ViewStruct, Typed, SchemaOk, Source, DefaultMembers, KeptAt;
    StructTyped(m, fields);
    var mine := fields[i := fields[i].(ty := ty)];
    SchemaRetyped(fields, i, ty);
    SourceLost(m.members, fields, mine[i], i);
    ViewOfStruct(m, fields, mine);
    ReadUnderAnother(m, fields, mine, suffix);
    if fields[i].presence.Required? {
      ViewMissing(m.members, fields, mine, i);
    } else {
      var r := m.members[i := DefaultMembers(mine)[i]];
      forall k | 0 <= k < |mine| ensures KeptAt(m.members, fields, mine, r, k) {
        if k == i {
          KeptDefault(m.members, fields, mine, r, i);
        } else {
          MemberTyped(fields, m.members, k);
          if r[k].Some? {
            ViewSame(r[k].value, mine[k].ty);
          }
          KeptSame(m.members, fields, mine, r, k, k);
        }
      }
      ViewKept(m.members, fields, mine, r);
    }
  }

  lemma {:induction false} KeptDefault(ms: seq<Option<Value>>, theirs: seq<Field>, mine: seq<Field>,
                                       r: seq<Option<Value>>, k: nat)
    requires |ms| == |theirs| && |r| == |mine| && k < |mine| && Typed(VStruct(ms), Struct(theirs))
    requires Source(ms, theirs, mine[k]) == None && !mine[k].presence.Required? && r[k] == DefaultMembers(mine)[k]
    ensures KeptAt(ms, theirs, mine, r, k)
  {
    hide Typed, View, Source, DefaultMembers;
  }

  lemma {:induction false} SchemaRetyped(fields: seq<Field>, i: nat, ty: Type)
    requires SchemaOk(Struct(fields)) && i < |fields| && SchemaOk(ty)
    ensures SchemaOk(Struct(fields[i := fields[i].(ty := ty)]))
  {
  }

  lemma {:induction false} SourceLost(ms: seq<Option<Value>>, theirs: seq<Field>, f: Field, i: nat)
    requires |ms| == |theirs| && i < |theirs| && SchemaOk(Struct(theirs))
    requires f.id == theirs[i].id && TypeOf(f.ty) != TypeOf(theirs[i].ty)
    ensures Source(ms, theirs, f) == None
  {
    hide SchemaOk;
    SlotOfOwn(theirs, i);
  }

  lemma {:induction false} ViewMissing(ms: seq<Option<Value>>, theirs: seq<Field>, mine: seq<Field>, i: nat)
    requires |ms| == |theirs| && Typed(VStruct(ms), Struct(theirs)) && i < |mine|
    requires mine[i].presence.Required? && Source(ms, theirs, mine[i]) == None
    ensures ViewStruct(ms, theirs, mine) == None
  {
    hide View, Typed, Source;
  }
}
