/**
 The walks over a run-time message description that move a cursor: serializing a message and
 deserializing one. Each is proved against its function in Encoding.
 */
module Serializer {
  import opened Wire
  import opened Schema
  import opened Encoding
  import opened CdrStream

  // ---------------------------------------------------------------------------------------
  // Serializing
  // ---------------------------------------------------------------------------------------

  method SerializeElement(ser: Cdr, lang: Lang, key: bool, m: Member, v: Element) returns (ok: bool)
    requires ser.Valid() && TypedElement(m.ty, v)
    modifies ser`offset, ser.buffer
    ensures ser.Valid()
    ensures ok <==> AcceptsElements(lang, key, m, [v]) && old(ser.offset) + |EncodeElement(ser.endian, key, m.ty, v, old(ser.Position()))| <= ser.limit
    ensures ok ==> ser.offset == old(ser.offset) + |EncodeElement(ser.endian, key, m.ty, v, old(ser.Position()))|
    ensures Wrote(old(ser.buffer[..]), ser.buffer[..], ser.limit, old(ser.offset), EncodeElement(ser.endian, key, m.ty, v, old(ser.Position())), ok)
    decreases m, 0, 0
  {
    hide NumberCells, StringCells, WideStringCells, Wrote;
    match m.ty
    case Number(s) =>
      ok := ser.PutNumber(s.Size(), v.bits);
    case Text =>
      // A null data pointer is logged and written as the empty string.
      ok := ser.PutString(if v.Chars? then v.chars else []);
    case WideText =>
      ok := ser.PutWideString(v.wide);
    case Nested(ms) =>
      assert AcceptsElements(lang, key, m, [v]) <==> Accepts(lang, key, ms.hasAnyKeyMember, ms.list, v.fields);
      ok := SerializeMembers(ser, lang, key, ms, v.fields);
  }

  method SerializeElements(ser: Cdr, lang: Lang, key: bool, m: Member, f: Field) returns (ok: bool)
    requires ser.Valid() && TypedElements(m.ty, f)
    modifies ser`offset, ser.buffer
    ensures ser.Valid()
    ensures ok <==> AcceptsElements(lang, key, m, f) && old(ser.offset) + |EncodeElements(ser.endian, key, m.ty, f, old(ser.Position()))| <= ser.limit
    ensures ok ==> ser.offset == old(ser.offset) + |EncodeElements(ser.endian, key, m.ty, f, old(ser.Position()))|
    ensures Wrote(old(ser.buffer[..]), ser.buffer[..], ser.limit, old(ser.offset), EncodeElements(ser.endian, key, m.ty, f, old(ser.Position())), ok)
    decreases m, 1, 0
  {
    hide EncodeElements, EncodeElement, AcceptsElements, TypedElements, TypedElement, Wrote;
    ghost var before, from, pos := ser.buffer[..], ser.offset, ser.Position();
    ghost var total := EncodeElements(ser.endian, key, m.ty, f, pos);
    ghost var done: seq<Cell> := [];
    WroteNothing(before, ser.limit, from, []);
    assert f[0..] == f && done + total == total;
    var i := 0;
    ok := true;
    while ok && i < |f|
      invariant ser.Valid() && i <= |f|
      invariant TypedElements(m.ty, f[i..])
      invariant Wrote(before, ser.buffer[..], ser.limit, from, done, ok) && done <= total
      invariant ok ==> ser.offset == from + |done| && ser.Position() == pos + |done|
      invariant ok ==> total == done + EncodeElements(ser.endian, key, m.ty, f[i..], pos + |done|)
      invariant ok ==> (AcceptsElements(lang, key, m, f) <==> AcceptsElements(lang, key, m, f[i..]))
      invariant !ok ==> from + |total| > ser.limit || !AcceptsElements(lang, key, m, f)
      decreases |f| - i, ok
    {
      ghost var c := EncodeElement(ser.endian, key, m.ty, f[i], pos + |done|);
      ghost var mid := ser.buffer[..];
      ElementsStep(ser.endian, lang, key, m, f, i, pos, done);
      ok := SerializeElement(ser, lang, key, m, f[i]);
      WroteBoth(before, mid, ser.buffer[..], ser.limit, from, done, c, ok);
      done := done + c;
      i := i + 1;
    }
    if ok {
      assert f[i..] == [];
      NoElements(ser.endian, lang, key, m, pos + |done|);
      assert total == done + [] == done;
    } else {
      WroteBadly(before, ser.buffer[..], ser.limit, from, done, total);
    }
  }

  lemma ElementsStep(e: Endian, lang: Lang, key: bool, m: Member, f: Field, i: nat, pos: nat, done: seq<Cell>)
    requires i < |f| && TypedElements(m.ty, f[i..])
    ensures TypedElement(m.ty, f[i]) && TypedElements(m.ty, f[i + 1..])
    ensures var c := EncodeElement(e, key, m.ty, f[i], pos + |done|);
      done + EncodeElements(e, key, m.ty, f[i..], pos + |done|) == (done + c) + EncodeElements(e, key, m.ty, f[i + 1..], pos + |done + c|)
    ensures AcceptsElements(lang, key, m, f[i..]) <==> AcceptsElements(lang, key, m, [f[i]]) && AcceptsElements(lang, key, m, f[i + 1..])
  {
    hide EncodeElement, TypedElement, Accepts;
    assert f[i..][1..] == f[i + 1..] && f[i..][0] == f[i];
    assert [f[i]][1..] == [];
    assert AcceptsElements(lang, key, m, []);
  }

  lemma NoElements(e: Endian, lang: Lang, key: bool, m: Member, pos: nat)
    ensures EncodeElements(e, key, m.ty, [], pos) == []
    ensures AcceptsElements(lang, key, m, [])
    ensures TypedElements(m.ty, [])
  {
  }

  method SerializeMember(ser: Cdr, lang: Lang, key: bool, m: Member, f: Field) returns (ok: bool)
    requires ser.Valid() && TypedField(m, f)
    modifies ser`offset, ser.buffer
    ensures ser.Valid()
    ensures ok <==> AcceptsField(lang, key, m, f) && old(ser.offset) + |EncodeField(ser.endian, key, m, f, old(ser.Position()))| <= ser.limit
    ensures ok ==> ser.offset == old(ser.offset) + |EncodeField(ser.endian, key, m, f, old(ser.Position()))|
    ensures Wrote(old(ser.buffer[..]), ser.buffer[..], ser.limit, old(ser.offset), EncodeField(ser.endian, key, m, f, old(ser.Position())), ok)
    decreases m, 2, 0
  {
    hide WordCells, EncodeElements, AcceptsElements, TypedElements, Wrote;
    ghost var before, from, pos := ser.buffer[..], ser.offset, ser.Position();
    WroteNothing(before, ser.limit, from, []);
    if lang == C && m.ty.Text? && !m.isArray {
      // The bound is one too wide: the length does not count the NUL
      if m.stringUpperBound != 0 && f[0].Chars? && |f[0].chars| > m.stringUpperBound + 1 {
        WroteNothing(before, ser.limit, from, EncodeField(ser.endian, key, m, f, pos));
        return false;
      }
    }
    ok := true;
    ghost var c: seq<Cell> := [];
    if m.IsSequence() {
      c := WordCells(ser.endian, |f|, pos);
      ok := ser.PutWord(|f|);
    }
    ghost var mid := ser.buffer[..];
    if ok {
      ok := SerializeElements(ser, lang, key, m, f);
      WroteBoth(before, mid, ser.buffer[..], ser.limit, from, c, EncodeElements(ser.endian, key, m.ty, f, pos + |c|), ok);
    } else {
      WroteBadly(before, mid, ser.limit, from, c, EncodeField(ser.endian, key, m, f, pos));
    }
  }

  method SerializeMembers(ser: Cdr, lang: Lang, key: bool, ms: Members, fields: seq<Field>) returns (ok: bool)
    requires ser.Valid() && Typed(ms.list, fields)
    modifies ser`offset, ser.buffer
    ensures ser.Valid()
    ensures ok <==>
      && Accepts(lang, key, ms.hasAnyKeyMember, ms.list, fields)
      && old(ser.offset) + |EncodeFields(ser.endian, key, ms.hasAnyKeyMember, ms.list, fields, old(ser.Position()))| <= ser.limit
    ensures ok ==> ser.offset == old(ser.offset) + |EncodeFields(ser.endian, key, ms.hasAnyKeyMember, ms.list, fields, old(ser.Position()))|
    ensures Wrote(old(ser.buffer[..]), ser.buffer[..], ser.limit, old(ser.offset),
                  EncodeFields(ser.endian, key, ms.hasAnyKeyMember, ms.list, fields, old(ser.Position())), ok)
    decreases ms
  {
    hide EncodeFields, EncodeField, Accepts, AcceptsField, Typed, TypedField, Wrote;
    var list, hasKey := ms.list, ms.hasAnyKeyMember;
    ghost var before, from, pos := ser.buffer[..], ser.offset, ser.Position();
    ghost var total := EncodeFields(ser.endian, key, hasKey, list, fields, pos);
    ghost var done: seq<Cell> := [];
    WroteNothing(before, ser.limit, from, []);
    TypedLength(list, fields);
    assert list[0..] == list && fields[0..] == fields && done + total == total;
    var i := 0;
    ok := true;
    while ok && i < |list|
      invariant ser.Valid() && i <= |list| == |fields|
      invariant Typed(list[i..], fields[i..])
      invariant Wrote(before, ser.buffer[..], ser.limit, from, done, ok) && done <= total
      invariant ok ==> ser.offset == from + |done| && ser.Position() == pos + |done|
      invariant ok ==> total == done + EncodeFields(ser.endian, key, hasKey, list[i..], fields[i..], pos + |done|)
      invariant ok ==> (Accepts(lang, key, hasKey, list, fields) <==> Accepts(lang, key, hasKey, list[i..], fields[i..]))
      invariant !ok ==> from + |total| > ser.limit || !Accepts(lang, key, hasKey, list, fields)
      decreases |list| - i, ok
    {
      FieldsStep(ser.endian, lang, key, hasKey, list, fields, i, pos, done);
      var m := list[i];
      if key && m.SkippedInKey(hasKey) {
        i := i + 1;
        continue;
      }
      ghost var c := EncodeField(ser.endian, key, m, fields[i], pos + |done|);
      ghost var mid := ser.buffer[..];
      ok := SerializeMember(ser, lang, key, m, fields[i]);
      WroteBoth(before, mid, ser.buffer[..], ser.limit, from, done, c, ok);
      done := done + c;
      i := i + 1;
    }
    if ok {
      assert list[i..] == [] && fields[i..] == [];
      NoFields(ser.endian, lang, key, hasKey, pos + |done|);
      assert total == done + [] == done;
    } else {
      WroteBadly(before, ser.buffer[..], ser.limit, from, done, total);
    }
  }

  lemma TypedLength(list: seq<Member>, fields: seq<Field>)
    requires Typed(list, fields)
    ensures |list| == |fields|
  {
  }

  lemma FieldsStep(e: Endian, lang: Lang, key: bool, hasKey: bool, list: seq<Member>, fields: seq<Field>, i: nat, pos: nat, done: seq<Cell>)
    requires i < |list| == |fields| && Typed(list[i..], fields[i..])
    ensures TypedField(list[i], fields[i]) && Typed(list[i + 1..], fields[i + 1..])
    ensures var skip := key && list[i].SkippedInKey(hasKey);
      var c := if skip then [] else EncodeField(e, key, list[i], fields[i], pos + |done|);
      && done + EncodeFields(e, key, hasKey, list[i..], fields[i..], pos + |done|)
         == (done + c) + EncodeFields(e, key, hasKey, list[i + 1..], fields[i + 1..], pos + |done + c|)
      && (skip ==> done + c == done)
      && (Accepts(lang, key, hasKey, list[i..], fields[i..])
          <==> (skip || AcceptsField(lang, key, list[i], fields[i])) && Accepts(lang, key, hasKey, list[i + 1..], fields[i + 1..]))
  {
    hide EncodeField, TypedField, AcceptsField;
    assert list[i..][1..] == list[i + 1..] && fields[i..][1..] == fields[i + 1..];
  }

  lemma NoFields(e: Endian, lang: Lang, key: bool, hasKey: bool, pos: nat)
    ensures EncodeFields(e, key, hasKey, [], [], pos) == []
    ensures Accepts(lang, key, hasKey, [], [])
  {
  }
}
