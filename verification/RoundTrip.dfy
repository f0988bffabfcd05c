/**
 Reading back what was written: the deserializer inverts the serializer, at every position,
 whatever the gaps and the octets behind the message hold.
 */
module RoundTrip {
  import opened Wire
  import opened Schema
  import opened Encoding

  lemma NumberReadBack(e: Endian, w: Width, v: nat, buf: seq<byte>, pos: nat)
    requires v < Pow256(w)
    requires Holds(buf, pos, NumberCells(e, w, v, pos))
    ensures ReadNumber(e, w, buf, pos) == Got(v, pos + |NumberCells(e, w, v, pos)|)
  {
    hide AlignUp, NumberOctets, NumberValue, Holds, Octets, Gaps, Pow256;
    var p := AlignUp(pos, w);
    HoldsSplit(buf, pos, Gaps(p - pos), Octets(NumberOctets(e, w, v)));
    HoldsOctets(buf, p, NumberOctets(e, w, v));
    NumberRoundTrip(e, w, v);
  }

  lemma WordReadBack(e: Endian, v: nat, buf: seq<byte>, pos: nat)
    requires v < TWO_TO_THE_32
    requires Holds(buf, pos, WordCells(e, v, pos))
    ensures ReadNumber(e, 4, buf, pos) == Got(v, pos + |WordCells(e, v, pos)|)
  {
    hide Holds, NumberCells, ReadNumber, Pow256;
    PowersOf256();
    NumberReadBack(e, 4, v, buf, pos);
  }

  lemma StringReadBack(e: Endian, s: seq<byte>, buf: seq<byte>, pos: nat)
    requires |s| + 1 < TWO_TO_THE_32
    requires Holds(buf, pos, StringCells(e, s, pos))
    ensures ReadString(e, buf, pos) == Got(s, pos + |StringCells(e, s, pos)|)
  {
    hide Holds, ReadNumber, WordCells;
    var c := WordCells(e, |s| + 1, pos);
    HoldsSplit(buf, pos, c, Octets(s + [0]));
    WordReadBack(e, |s| + 1, buf, pos);
    var p, n := pos + |c|, |s| + 1;
    HoldsOctets(buf, p, s + [0]);
    assert buf[p..p + n - 1] == buf[p..p + n][..n - 1] == s;
    assert buf[p + n - 1] == buf[p..p + n][n - 1] == 0;
  }

  /** What is left of words that are read into 16 bits each. */
  function Cut(s: seq<nat>): (r: seq<nat>)
    ensures |r| == |s| && forall i :: 0 <= i < |s| ==> r[i] == s[i] % 0x1_0000
    ensures IsUtf16(s) ==> r == s
  {
    seq(|s|, i requires 0 <= i < |s| => s[i] % 0x1_0000)
  }

  lemma ReadWideCons(e: Endian, s: seq<nat>, buf: seq<byte>, pos: nat, p: nat, q: nat)
    requires s != []
    requires ReadNumber(e, 4, buf, pos) == Got(s[0], p)
    requires ReadWide(e, |s| - 1, buf, p) == Got(Cut(s[1..]), q)
    ensures ReadWide(e, |s|, buf, pos) == Got(Cut(s), q)
  {
    hide ReadNumber;
    assert [s[0] % 0x1_0000] + Cut(s[1..]) == Cut(s);
  }

  /** Words of any size come back cut to 16 bits. */
  lemma {:induction false} WideReadBack(e: Endian, s: seq<nat>, buf: seq<byte>, pos: nat)
    requires forall i :: 0 <= i < |s| ==> s[i] < TWO_TO_THE_32
    requires Holds(buf, pos, WideCells(e, s, pos))
    ensures ReadWide(e, |s|, buf, pos) == Got(Cut(s), pos + |WideCells(e, s, pos)|)
  {
    hide Holds, ReadNumber, WordCells;
    if s == [] {
      assert Cut(s) == [];
    } else {
      var c := WordCells(e, s[0], pos);
      var rest := WideCells(e, s[1..], pos + |c|);
      assert WideCells(e, s, pos) == c + rest;
      HoldsSplit(buf, pos, c, rest);
      WordReadBack(e, s[0], buf, pos);
      hide WideCells;
      WideReadBack(e, s[1..], buf, pos + |c|);
      ReadWideCons(e, s, buf, pos, pos + |c|, pos + |c| + |rest|);
    }
  }

  lemma WideStringReadBack(e: Endian, s: seq<nat>, buf: seq<byte>, pos: nat)
    requires |s| < TWO_TO_THE_32 && forall i :: 0 <= i < |s| ==> s[i] < TWO_TO_THE_32
    requires Holds(buf, pos, WideStringCells(e, s, pos))
    ensures ReadWideString(e, buf, pos) == Got(Cut(s), pos + |WideStringCells(e, s, pos)|)
  {
    hide Holds, ReadNumber, WordCells;
    var c := WordCells(e, |s|, pos);
    HoldsSplit(buf, pos, c, WideCells(e, s, pos + |c|));
    WordReadBack(e, |s|, buf, pos);
    WideReadBack(e, s, buf, pos + |c|);
  }

  // ---------------------------------------------------------------------------------------
  // Every element takes at least one octet, so the length test accepts the writer's output
  // ---------------------------------------------------------------------------------------

  lemma {:induction false} ElementNotEmpty(e: Endian, ty: MemberType, v: Element, pos: nat)
    requires TypedElement(ty, v)
    requires ty.Nested? ==> ty.members.list != [] && Inhabited(ty.members.list)
    ensures |EncodeElement(e, false, ty, v, pos)| >= 1
    decreases ty, 0, 0
  {
    match ty
    case Number(_) =>
    case Text =>
    case WideText =>
    case Nested(ms) => FieldsNotEmpty(e, ms.hasAnyKeyMember, ms.list, v.fields, pos);
  }

  lemma {:induction false} ElementsNotShort(e: Endian, ty: MemberType, f: Field, pos: nat)
    requires TypedElements(ty, f)
    requires ty.Nested? ==> ty.members.list != [] && Inhabited(ty.members.list)
    ensures |EncodeElements(e, false, ty, f, pos)| >= |f|
    decreases ty, 1, |f|
  {
    if f != [] {
      ElementNotEmpty(e, ty, f[0], pos);
      ElementsNotShort(e, ty, f[1..], pos + |EncodeElement(e, false, ty, f[0], pos)|);
    }
  }

  /** A member that is no sequence has at least one element; a sequence has its length word. */
  lemma {:induction false} FieldNotEmpty(e: Endian, m: Member, f: Field, pos: nat)
    requires TypedField(m, f) && InhabitedMember(m)
    ensures |EncodeField(e, false, m, f, pos)| >= 1
    decreases m
  {
    if !m.IsSequence() {
      ElementsNotShort(e, m.ty, f, pos);
    }
  }

  lemma {:induction false} FieldsNotEmpty(e: Endian, hasKey: bool, list: seq<Member>, fields: seq<Field>, pos: nat)
    requires list != [] && Typed(list, fields) && Inhabited(list)
    ensures |EncodeFields(e, false, hasKey, list, fields, pos)| >= 1
    decreases list
  {
    FieldNotEmpty(e, list[0], fields[0], pos);
  }

  // ---------------------------------------------------------------------------------------
  // The round trip
  // ---------------------------------------------------------------------------------------

  lemma {:induction false} ElementReadBack(e: Endian, lang: Lang, ty: MemberType, v: Element, buf: seq<byte>, pos: nat)
    requires TypedElement(ty, v) && MeasuredElement(lang, false, ty, v)
    requires ty.Nested? ==> Inhabited(ty.members.list)
    requires Holds(buf, pos, EncodeElement(e, false, ty, v, pos))
    ensures DecodeElement(e, lang, ty, buf, pos) == Got(v, pos + |EncodeElement(e, false, ty, v, pos)|)
    decreases ty, 0, 0
  {
    hide Holds, ReadNumber, WordCells;
    match ty
    case Number(s) =>
      PowersOf256();
      NumberReadBack(e, s.Size(), v.bits, buf, pos);
    case Text => StringReadBack(e, v.chars, buf, pos);
    case WideText => WideStringReadBack(e, v.wide, buf, pos);
    case Nested(ms) => FieldsReadBack(e, lang, ms.hasAnyKeyMember, ms.list, v.fields, buf, pos);
  }

  lemma DecodeElementsCons(e: Endian, lang: Lang, ty: MemberType, f: Field, buf: seq<byte>, pos: nat, p: nat, q: nat)
    requires f != []
    requires DecodeElement(e, lang, ty, buf, pos) == Got(f[0], p)
    requires DecodeElements(e, lang, ty, |f| - 1, buf, p) == Got(f[1..], q)
    ensures DecodeElements(e, lang, ty, |f|, buf, pos) == Got(f, q)
  {
    hide DecodeElement;
    assert [f[0]] + f[1..] == f;
  }

  lemma HoldsFirst(e: Endian, ty: MemberType, f: Field, buf: seq<byte>, pos: nat)
    requires f != [] && Holds(buf, pos, EncodeElements(e, false, ty, f, pos))
    ensures var c := EncodeElement(e, false, ty, f[0], pos);
      var rest := EncodeElements(e, false, ty, f[1..], pos + |c|);
      && |EncodeElements(e, false, ty, f, pos)| == |c| + |rest|
      && Holds(buf, pos, c) && Holds(buf, pos + |c|, rest)
  {
    hide Holds, EncodeElement;
    var c := EncodeElement(e, false, ty, f[0], pos);
    HoldsSplit(buf, pos, c, EncodeElements(e, false, ty, f[1..], pos + |c|));
  }

  lemma {:induction false} ElementsReadBack(e: Endian, lang: Lang, ty: MemberType, f: Field, buf: seq<byte>, pos: nat)
    requires TypedElements(ty, f) && MeasuredElements(lang, false, ty, f)
    requires ty.Nested? ==> Inhabited(ty.members.list)
    requires Holds(buf, pos, EncodeElements(e, false, ty, f, pos))
    ensures DecodeElements(e, lang, ty, |f|, buf, pos) == Got(f, pos + |EncodeElements(e, false, ty, f, pos)|)
    decreases ty, 1, |f|
  {
    hide Holds, EncodeElement, DecodeElement, TypedElement, MeasuredElement, Inhabited;
    if f != [] {
      hide EncodeElements, DecodeElements;
      var c := EncodeElement(e, false, ty, f[0], pos);
      var rest := EncodeElements(e, false, ty, f[1..], pos + |c|);
      HoldsFirst(e, ty, f, buf, pos);
      ElementReadBack(e, lang, ty, f[0], buf, pos);
      ElementsReadBack(e, lang, ty, f[1..], buf, pos + |c|);
      DecodeElementsCons(e, lang, ty, f, buf, pos, pos + |c|, pos + |c| + |rest|);
    }
  }

  lemma {:induction false} FieldReadBack(e: Endian, lang: Lang, m: Member, f: Field, buf: seq<byte>, pos: nat)
    requires TypedField(m, f) && MeasuredField(lang, false, m, f) && InhabitedMember(m)
    requires Holds(buf, pos, EncodeField(e, false, m, f, pos))
    ensures DecodeField(e, lang, m, buf, pos) == Got(f, pos + |EncodeField(e, false, m, f, pos)|)
    decreases m
  {
    hide Holds, ReadNumber, WordCells, EncodeElements, DecodeElements, TypedElements, MeasuredElements, Inhabited;
    var c := if m.IsSequence() then WordCells(e, |f|, pos) else [];
    HoldsSplit(buf, pos, c, EncodeElements(e, false, m.ty, f, pos + |c|));
    if m.IsSequence() {
      WordReadBack(e, |f|, buf, pos);
      ElementsNotShort(e, m.ty, f, pos + |c|);
    }
    ElementsReadBack(e, lang, m.ty, f, buf, pos + |c|);
  }

  lemma DecodeNil(e: Endian, lang: Lang, buf: seq<byte>, pos: nat)
    ensures Decode(e, lang, [], buf, pos) == Got([], pos)
  {
  }

  lemma DecodeCons(e: Endian, lang: Lang, list: seq<Member>, fields: seq<Field>, buf: seq<byte>, pos: nat, p: nat, q: nat)
    requires list != [] && fields != []
    requires DecodeField(e, lang, list[0], buf, pos) == Got(fields[0], p)
    requires Decode(e, lang, list[1..], buf, p) == Got(fields[1..], q)
    ensures Decode(e, lang, list, buf, pos) == Got(fields, q)
  {
    hide DecodeField;
    assert [fields[0]] + fields[1..] == fields;
  }

  lemma {:induction false} FieldsReadBack(e: Endian, lang: Lang, hasKey: bool, list: seq<Member>, fields: seq<Field>, buf: seq<byte>, pos: nat)
    requires Typed(list, fields) && Measured(lang, false, hasKey, list, fields) && Inhabited(list)
    requires Holds(buf, pos, EncodeFields(e, false, hasKey, list, fields, pos))
    ensures Decode(e, lang, list, buf, pos) == Got(fields, pos + |EncodeFields(e, false, hasKey, list, fields, pos)|)
    decreases list
  {
    hide Holds, EncodeField, Decode, DecodeField, TypedField, MeasuredField, InhabitedMember;
    if list == [] {
      DecodeNil(e, lang, buf, pos);
    } else {
      var c := EncodeField(e, false, list[0], fields[0], pos);
      var rest := EncodeFields(e, false, hasKey, list[1..], fields[1..], pos + |c|);
      HoldsSplit(buf, pos, c, rest);
      FieldReadBack(e, lang, list[0], fields[0], buf, pos);
      FieldsReadBack(e, lang, hasKey, list[1..], fields[1..], buf, pos + |c|);
      DecodeCons(e, lang, list, fields, buf, pos, pos + |c|, pos + |c| + |rest|);
    }
  }

  /**
   Deserializing what was serialized gives back the value and stops where the writer stopped,
   for every message type, value and starting position, and whatever follows in the buffer.
   */
  lemma MessageReadBack(e: Endian, lang: Lang, list: seq<Member>, fields: seq<Field>, buf: seq<byte>, pos: nat)
    requires Typed(list, fields) && Measured(lang, false, false, list, fields) && Inhabited(list)
    requires Holds(buf, pos, Encode(e, list, fields, pos))
    ensures Decode(e, lang, list, buf, pos) == Got(fields, pos + |Encode(e, list, fields, pos)|)
  {
    FieldsReadBack(e, lang, false, list, fields, buf, pos);
  }
}
