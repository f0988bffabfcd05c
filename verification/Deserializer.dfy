/**
 Deserializing a message in place of the cursor's stream, proved against Encoding.Decode. An
 `ok` of false is an exception of the cursor, which the codec turns into a failed call.
 */
module Deserializer {
  import opened Wire
  import opened Schema
  import opened Encoding
  import opened CdrStream

  method DeserializeElement(deser: Cdr, lang: Lang, ty: MemberType) returns (ok: bool, v: Element)
    requires deser.Valid()
    modifies deser`offset
    ensures deser.Valid()
    ensures DecodeElement(deser.endian, lang, ty, deser.Body(), old(deser.Position())) == if ok then Got(v, deser.Position()) else Fail
    decreases ty, 0, 0
  {
    hide ReadNumber, ReadString, ReadWideString;
    v := Bits(0);
    match ty
    case Number(s) =>
      var bits;
      ok, bits := deser.GetNumber(s.Size());
      ok, v := ok && (s != Boolean || bits <= 1), Bits(bits);
    case Text =>
      var s;
      ok, s := deser.GetString();
      v := Chars(s);
    case WideText =>
      var s;
      ok, s := deser.GetWideString();
      v := WideChars(s);
    case Nested(ms) =>
      var fields;
      ok, fields := DeserializeMembers(deser, lang, ms.list);
      v := Record(fields);
  }

  method DeserializeElements(deser: Cdr, lang: Lang, ty: MemberType, n: nat) returns (ok: bool, f: Field)
    requires deser.Valid()
    modifies deser`offset
    ensures deser.Valid()
    ensures DecodeElements(deser.endian, lang, ty, n, deser.Body(), old(deser.Position())) == if ok then Got(f, deser.Position()) else Fail
    decreases ty, 1, 0
  {
    hide DecodeElement, Prepend;
    ghost var whole := DecodeElements(deser.endian, lang, ty, n, deser.Body(), deser.Position());
    f := [];
    var i := 0;
    ok := true;
    PrependNone(whole);
    while ok && i < n
      invariant deser.Valid() && i <= n
      invariant ok ==> whole == Prepend(f, DecodeElements(deser.endian, lang, ty, n - i, deser.Body(), deser.Position()))
      invariant !ok ==> whole == Fail
      decreases n - i, ok
    {
      ghost var from := deser.Position();
      var v;
      ok, v := DeserializeElement(deser, lang, ty);
      DecodeElementsStep(deser.endian, lang, ty, n - i, deser.Body(), from, f);
      if ok {
        f := f + [v];
      }
      i := i + 1;
    }
    PrependToEmpty(f, deser.Position());
  }

  lemma PrependToEmpty<T>(done: seq<T>, pos: nat)
    ensures Prepend(done, Got([], pos)) == Got(done, pos)
  {
    assert done + [] == done;
  }

  lemma DecodeElementsStep(e: Endian, lang: Lang, ty: MemberType, n: nat, buf: seq<byte>, pos: nat, done: Field)
    requires n > 0
    ensures match DecodeElement(e, lang, ty, buf, pos)
      case Fail => Prepend(done, DecodeElements(e, lang, ty, n, buf, pos)) == Fail
      case Got(v, p) => Prepend(done, DecodeElements(e, lang, ty, n, buf, pos)) == Prepend(done + [v], DecodeElements(e, lang, ty, n - 1, buf, p))
  {
    hide DecodeElement;
    match DecodeElement(e, lang, ty, buf, pos)
    case Fail =>
    case Got(v, p) =>
      var rest := DecodeElements(e, lang, ty, n - 1, buf, p);
      assert DecodeElements(e, lang, ty, n, buf, pos) == Prepend([v], rest);
      PrependOnce(done, v, rest);
  }

  /** The length word of a sequence, and whether so many elements can still follow. */
  method ReadSequenceLength(deser: Cdr, lang: Lang, m: Member) returns (ok: bool, n: nat)
    requires deser.Valid()
    modifies deser`offset
    ensures deser.Valid()
    ensures ReadLength(deser.endian, lang, m, deser.Body(), old(deser.Position())) == if ok then Got(n, deser.Position()) else Fail
    ensures ok && !(lang == C && m.ty.WideText?) ==> n <= deser.limit - deser.offset
  {
    hide ReadNumber;
    ok, n := deser.GetNumber(4);
    if !ok {
      return;
    }
    if SignedLength(lang, m) && n >= TWO_TO_THE_31 {
      // A negative int32_t: as a size_t it exceeds any buffer.
      return false, 0;
    }
    if ChecksLength(lang, m) {
      ok := deser.CheckSequenceSize(n);
    }
  }

  method DeserializeMember(deser: Cdr, lang: Lang, m: Member) returns (ok: bool, f: Field)
    requires deser.Valid()
    modifies deser`offset
    ensures deser.Valid()
    ensures DecodeField(deser.endian, lang, m, deser.Body(), old(deser.Position())) == if ok then Got(f, deser.Position()) else Fail
    decreases m
  {
    hide ReadLength, DecodeElements;
    var n := m.Count();
    if m.IsSequence() {
      ok, n := ReadSequenceLength(deser, lang, m);
      if !ok {
        return false, [];
      }
    }
    ok, f := DeserializeElements(deser, lang, m.ty, n);
  }

  method DeserializeMembers(deser: Cdr, lang: Lang, list: seq<Member>) returns (ok: bool, fields: seq<Field>)
    requires deser.Valid()
    modifies deser`offset
    ensures deser.Valid()
    ensures Decode(deser.endian, lang, list, deser.Body(), old(deser.Position())) == if ok then Got(fields, deser.Position()) else Fail
    decreases list
  {
    hide DecodeField, Prepend;
    ghost var whole := Decode(deser.endian, lang, list, deser.Body(), deser.Position());
    fields := [];
    var i := 0;
    ok := true;
    PrependNone(whole);
    assert list[0..] == list;
    while ok && i < |list|
      invariant deser.Valid() && i <= |list|
      invariant ok ==> whole == Prepend(fields, Decode(deser.endian, lang, list[i..], deser.Body(), deser.Position()))
      invariant !ok ==> whole == Fail
      decreases |list| - i, ok
    {
      ghost var from := deser.Position();
      var f;
      ok, f := DeserializeMember(deser, lang, list[i]);
      DecodeStep(deser.endian, lang, list, i, deser.Body(), from, fields);
      if ok {
        fields := fields + [f];
      }
      i := i + 1;
    }
    PrependToEmpty(fields, deser.Position());
  }

  lemma DecodeStep(e: Endian, lang: Lang, list: seq<Member>, i: nat, buf: seq<byte>, pos: nat, done: seq<Field>)
    requires i < |list|
    ensures match DecodeField(e, lang, list[i], buf, pos)
      case Fail => Prepend(done, Decode(e, lang, list[i..], buf, pos)) == Fail
      case Got(f, p) => Prepend(done, Decode(e, lang, list[i..], buf, pos)) == Prepend(done + [f], Decode(e, lang, list[i + 1..], buf, p))
  {
    hide DecodeField;
    assert list[i..][1..] == list[i + 1..];
    match DecodeField(e, lang, list[i], buf, pos)
    case Fail =>
    case Got(f, p) =>
      var rest := Decode(e, lang, list[i + 1..], buf, p);
      assert Decode(e, lang, list[i..], buf, pos) == Prepend([f], rest);
      PrependOnce(done, f, rest);
  }
}
