/**
 The PLAIN_CDR wire form (section 7.4.1 of DDS-XTypes 1.3) that the introspection codec writes
 and reads, as functions of the running position. Positions count from the alignment origin.
 */
module Encoding {
  import opened Wire
  import opened Schema

  // ---------------------------------------------------------------------------------------
  // What the serializer writes
  // ---------------------------------------------------------------------------------------

  function NumberCells(e: Endian, w: Width, v: nat, pos: nat): (c: seq<Cell>)
    ensures |c| == AlignUp(pos, w) - pos + w
  {
    Gaps(AlignUp(pos, w) - pos) + Octets(NumberOctets(e, w, v))
  }

  /** A length or a wide character: a uint32, cut to 32 bits by the cast. */
  function WordCells(e: Endian, v: nat, pos: nat): (c: seq<Cell>)
    ensures |c| == AlignUp(pos, 4) - pos + 4
  {
    NumberCells(e, 4, v % TWO_TO_THE_32, pos)
  }

  function StringCells(e: Endian, s: seq<byte>, pos: nat): (c: seq<Cell>)
    ensures |c| == AlignUp(pos, 4) - pos + 4 + |s| + 1
  {
    WordCells(e, |s| + 1, pos) + Octets(s + [0])
  }

  function WideCells(e: Endian, s: seq<nat>, pos: nat): (c: seq<Cell>)
  {
    if s == [] then []
    else
      var c := WordCells(e, s[0], pos);
      c + WideCells(e, s[1..], pos + |c|)
  }

  function WideStringCells(e: Endian, s: seq<nat>, pos: nat): seq<Cell>
  {
    var c := WordCells(e, |s|, pos);
    c + WideCells(e, s, pos + |c|)
  }

  /** Values that do not fit their type have no wire form; the empty row stands for it. */
  function EncodeElement(e: Endian, key: bool, ty: MemberType, v: Element, pos: nat): seq<Cell>
    decreases ty, 0, 0
  {
    match ty
    case Number(s) => if v.Bits? then NumberCells(e, s.Size(), v.bits, pos) else []
    case Text => StringCells(e, if v.Chars? then v.chars else [], pos)
    case WideText => WideStringCells(e, if v.WideChars? then v.wide else [], pos)
    case Nested(ms) =>
      if v.Record? then EncodeFields(e, key, ms.hasAnyKeyMember, ms.list, v.fields, pos) else []
  }

  function EncodeElements(e: Endian, key: bool, ty: MemberType, f: Field, pos: nat): seq<Cell>
    decreases ty, 1, |f|
  {
    if f == [] then []
    else
      var c := EncodeElement(e, key, ty, f[0], pos);
      c + EncodeElements(e, key, ty, f[1..], pos + |c|)
  }

  function EncodeField(e: Endian, key: bool, m: Member, f: Field, pos: nat): seq<Cell>
    decreases m
  {
    var c := if m.IsSequence() then WordCells(e, |f|, pos) else [];
    c + EncodeElements(e, key, m.ty, f, pos + |c|)
  }

  /** `key` walks only the key members, of a message type that has any. */
  function EncodeFields(e: Endian, key: bool, hasKey: bool, list: seq<Member>, fields: seq<Field>, pos: nat): seq<Cell>
    decreases list
  {
    if list == [] || fields == [] then []
    else
      var c := if key && list[0].SkippedInKey(hasKey) then [] else EncodeField(e, key, list[0], fields[0], pos);
      c + EncodeFields(e, key, hasKey, list[1..], fields[1..], pos + |c|)
  }

  /** The only value the serializer itself refuses: a lone C string longer than its bound plus one. */
  predicate AcceptsField(lang: Lang, key: bool, m: Member, f: Field)
    decreases m, 1, 0
  {
    && (lang == C && m.ty.Text? && !m.isArray && m.stringUpperBound != 0 && f != [] && f[0].Chars?
        ==> |f[0].chars| <= m.stringUpperBound + 1)
    && AcceptsElements(lang, key, m, f)
  }

  predicate AcceptsElements(lang: Lang, key: bool, m: Member, f: Field)
    decreases m, 0, |f|
  {
    m.ty.Nested? && f != [] ==>
      && (f[0].Record? ==> Accepts(lang, key, m.ty.members.hasAnyKeyMember, m.ty.members.list, f[0].fields))
      && AcceptsElements(lang, key, m, f[1..])
  }

  predicate Accepts(lang: Lang, key: bool, hasKey: bool, list: seq<Member>, fields: seq<Field>)
    decreases list
  {
    list != [] && fields != [] ==>
      && (!(key && list[0].SkippedInKey(hasKey)) ==> AcceptsField(lang, key, list[0], fields[0]))
      && Accepts(lang, key, hasKey, list[1..], fields[1..])
  }

  /** The whole body of a message, every member included. */
  function Encode(e: Endian, list: seq<Member>, fields: seq<Field>, pos: nat): seq<Cell>
  {
    EncodeFields(e, false, false, list, fields, pos)
  }

  // ---------------------------------------------------------------------------------------
  // What the deserializer reads
  // ---------------------------------------------------------------------------------------

  /** `Fail` is an exception thrown by the cursor; `pos` is where the reader stopped. */
  datatype Read<+T> = Fail | Got(value: T, pos: nat) {
    predicate IsFailure() { Fail? }
    function PropagateFailure<U>(): Read<U> requires Fail? { Fail }
    function Extract(): (T, nat) requires Got? { (value, pos) }
  }

  function ReadNumber(e: Endian, w: Width, buf: seq<byte>, pos: nat): (r: Read<nat>)
    ensures r.Got? ==> pos < r.pos <= |buf|
  {
    var p := AlignUp(pos, w);
    if p + w <= |buf| then Got(NumberValue(e, buf[p..p + w]), p + w) else Fail
  }

  /** A length of 0 is the empty string; otherwise a trailing NUL is not part of the string. */
  function ReadString(e: Endian, buf: seq<byte>, pos: nat): (r: Read<seq<byte>>)
    ensures r.Got? ==> pos < r.pos <= |buf|
  {
    var (n, p) :- ReadNumber(e, 4, buf, pos);
    if n == 0 then Got([], p)
    else if p + n > |buf| then Fail
    else if buf[p + n - 1] == 0 then Got(buf[p..p + n - 1], p + n)
    else Got(buf[p..p + n], p + n)
  }

  function ReadWide(e: Endian, n: nat, buf: seq<byte>, pos: nat): (r: Read<seq<nat>>)
    ensures r.Got? ==> pos <= r.pos && (pos <= |buf| ==> r.pos <= |buf|)
    decreases n
  {
    if n == 0 then Got([], pos)
    else
      var (c, p) :- ReadNumber(e, 4, buf, pos);
      var (rest, q) :- ReadWide(e, n - 1, buf, p);
      Got([c % 0x1_0000] + rest, q)
  }

  function ReadWideString(e: Endian, buf: seq<byte>, pos: nat): (r: Read<seq<nat>>)
    ensures r.Got? ==> pos < r.pos <= |buf|
  {
    var (n, p) :- ReadNumber(e, 4, buf, pos);
    ReadWide(e, n, buf, p)
  }

  /** check_sequence_size, and the same test inside the cursor's own reader of vectors. */
  predicate RoomFor(buf: seq<byte>, pos: nat, size: nat)
  {
    pos + size <= |buf|
  }

  /** Only the C wide string sequence is sized without that test. */
  predicate ChecksLength(lang: Lang, m: Member)
  {
    !(lang == C && m.ty == WideText)
  }

  /**
   The number of elements of a sequence. A negative int32_t becomes a huge size_t, for which
   there is never room.
   */
  function ReadLength(e: Endian, lang: Lang, m: Member, buf: seq<byte>, pos: nat): (r: Read<nat>)
    ensures r.Got? ==> pos < r.pos <= |buf|
  {
    var (n, p) :- ReadNumber(e, 4, buf, pos);
    if SignedLength(lang, m) && n >= TWO_TO_THE_31 then Fail
    else if ChecksLength(lang, m) && !RoomFor(buf, p, n) then Fail
    else Got(n, p)
  }

  function DecodeElement(e: Endian, lang: Lang, ty: MemberType, buf: seq<byte>, pos: nat): (r: Read<Element>)
    ensures r.Got? ==> pos <= r.pos && (pos <= |buf| ==> r.pos <= |buf|)
    decreases ty, 0, 0
  {
    match ty
    case Number(s) =>
      var (bits, p) :- ReadNumber(e, s.Size(), buf, pos);
      if s == Boolean && bits > 1 then Fail else Got(Bits(bits), p)
    case Text =>
      var (s, p) :- ReadString(e, buf, pos);
      Got(Chars(s), p)
    case WideText =>
      var (s, p) :- ReadWideString(e, buf, pos);
      Got(WideChars(s), p)
    case Nested(ms) =>
      var (fields, p) :- Decode(e, lang, ms.list, buf, pos);
      Got(Record(fields), p)
  }

  function DecodeElements(e: Endian, lang: Lang, ty: MemberType, n: nat, buf: seq<byte>, pos: nat): (r: Read<Field>)
    ensures r.Got? ==> pos <= r.pos && (pos <= |buf| ==> r.pos <= |buf|)
    decreases ty, 1, n
  {
    if n == 0 then Got([], pos)
    else
      var (v, p) :- DecodeElement(e, lang, ty, buf, pos);
      var (rest, q) :- DecodeElements(e, lang, ty, n - 1, buf, p);
      Got([v] + rest, q)
  }

  function DecodeField(e: Endian, lang: Lang, m: Member, buf: seq<byte>, pos: nat): (r: Read<Field>)
    ensures r.Got? ==> pos <= r.pos && (pos <= |buf| ==> r.pos <= |buf|)
    decreases m
  {
    if m.IsSequence() then
      var (n, p) :- ReadLength(e, lang, m, buf, pos);
      DecodeElements(e, lang, m.ty, n, buf, p)
    else
      DecodeElements(e, lang, m.ty, m.Count(), buf, pos)
  }

  function Decode(e: Endian, lang: Lang, list: seq<Member>, buf: seq<byte>, pos: nat): (r: Read<seq<Field>>)
    ensures r.Got? ==> pos <= r.pos && (pos <= |buf| ==> r.pos <= |buf|)
    decreases list
  {
    if list == [] then Got([], pos)
    else
      var (f, p) :- DecodeField(e, lang, list[0], buf, pos);
      var (rest, q) :- Decode(e, lang, list[1..], buf, p);
      Got([f] + rest, q)
  }
}
