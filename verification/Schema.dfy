/**
 Run-time message descriptions (`MessageMembers` / `MessageMember` of the introspection type
 supports) and the typed values they describe.
 */
module Schema {
  import opened Wire

  /** Which introspection type support a description comes from: its `MembersType`. */
  datatype Lang = Cpp | C

  /**
   The scalar type identifiers, by what the codec distinguishes: `UInt8` is BYTE and UINT8 (the
   only ones a rosidl buffer can hold), `Int8` is CHAR and INT8; a floating point number is its
   bit pattern, so FLOAT32 is `Bits32` and FLOAT64 is `Bits64`.
   */
  datatype Scalar = Boolean | UInt8 | Int8 | Bits16 | Bits32 | Bits64 {
    function Size(): Width {
      match this
      case Boolean => 1
      case UInt8 => 1
      case Int8 => 1
      case Bits16 => 2
      case Bits32 => 4
      case Bits64 => 8
    }

    predicate Represents(bits: nat) {
      if Boolean? then bits < 2 else bits < Pow256(Size())
    }
  }

  datatype MemberType = Number(scalar: Scalar) | Text | WideText | Nested(members: Members)

  datatype Member = Member(
    ty: MemberType,
    isArray: bool,
    arraySize: nat,
    isUpperBound: bool,
    stringUpperBound: nat,
    isKey: bool,
    isRosidlBuffer: bool,
    offset: nat)
  {
    predicate IsSequence() {
      isArray && !(arraySize != 0 && !isUpperBound)
    }

    /** The number of elements of a member that is not a sequence. */
    function Count(): nat {
      if isArray then arraySize else 1
    }

    /** The members a key walk steps over. */
    predicate SkippedInKey(hasAnyKeyMember: bool) {
      !isKey && hasAnyKeyMember
    }

    predicate HoldsBuffer() {
      ty == Number(UInt8) && isRosidlBuffer
    }
  }

  datatype Members = Members(list: seq<Member>, hasAnyKeyMember: bool)

  /** A member's value is the row of its elements; a member that is no array has exactly one. */
  datatype Element =
    | Bits(bits: nat)
    | Chars(chars: seq<byte>)
    | NullChars  // a C string whose data pointer is null; only a member that is no array is read so
    | WideChars(wide: seq<nat>)
    | Record(fields: seq<seq<Element>>)

  type Field = seq<Element>

  // ---------------------------------------------------------------------------------------
  // Typed values
  // ---------------------------------------------------------------------------------------

  predicate NoNul(s: seq<byte>) {
    forall i :: 0 <= i < |s| ==> s[i] != 0
  }

  predicate IsUtf16(s: seq<nat>) {
    forall i :: 0 <= i < |s| ==> s[i] < 0x1_0000
  }

  predicate TypedElement(ty: MemberType, v: Element)
    decreases ty, 0, 0
  {
    match ty
    case Number(s) => v.Bits? && s.Represents(v.bits)
    case Text => (v.Chars? && NoNul(v.chars)) || v.NullChars?
    case WideText => v.WideChars? && IsUtf16(v.wide)
    case Nested(ms) => v.Record? && Typed(ms.list, v.fields)
  }

  predicate TypedElements(ty: MemberType, f: Field)
    decreases ty, 1, |f|
  {
    f == [] || (TypedElement(ty, f[0]) && TypedElements(ty, f[1..]))
  }

  predicate TypedField(m: Member, f: Field)
    decreases m
  {
    && (m.IsSequence() || |f| == m.Count())
    && (m.isArray ==> NullChars !in f)
    && TypedElements(m.ty, f)
  }

  /** `fields` is a value of the message type with these members. */
  predicate Typed(list: seq<Member>, fields: seq<Field>)
    decreases list
  {
    && |fields| == |list|
    && (list != [] ==> TypedField(list[0], fields[0]) && Typed(list[1..], fields[1..]))
  }

  // ---------------------------------------------------------------------------------------
  // Values with their strings initialised and lengths that survive their length words
  // ---------------------------------------------------------------------------------------

  /** The readers that take the length word as an int32_t. */
  predicate SignedLength(lang: Lang, m: Member) {
    m.ty.Number? && (lang == C || m.HoldsBuffer())
  }

  function LengthLimit(lang: Lang, m: Member): nat {
    if SignedLength(lang, m) then TWO_TO_THE_31 else TWO_TO_THE_32
  }

  predicate MeasuredElement(lang: Lang, key: bool, ty: MemberType, v: Element)
    decreases ty, 0, 0
  {
    match ty
    case Number(_) => true
    case Text => v.Chars? && |v.chars| + 1 < TWO_TO_THE_32
    case WideText => v.WideChars? && |v.wide| < TWO_TO_THE_32
    case Nested(ms) => v.Record? && Measured(lang, key, ms.hasAnyKeyMember, ms.list, v.fields)
  }

  predicate MeasuredElements(lang: Lang, key: bool, ty: MemberType, f: Field)
    decreases ty, 1, |f|
  {
    f == [] || (MeasuredElement(lang, key, ty, f[0]) && MeasuredElements(lang, key, ty, f[1..]))
  }

  predicate MeasuredField(lang: Lang, key: bool, m: Member, f: Field)
    decreases m
  {
    (m.IsSequence() ==> |f| < LengthLimit(lang, m)) && MeasuredElements(lang, key, m.ty, f)
  }

  /** With `key` it is only asked of the members that a key walk visits. */
  predicate Measured(lang: Lang, key: bool, hasKey: bool, list: seq<Member>, fields: seq<Field>)
    decreases list
  {
    && |fields| == |list|
    && (list != [] ==>
          && (!(key && list[0].SkippedInKey(hasKey)) ==> MeasuredField(lang, key, list[0], fields[0]))
          && Measured(lang, key, hasKey, list[1..], fields[1..]))
  }

  // ---------------------------------------------------------------------------------------
  // Descriptions
  // ---------------------------------------------------------------------------------------

  /** Every nested message type has a member (rosidl gives an empty message a dummy one). */
  predicate Inhabited(list: seq<Member>)
    decreases list
  {
    list == [] || (InhabitedMember(list[0]) && Inhabited(list[1..]))
  }

  predicate InhabitedMember(m: Member)
    decreases m
  {
    m.ty.Nested? ==> m.ty.members.list != [] && Inhabited(m.ty.members.list)
  }
}
