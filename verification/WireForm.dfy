/**
 The wire form in octets. What the codec writes for a scalar, a string, a sequence and a whole
 message is stated here in numerals, position by position: the widths of the PLAIN_CDR encoding
 (section 7.4.1 of DDS-XTypes 1.3), byte order, padding, length words and terminators. And what
 the reader makes of octets that this writer does not produce.
 */
module WireForm {
  import opened Wire
  import opened Schema
  import opened Encoding
  import opened RoundTrip
  import opened CdrStream
  import opened TypeSupports

  /** The `k`-th digit of a number in base 256, the least significant one first. */
  function Digit(v: nat, k: nat): byte
  {
    if k == 0 then v % 256 else Digit(v / 256, k - 1)
  }

  /** Octet `k` of a number of `w` octets. */
  function OctetOf(e: Endian, w: nat, v: nat, k: nat): byte
    requires k < w
  {
    Digit(v, if e.Little? then k else w - 1 - k)
  }

  /** Padding up to position `p`, then `w` octets of the number. */
  ghost predicate NumberFrom(cells: seq<Cell>, pos: nat, p: nat, w: nat, e: Endian, v: nat)
  {
    && pos <= p && |cells| == p - pos + w
    && (forall i :: 0 <= i < p - pos ==> cells[i] == Gap)
    && (forall k :: 0 <= k < w ==> cells[p - pos + k] == Octet(OctetOf(e, w, v, k)))
  }

  /** The number at the next multiple of its width. */
  ghost predicate NumberAt(cells: seq<Cell>, pos: nat, w: nat, e: Endian, v: nat)
    requires w > 0
  {
    exists p: nat :: pos <= p < pos + w && p % w == 0 && NumberFrom(cells, pos, p, w, e, v)
  }

  // ---------------------------------------------------------------------------------------
  // Numbers
  // ---------------------------------------------------------------------------------------

  lemma {:induction false} LittleDigits(w: nat, v: nat, k: nat)
    requires k < w
    ensures LittleOctets(w, v)[k] == Digit(v, k)
  {
    if k > 0 {
      LittleDigits(w - 1, v / 256, k - 1);
    }
  }

  lemma {:induction false} BigDigits(w: nat, v: nat, k: nat)
    requires k < w
    ensures BigOctets(w, v)[w - 1 - k] == Digit(v, k)
  {
    if k > 0 {
      BigDigits(w - 1, v / 256, k - 1);
    }
  }

  lemma AlignUpDivides(pos: nat, w: Width)
    ensures AlignUp(pos, w) % w == 0
  {
    var p := AlignUp(pos, w);
    assert Aligned(p, w);
  }

  lemma NumberForm(e: Endian, w: Width, v: nat, pos: nat)
    ensures NumberAt(NumberCells(e, w, v, pos), pos, w, e, v)
  {
    var cells, p := NumberCells(e, w, v, pos), AlignUp(pos, w);
    AlignUpDivides(pos, w);
    hide AlignUp;
    forall k | 0 <= k < w
      ensures cells[p - pos + k] == Octet(OctetOf(e, w, v, k))
    {
      if e.Little? {
        LittleDigits(w, v, k);
      } else {
        BigDigits(w, v, w - 1 - k);
      }
    }
    assert NumberFrom(cells, pos, p, w, e, v);
  }

  /** Every scalar is written at a multiple of its width, in that many octets. */
  lemma ScalarForm(e: Endian, key: bool, v: nat, pos: nat)
    ensures NumberAt(EncodeElement(e, key, Number(Boolean), Bits(v), pos), pos, 1, e, v)
    ensures NumberAt(EncodeElement(e, key, Number(UInt8), Bits(v), pos), pos, 1, e, v)
    ensures NumberAt(EncodeElement(e, key, Number(Int8), Bits(v), pos), pos, 1, e, v)
    ensures NumberAt(EncodeElement(e, key, Number(Bits16), Bits(v), pos), pos, 2, e, v)
    ensures NumberAt(EncodeElement(e, key, Number(Bits32), Bits(v), pos), pos, 4, e, v)
    ensures NumberAt(EncodeElement(e, key, Number(Bits64), Bits(v), pos), pos, 8, e, v)
  {
    hide NumberCells, NumberAt;
    NumberForm(e, 1, v, pos);
    NumberForm(e, 2, v, pos);
    NumberForm(e, 4, v, pos);
    NumberForm(e, 8, v, pos);
  }

  lemma DigitsOfWord(v: nat)
    ensures forall k :: 0 <= k < 4 ==> Digit(v % 0x1_0000_0000, k) == Digit(v, k)
  {
    var r := v % 0x1_0000_0000;
    var q := v / 0x1_0000_0000;
    assert v == q * 0x1_0000_0000 + r;
    DropDigit(v, r, q * 0x100_0000);
    DropDigit(v / 256, r / 256, q * 0x1_0000);
    DropDigit(v / 256 / 256, r / 256 / 256, q * 0x100);
    DropDigit(v / 256 / 256 / 256, r / 256 / 256 / 256, q);
    forall k | 0 <= k < 4
      ensures Digit(r, k) == Digit(v, k)
    {
      assert Digit(v, 1) == Digit(v / 256, 0) && Digit(r, 1) == Digit(r / 256, 0);
      assert Digit(v, 2) == Digit(v / 256, 1) == Digit(v / 256 / 256, 0);
      assert Digit(r, 2) == Digit(r / 256, 1) == Digit(r / 256 / 256, 0);
      assert Digit(v, 3) == Digit(v / 256, 2) == Digit(v / 256 / 256, 1) == Digit(v / 256 / 256 / 256, 0);
      assert Digit(r, 3) == Digit(r / 256, 2) == Digit(r / 256 / 256, 1) == Digit(r / 256 / 256 / 256, 0);
    }
  }

  lemma DropDigit(v: nat, r: nat, q: nat)
    requires v == q * 256 + r
    ensures v % 256 == r % 256 && v / 256 == q + r / 256
  {
  }

  lemma SameWord(e: Endian, v: nat, k: nat)
    requires k < 4
    ensures OctetOf(e, 4, v % 0x1_0000_0000, k) == OctetOf(e, 4, v, k)
  {
    DigitsOfWord(v);
  }

  /** A length or a wide character: the low 32 bits, at a multiple of 4. */
  lemma WordForm(e: Endian, v: nat, pos: nat)
    ensures NumberAt(WordCells(e, v, pos), pos, 4, e, v)
  {
    var r, cells := v % 0x1_0000_0000, WordCells(e, v, pos);
    NumberForm(e, 4, r, pos);
    hide NumberCells, OctetOf;
    var p: nat :| pos <= p < pos + 4 && p % 4 == 0 && NumberFrom(cells, pos, p, 4, e, r);
    forall k | 0 <= k < 4
      ensures cells[p - pos + k] == Octet(OctetOf(e, 4, v, k))
    {
      SameWord(e, v, k);
    }
    assert NumberFrom(cells, pos, p, 4, e, v);
  }

  // ---------------------------------------------------------------------------------------
  // Strings
  // ---------------------------------------------------------------------------------------

  /** A word at `p`, the next multiple of 4, in front of everything else. */
  ghost predicate WordFirst(cells: seq<Cell>, pos: nat, p: nat, e: Endian, v: nat)
  {
    && pos <= p < pos + 4 && p % 4 == 0 && p - pos + 4 <= |cells|
    && NumberFrom(cells[..p - pos + 4], pos, p, 4, e, v)
  }

  lemma WordInFront(e: Endian, v: nat, pos: nat, rest: seq<Cell>) returns (p: nat)
    ensures p + 4 == pos + |WordCells(e, v, pos)|
    ensures WordFirst(WordCells(e, v, pos) + rest, pos, p, e, v)
    ensures (WordCells(e, v, pos) + rest)[p - pos + 4..] == rest
  {
    WordForm(e, v, pos);
    hide WordCells, OctetOf;
    var c := WordCells(e, v, pos);
    p :| pos <= p < pos + 4 && p % 4 == 0 && NumberFrom(c, pos, p, 4, e, v);
    assert (c + rest)[..p - pos + 4] == c;
  }

  /** A string: its length with the terminator, its characters, and a 0; a null one is empty. */
  lemma StringForm(e: Endian, key: bool, v: Element, pos: nat) returns (p: nat)
    requires v.Chars? || v.NullChars?
    ensures var cells, s := EncodeElement(e, key, Text, v, pos), if v.Chars? then v.chars else [];
      && WordFirst(cells, pos, p, e, |s| + 1)
      && |cells| == p - pos + 4 + |s| + 1
      && (forall i :: 0 <= i < |s| ==> cells[p - pos + 4..][i] == Octet(s[i]))
      && cells[|cells| - 1] == Octet(0)
  {
    hide WordCells, WordFirst;
    var s: seq<byte> := if v.Chars? then v.chars else [];
    p := WordInFront(e, |s| + 1, pos, Octets(s + [0]));
  }

  /** Behind an aligned position wide characters follow each other, four octets to one. */
  lemma {:induction false} WideCharsForm(e: Endian, s: seq<nat>, pos: nat)
    requires pos % 4 == 0
    ensures |WideCells(e, s, pos)| == 4 * |s|
    ensures forall i, k :: 0 <= i < |s| && 0 <= k < 4 ==> WideCells(e, s, pos)[4 * i + k] == Octet(OctetOf(e, 4, s[i], k))
    decreases |s|
  {
    hide OctetOf;
    if s != [] {
      var c := WordCells(e, s[0], pos);
      WordForm(e, s[0], pos);
      hide WordCells;
      var p: nat :| pos <= p < pos + 4 && p % 4 == 0 && NumberFrom(c, pos, p, 4, e, s[0]);
      assert p == pos;
      WideCharsForm(e, s[1..], pos + 4);
      var rest := WideCells(e, s[1..], pos + 4);
      assert WideCells(e, s, pos) == c + rest;
      hide WideCells;
      forall i, k | 0 <= i < |s| && 0 <= k < 4
        ensures (c + rest)[4 * i + k] == Octet(OctetOf(e, 4, s[i], k))
      {
        if i > 0 {
          assert rest[4 * (i - 1) + k] == Octet(OctetOf(e, 4, s[1..][i - 1], k));
        }
      }
    }
  }

  /** A wide string: the number of its characters, then each as a word of its own. */
  lemma WideStringForm(e: Endian, key: bool, s: seq<nat>, pos: nat) returns (p: nat)
    ensures var cells := EncodeElement(e, key, WideText, WideChars(s), pos);
      && WordFirst(cells, pos, p, e, |s|)
      && |cells| == p - pos + 4 + 4 * |s|
      && forall i, k :: 0 <= i < |s| && 0 <= k < 4 ==> cells[p - pos + 4..][4 * i + k] == Octet(OctetOf(e, 4, s[i], k))
  {
    hide WordCells, WideCells, OctetOf;
    var c := WordCells(e, |s|, pos);
    p := WordInFront(e, |s|, pos, WideCells(e, s, pos + |c|));
    WideCharsForm(e, s, p + 4);
  }

  // ---------------------------------------------------------------------------------------
  // Members and messages
  // ---------------------------------------------------------------------------------------

  /** Only sequences, bounded or not, have a length word in front of their elements. */
  lemma MemberForm(e: Endian, key: bool, m: Member, f: Field, pos: nat) returns (p: nat)
    requires TypedField(m, f)
    ensures var cells := EncodeField(e, key, m, f, pos);
      if m.isArray && (m.arraySize == 0 || m.isUpperBound) then
        WordFirst(cells, pos, p, e, |f|) && cells[p - pos + 4..] == EncodeElements(e, key, m.ty, f, p + 4)
      else
        |f| == (if m.isArray then m.arraySize else 1) && cells == EncodeElements(e, key, m.ty, f, pos)
  {
    hide WordCells, EncodeElements, WordFirst, TypedElements;
    if m.IsSequence() {
      var c := WordCells(e, |f|, pos);
      p := WordInFront(e, |f|, pos, EncodeElements(e, key, m.ty, f, pos + |c|));
    } else {
      p := pos;
      var elements := EncodeElements(e, key, m.ty, f, pos);
      assert [] + elements == elements;
    }
  }

  /** Elements are written in order, each from where the one before it ends. */
  lemma {:induction false} ElementsInOrder(e: Endian, key: bool, ty: MemberType, f: Field, g: Field, pos: nat)
    ensures var c := EncodeElements(e, key, ty, f, pos);
      EncodeElements(e, key, ty, f + g, pos) == c + EncodeElements(e, key, ty, g, pos + |c|)
    decreases |f|
  {
    hide EncodeElement;
    if f == [] {
      assert f + g == g;
    } else {
      var first := EncodeElement(e, key, ty, f[0], pos);
      assert (f + g)[1..] == f[1..] + g;
      ElementsInOrder(e, key, ty, f[1..], g, pos + |first|);
    }
  }

  lemma FieldsCons(e: Endian, key: bool, hasKey: bool, list: seq<Member>, fields: seq<Field>, pos: nat)
    requires list != [] && fields != []
    ensures var first := if key && list[0].SkippedInKey(hasKey) then [] else EncodeField(e, key, list[0], fields[0], pos);
      EncodeFields(e, key, hasKey, list, fields, pos) == first + EncodeFields(e, key, hasKey, list[1..], fields[1..], pos + |first|)
  {
    hide EncodeField;
  }

  lemma Regroup(whole: seq<Cell>, first: seq<Cell>, rest: seq<Cell>, a: seq<Cell>, b: seq<Cell>)
    requires whole == first + rest && rest == a + b
    ensures whole == first + a + b
  {
  }

  lemma TailOfFirst<T>(s: seq<T>, i: nat)
    requires 0 < i <= |s|
    ensures s[..i] != [] && s[..i][0] == s[0] && s[..i][1..] == s[1..][..i - 1] && s[1..][i - 1..] == s[i..]
  {
  }

  lemma NoMembers(e: Endian, key: bool, hasKey: bool, list: seq<Member>, fields: seq<Field>, pos: nat)
    ensures list[..0] == [] && EncodeFields(e, key, hasKey, [], fields[..0], pos) == []
    ensures EncodeFields(e, key, hasKey, list[0..], fields[0..], pos) == EncodeFields(e, key, hasKey, list, fields, pos)
  {
    assert list[0..] == list && fields[0..] == fields;
  }

  /** And so are members: the first `i`, and the others behind them. */
  lemma {:induction false} MembersInOrder(e: Endian, key: bool, hasKey: bool, list: seq<Member>, fields: seq<Field>, i: nat, pos: nat)
    requires i <= |list| == |fields|
    ensures var c := EncodeFields(e, key, hasKey, list[..i], fields[..i], pos);
      EncodeFields(e, key, hasKey, list, fields, pos) == c + EncodeFields(e, key, hasKey, list[i..], fields[i..], pos + |c|)
    decreases i
  {
    hide EncodeField, EncodeFields;
    if i == 0 {
      NoMembers(e, key, hasKey, list, fields, pos);
    } else {
      var first := if key && list[0].SkippedInKey(hasKey) then [] else EncodeField(e, key, list[0], fields[0], pos);
      var next := pos + |first|;
      TailOfFirst(list, i);
      TailOfFirst(fields, i);
      FieldsCons(e, key, hasKey, list, fields, pos);
      FieldsCons(e, key, hasKey, list[..i], fields[..i], pos);
      MembersInOrder(e, key, hasKey, list[1..], fields[1..], i - 1, next);
      var c := EncodeFields(e, key, hasKey, list[1..][..i - 1], fields[1..][..i - 1], next);
      Regroup(EncodeFields(e, key, hasKey, list, fields, pos), first, EncodeFields(e, key, hasKey, list[1..], fields[1..], next),
              c, EncodeFields(e, key, hasKey, list[i..], fields[i..], next + |c|));
    }
  }

  /** The octets 0 and 1 or 0 for the byte order, two more of 0, and the body aligned behind them. */
  lemma MessageForm(e: Endian, ms: Members, fields: seq<Field>)
    ensures var cells := MessageCells(e, ms, fields);
      && cells[..4] == [Octet(0), Octet(if e.Little? then 1 else 0), Octet(0), Octet(0)]
      && cells[4..] == if ms.list == [] then [Octet(0)] else EncodeFields(e, false, ms.hasAnyKeyMember, ms.list, fields, 0)
  {
    hide EncodeFields;
    NumberForm(e, 1, 0, 0);
  }

  /** No other encapsulation is read, whatever the last two octets of the header are. */
  lemma OtherHeadersRefused(lang: Lang, ms: Members, buf: seq<byte>)
    requires ms.list != []
    ensures DecodeMessage(lang, ms, buf) ==
      if |buf| >= 4 && buf[0] == 0 && buf[1] <= 1 then
        match Decode(if buf[1] == 1 then Little else Big, lang, ms.list, buf[4..], 0)
        case Fail => None
        case Got(fields, _) => Some(fields)
      else None
  {
    hide Decode;
  }

  // ---------------------------------------------------------------------------------------
  // What other writers may send
  // ---------------------------------------------------------------------------------------

  /** A boolean is an octet, and only 0 and 1 are accepted. */
  lemma BooleanRead(e: Endian, lang: Lang, buf: seq<byte>, pos: nat)
    ensures DecodeElement(e, lang, Number(Boolean), buf, pos) == if pos < |buf| && buf[pos] <= 1 then Got(Bits(buf[pos]), pos + 1) else Fail
  {
    if pos < |buf| {
      OneOctet(e, buf[pos]);
      assert buf[pos..pos + 1] == [buf[pos]];
    }
  }

  lemma OneOctet(e: Endian, b: byte)
    ensures NumberValue(e, [b]) == b
  {
    assert [b][1..] == [] && [b][..0] == [];
    assert LittleValue([]) == 0 && BigValue([]) == 0;
  }

  /** A string may also come without its terminator; what there is of it is taken whole. */
  lemma UnterminatedRead(e: Endian, s: seq<byte>, buf: seq<byte>, pos: nat)
    requires NoNul(s) && |s| < TWO_TO_THE_32
    requires Holds(buf, pos, WordCells(e, |s|, pos) + Octets(s))
    ensures ReadString(e, buf, pos) == Got(s, pos + |WordCells(e, |s|, pos)| + |s|)
  {
    hide Holds, ReadNumber, WordCells;
    var c := WordCells(e, |s|, pos);
    HoldsSplit(buf, pos, c, Octets(s));
    WordReadBack(e, |s|, buf, pos);
    HoldsOctets(buf, pos + |c|, s);
    if s != [] {
      assert buf[pos + |c|..pos + |c| + |s|][|s| - 1] == s[|s| - 1];
    }
  }

  /** A string longer than the buffer is not read. */
  lemma LongStringRefused(e: Endian, n: nat, buf: seq<byte>, pos: nat)
    requires n < TWO_TO_THE_32 && Holds(buf, pos, WordCells(e, n, pos)) && n > |buf| - (pos + |WordCells(e, n, pos)|)
    ensures ReadString(e, buf, pos) == Fail
  {
    hide Holds, ReadNumber, WordCells;
    WordReadBack(e, n, buf, pos);
  }

  /**
   What becomes of a length word: numbers of C members, and octets in a rosidl buffer, have a
   signed one, and no member but a row of C wide strings may announce more elements than there
   are octets left.
   */
  lemma SequenceRead(e: Endian, lang: Lang, m: Member, n: nat, buf: seq<byte>, pos: nat)
    requires m.isArray && (m.arraySize == 0 || m.isUpperBound)
    requires n < 0x1_0000_0000 && Holds(buf, pos, WordCells(e, n, pos))
    ensures var q := pos + |WordCells(e, n, pos)|;
      DecodeField(e, lang, m, buf, pos) ==
        if m.ty.Number? && (lang == C || (m.ty.scalar == UInt8 && m.isRosidlBuffer)) && n >= 0x8000_0000 then Fail
        else if !(lang == C && m.ty.WideText?) && n > |buf| - q then Fail
        else DecodeElements(e, lang, m.ty, n, buf, q)
  {
    hide Holds, ReadNumber, WordCells, DecodeElements;
    WordReadBack(e, n, buf, pos);
  }

  /** A member that is no sequence has its elements read at once, and as many as declared. */
  lemma FixedRead(e: Endian, lang: Lang, m: Member, buf: seq<byte>, pos: nat)
    requires !(m.isArray && (m.arraySize == 0 || m.isUpperBound))
    ensures DecodeField(e, lang, m, buf, pos) == DecodeElements(e, lang, m.ty, if m.isArray then m.arraySize else 1, buf, pos)
  {
    hide DecodeElements;
  }

  // ---------------------------------------------------------------------------------------
  // What the serializer refuses
  // ---------------------------------------------------------------------------------------

  predicate LoneBounded(m: Member)
    decreases m
  {
    || (m.ty.Text? && !m.isArray && m.stringUpperBound != 0)
    || (m.ty.Nested? && SomeLoneBounded(m.ty.members.list))
  }

  /** Somewhere in it there is a bounded string that is not in an array. */
  predicate SomeLoneBounded(list: seq<Member>)
    decreases list
  {
    list != [] && (LoneBounded(list[0]) || SomeLoneBounded(list[1..]))
  }

  /** Nothing but a lone bounded C string is ever refused, neither in arrays nor in C++. */
  lemma {:induction false} OnlyLoneStringsRefused(lang: Lang, key: bool, hasKey: bool, list: seq<Member>, fields: seq<Field>)
    requires lang == Cpp || !SomeLoneBounded(list)
    ensures Accepts(lang, key, hasKey, list, fields)
    decreases list
  {
    if list != [] && fields != [] {
      MemberNotRefused(lang, key, list[0], fields[0]);
      OnlyLoneStringsRefused(lang, key, hasKey, list[1..], fields[1..]);
    }
  }

  lemma {:induction false} MemberNotRefused(lang: Lang, key: bool, m: Member, f: Field)
    requires lang == Cpp || !LoneBounded(m)
    ensures AcceptsField(lang, key, m, f)
    decreases m, 1, 0
  {
    ElementsNotRefused(lang, key, m, f);
  }

  lemma {:induction false} ElementsNotRefused(lang: Lang, key: bool, m: Member, f: Field)
    requires lang == Cpp || !LoneBounded(m)
    ensures AcceptsElements(lang, key, m, f)
    decreases m, 0, |f|
  {
    if m.ty.Nested? && f != [] {
      if f[0].Record? {
        OnlyLoneStringsRefused(lang, key, m.ty.members.hasAnyKeyMember, m.ty.members.list, f[0].fields);
      }
      ElementsNotRefused(lang, key, m, f[1..]);
    }
  }

  /** A refusal is of the whole message, wherever in it the string is. */
  lemma {:induction false} RefusedByOne(lang: Lang, key: bool, hasKey: bool, list: seq<Member>, fields: seq<Field>, i: nat)
    requires i < |list| == |fields| && !(key && !list[i].isKey && hasKey)
    requires !AcceptsField(lang, key, list[i], fields[i])
    ensures !Accepts(lang, key, hasKey, list, fields)
    decreases |list|
  {
    hide AcceptsField;
    if i > 0 {
      RefusedByOne(lang, key, hasKey, list[1..], fields[1..], i - 1);
    }
  }
}
