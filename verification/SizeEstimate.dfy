/**
 The per-message size estimate, as the position the walk reaches, and its agreement with the
 serializer: exact for C++ members, an upper bound for C members.
 */
module SizeEstimate {
  import opened Wire
  import opened Schema
  import opened Encoding

  function AfterNumbers(w: Width, n: nat, pos: nat): (p: nat)
    ensures p >= pos
  {
    AlignUp(pos, w) + (if w == 1 then n else if w == 2 then 2 * n else if w == 4 then 4 * n else 8 * n)
  }

  function AfterWord(pos: nat): (p: nat)
    ensures p > pos
  {
    AlignUp(pos, 4) + 4
  }

  function EstimateElement(lang: Lang, key: bool, ty: MemberType, v: Element, pos: nat): (p: nat)
    ensures p >= pos
    decreases ty, 0, 0
  {
    match ty
    case Number(s) => AfterNumbers(s.Size(), 1, pos)
    case Text => if v.Chars? then AfterWord(pos) + |v.chars| + 1 else pos
    case WideText => AfterWord(pos) + 4 * (if v.WideChars? then |v.wide| else 0)
    case Nested(ms) =>
      if v.Record? then EstimateFields(lang, key, ms.hasAnyKeyMember, ms.list, v.fields, pos) else pos
  }

  function EstimateElements(lang: Lang, key: bool, ty: MemberType, f: Field, pos: nat): (p: nat)
    ensures p >= pos
    decreases ty, 1, |f|
  {
    if f == [] then pos
    else EstimateElements(lang, key, ty, f[1..], EstimateElement(lang, key, ty, f[0], pos))
  }

  /** Numbers are sized in one step. C pads for the items of a sequence even when it has none. */
  function EstimateField(lang: Lang, key: bool, m: Member, f: Field, pos: nat): (p: nat)
    ensures p >= pos
    decreases m
  {
    var start := if m.IsSequence() then AfterWord(pos) else pos;
    match m.ty
    case Number(s) =>
      if m.IsSequence() then
        if f == [] && (lang == Cpp || m.HoldsBuffer()) then start else AfterNumbers(s.Size(), |f|, start)
      else AfterNumbers(s.Size(), m.Count(), start)
    case _ => EstimateElements(lang, key, m.ty, f, start)
  }

  function EstimateFields(lang: Lang, key: bool, hasKey: bool, list: seq<Member>, fields: seq<Field>, pos: nat): (p: nat)
    ensures p >= pos
    decreases list
  {
    if list == [] || fields == [] then pos
    else
      var p := if key && list[0].SkippedInKey(hasKey) then pos else EstimateField(lang, key, list[0], fields[0], pos);
      EstimateFields(lang, key, hasKey, list[1..], fields[1..], p)
  }

  // ---------------------------------------------------------------------------------------
  // Agreement with the serializer
  // ---------------------------------------------------------------------------------------

  predicate FilledElement(key: bool, ty: MemberType, v: Element)
    decreases ty, 0, 0
  {
    ty.Nested? && v.Record? ==> Filled(key, ty.members.hasAnyKeyMember, ty.members.list, v.fields)
  }

  predicate FilledElements(key: bool, ty: MemberType, f: Field)
    decreases ty, 1, |f|
  {
    f != [] ==> FilledElement(key, ty, f[0]) && FilledElements(key, ty, f[1..])
  }

  predicate FilledField(key: bool, m: Member, f: Field)
    decreases m
  {
    (m.IsSequence() && m.ty == Number(Bits64) ==> f != []) && FilledElements(key, m.ty, f)
  }

  /** No sequence of 64-bit numbers is empty: the only one an alignment of its own would move. */
  predicate Filled(key: bool, hasKey: bool, list: seq<Member>, fields: seq<Field>)
    decreases list
  {
    list != [] && fields != [] ==>
      && (!(key && list[0].SkippedInKey(hasKey)) ==> FilledField(key, list[0], fields[0]))
      && Filled(key, hasKey, list[1..], fields[1..])
  }

  /** Where the serializer's cursor stops, and how the estimate from `p >= q` compares. */
  ghost predicate Covers(exact: bool, estimate: nat, p: nat, written: nat, q: nat)
  {
    && q + written <= estimate
    && (exact && p == q ==> q + written == estimate)
  }

  lemma AfterMonotone(w: Width, n: nat, q: nat, p: nat)
    requires q <= p
    ensures AfterNumbers(w, n, q) <= AfterNumbers(w, n, p)
    ensures AfterWord(q) <= AfterWord(p)
  {
    hide AlignUp;
    AlignUpMonotone(q, p, w);
    AlignUpMonotone(q, p, 4);
  }

  lemma WordLength(e: Endian, n: nat, q: nat)
    ensures q + |WordCells(e, n, q)| == AfterWord(q)
  {
  }

  lemma AfterFirst(w: Width, n: nat, q: nat)
    ensures Aligned(AlignUp(q, w) + w, w)
    ensures AfterNumbers(w, n, AlignUp(q, w) + w) == AfterNumbers(w, n + 1, q)
  {
    AlignUpShift(AlignUp(q, w), w, w);
  }

  lemma FirstNumberLength(e: Endian, key: bool, s: Scalar, f: Field, q: nat)
    requires f != [] && TypedElements(Number(s), f)
    ensures var p := AlignUp(q, s.Size()) + s.Size();
      |EncodeElements(e, key, Number(s), f, q)| == p - q + |EncodeElements(e, key, Number(s), f[1..], p)|
    ensures TypedElements(Number(s), f[1..])
  {
    hide AlignUp, NumberOctets;
    assert |EncodeElement(e, key, Number(s), f[0], q)| == AlignUp(q, s.Size()) + s.Size() - q;
    hide EncodeElement;
  }

  lemma {:induction false} NumbersLength(e: Endian, key: bool, s: Scalar, f: Field, q: nat)
    requires TypedElements(Number(s), f)
    ensures q + |EncodeElements(e, key, Number(s), f, q)| == if f == [] then q else AfterNumbers(s.Size(), |f|, q)
    decreases |f|
  {
    if f != [] {
      hide AlignUp, Aligned, AfterNumbers, EncodeElements, TypedElements;
      var p := AlignUp(q, s.Size()) + s.Size();
      FirstNumberLength(e, key, s, f, q);
      AfterFirst(s.Size(), |f| - 1, q);
      NumbersLength(e, key, s, f[1..], p);
      if |f| == 1 {
        AfterNone(s.Size(), p);
      }
    }
  }

  lemma AfterNone(w: Width, p: nat)
    requires Aligned(p, w)
    ensures AfterNumbers(w, 0, p) == p
  {
  }

  lemma {:induction false} WideLength(e: Endian, s: seq<nat>, q: nat)
    requires Aligned(q, 4)
    ensures |WideCells(e, s, q)| == 4 * |s|
  {
    if s != [] {
      WideLength(e, s[1..], q + 4);
    }
  }

  lemma {:induction false} ElementCovered(e: Endian, lang: Lang, key: bool, ty: MemberType, v: Element, p: nat, q: nat)
    requires TypedElement(ty, v) && MeasuredElement(lang, key, ty, v) && q <= p
    ensures Covers(lang == Cpp || FilledElement(key, ty, v), EstimateElement(lang, key, ty, v, p), p, |EncodeElement(e, key, ty, v, q)|, q)
    decreases ty, 0, 0
  {
    hide AlignUp, WordCells, NumberCells, AfterWord;
    match ty
    case Number(s) => NumberCovered(e, s, v.bits, p, q);
    case Text =>
      AfterMonotone(4, 1, q, p);
      WordLength(e, |v.chars| + 1, q);
    case WideText =>
      AfterMonotone(4, 1, q, p);
      WordLength(e, |v.wide|, q);
      WideLength(e, v.wide, AfterWord(q));
    case Nested(ms) => FieldsCovered(e, lang, key, ms.hasAnyKeyMember, ms.list, v.fields, p, q);
  }

  lemma NumberCovered(e: Endian, s: Scalar, v: nat, p: nat, q: nat)
    requires q <= p
    ensures q + |NumberCells(e, s.Size(), v, q)| == AfterNumbers(s.Size(), 1, q) <= AfterNumbers(s.Size(), 1, p)
  {
    AfterMonotone(s.Size(), 1, q, p);
  }

  lemma {:induction false} ElementsCovered(e: Endian, lang: Lang, key: bool, ty: MemberType, f: Field, p: nat, q: nat)
    requires TypedElements(ty, f) && MeasuredElements(lang, key, ty, f) && q <= p
    ensures Covers(lang == Cpp || FilledElements(key, ty, f), EstimateElements(lang, key, ty, f, p), p, |EncodeElements(e, key, ty, f, q)|, q)
    decreases ty, 1, |f|
  {
    hide EstimateElement, EncodeElement, TypedElement, MeasuredElement;
    if f != [] {
      var c := EncodeElement(e, key, ty, f[0], q);
      ElementCovered(e, lang, key, ty, f[0], p, q);
      ElementsCovered(e, lang, key, ty, f[1..], EstimateElement(lang, key, ty, f[0], p), q + |c|);
    }
  }

  /** Where the elements of a member begin. */
  function Entry(m: Member, pos: nat): nat
  {
    if m.IsSequence() then AfterWord(pos) else pos
  }

  lemma FieldLength(e: Endian, key: bool, m: Member, f: Field, q: nat)
    ensures q + |EncodeField(e, key, m, f, q)| == Entry(m, q) + |EncodeElements(e, key, m.ty, f, Entry(m, q))|
  {
    hide EncodeElements, WordCells, AfterWord;
    WordLength(e, |f|, q);
  }

  lemma FieldEstimate(lang: Lang, key: bool, m: Member, f: Field, p: nat)
    requires !m.ty.Number?
    ensures EstimateField(lang, key, m, f, p) == EstimateElements(lang, key, m.ty, f, Entry(m, p))
  {
    hide EstimateElements, AfterWord;
  }

  /** Behind its length word an empty row of at most 32-bit numbers needs no padding. */
  lemma EmptyRow(m: Member, q: nat)
    requires m.ty.Number? && m.IsSequence() && m.ty != Number(Bits64)
    ensures AfterNumbers(m.ty.scalar.Size(), 0, AfterWord(q)) == AfterWord(q)
  {
    var w := m.ty.scalar.Size();
    assert w <= 4 && Aligned(AlignUp(q, 4) + 4, 4);
  }

  lemma RowCovered(e: Endian, lang: Lang, key: bool, m: Member, f: Field, p: nat, q: nat)
    requires m.ty.Number? && TypedField(m, f) && q <= p
    ensures Covers(lang == Cpp || FilledField(key, m, f), EstimateField(lang, key, m, f, p), p, |EncodeField(e, key, m, f, q)|, q)
  {
    hide EncodeField, EncodeElements, TypedElements, AlignUp, AfterWord, AfterNumbers;
    AfterMonotone(4, 1, q, p);
    FieldLength(e, key, m, f, q);
    NumbersLength(e, key, m.ty.scalar, f, Entry(m, q));
    AfterMonotone(m.ty.scalar.Size(), |f|, Entry(m, q), Entry(m, p));
    if f == [] && m.ty != Number(Bits64) {
      EmptyRow(m, q);
    }
  }

  lemma {:induction false} FieldCovered(e: Endian, lang: Lang, key: bool, m: Member, f: Field, p: nat, q: nat)
    requires TypedField(m, f) && MeasuredField(lang, key, m, f) && q <= p
    ensures Covers(lang == Cpp || FilledField(key, m, f), EstimateField(lang, key, m, f, p), p, |EncodeField(e, key, m, f, q)|, q)
    decreases m
  {
    if m.ty.Number? {
      RowCovered(e, lang, key, m, f, p, q);
    } else {
      hide EstimateField, EstimateElements, EncodeField, EncodeElements, TypedElements, MeasuredElements, AfterWord;
      AfterMonotone(4, 1, q, p);
      FieldLength(e, key, m, f, q);
      FieldEstimate(lang, key, m, f, p);
      ElementsCovered(e, lang, key, m.ty, f, Entry(m, p), Entry(m, q));
    }
  }

  /**
   Written from `q`, a message ends no later than the estimate made from any `p >= q`; from the
   same position the C++ estimate is exact, and so is the C one unless a sequence of 64-bit
   numbers is empty. The lag between the two cursors is what makes the
   bound survive the members after an over-padded one.
   */
  lemma {:induction false} FieldsCovered(e: Endian, lang: Lang, key: bool, hasKey: bool, list: seq<Member>, fields: seq<Field>, p: nat, q: nat)
    requires Typed(list, fields) && Measured(lang, key, hasKey, list, fields) && q <= p
    ensures Covers(lang == Cpp || Filled(key, hasKey, list, fields), EstimateFields(lang, key, hasKey, list, fields, p), p, |EncodeFields(e, key, hasKey, list, fields, q)|, q)
    decreases list
  {
    hide EstimateField, EncodeField, TypedField, MeasuredField;
    if list != [] {
      var m := list[0];
      if key && m.SkippedInKey(hasKey) {
        FieldsCovered(e, lang, key, hasKey, list[1..], fields[1..], p, q);
      } else {
        var c := EncodeField(e, key, m, fields[0], q);
        FieldCovered(e, lang, key, m, fields[0], p, q);
        FieldsCovered(e, lang, key, hasKey, list[1..], fields[1..], EstimateField(lang, key, m, fields[0], p), q + |c|);
      }
    }
  }

  // ---------------------------------------------------------------------------------------
  // Where the hypotheses bite
  // ---------------------------------------------------------------------------------------

  function Plainly(ty: MemberType): Member
  {
    Member(ty, false, 0, false, 0, false, false, 0)
  }

  function Unbounded(ty: MemberType): Member
  {
    Member(ty, true, 0, false, 0, false, false, 0)
  }

  /** The C bound is not exact: an empty sequence of 64-bit numbers is estimated with padding. */
  lemma EmptySequenceOverestimated(e: Endian)
    ensures EstimateFields(C, false, false, [Unbounded(Number(Bits64))], [[]], 0) == 8
    ensures EstimateFields(Cpp, false, false, [Unbounded(Number(Bits64))], [[]], 0) == 4
    ensures |Encode(e, [Unbounded(Number(Bits64))], [[]], 0)| == 4
  {
    var m := Unbounded(Number(Bits64));
    assert EstimateField(C, false, m, [], 0) == 8;
    assert EstimateField(Cpp, false, m, [], 0) == 4;
    assert |EncodeField(e, false, m, [], 0)| == 4;
  }

  /** A C string with null data is counted as nothing, but written as the empty string. */
  lemma NullStringUnderestimated(e: Endian)
    ensures Typed([Plainly(Text)], [[NullChars]])
    ensures EstimateFields(C, false, false, [Plainly(Text)], [[NullChars]], 0) == 0
    ensures |Encode(e, [Plainly(Text)], [[NullChars]], 0)| == 5
  {
    var m := Plainly(Text);
    assert TypedElements(Text, [NullChars]);
    FieldLength(e, false, m, [NullChars], 0);
    FieldEstimate(C, false, m, [NullChars], 0);
    assert |EncodeElement(e, false, Text, NullChars, 0)| == 5;
    assert [NullChars][1..] == [] && [[NullChars]][1..] == [] && [m][1..] == [];
    assert EncodeElements(e, false, Text, [], 5) == [];
  }
}
