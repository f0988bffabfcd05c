/**
 Encodings as identifiers: they delimit themselves, the key walk writes the encoding of the
 key alone, and a key without strings and sequences has one layout for all values.
 */
module KeyView {
  import opened Wire
  import opened Schema
  import opened Encoding
  import opened MaxSize
  import opened RoundTrip

  // ---------------------------------------------------------------------------------------
  // Encodings delimit themselves
  // ---------------------------------------------------------------------------------------

  /** No buffer holds two different values of one type at one place. */
  lemma OneBufferOneValue(e: Endian, lang: Lang, list: seq<Member>, a: seq<Field>, b: seq<Field>, buf: seq<byte>, pos: nat)
    requires Inhabited(list)
    requires Typed(list, a) && Measured(lang, false, false, list, a) && Holds(buf, pos, Encode(e, list, a, pos))
    requires Typed(list, b) && Measured(lang, false, false, list, b) && Holds(buf, pos, Encode(e, list, b, pos))
    ensures a == b
  {
    MessageReadBack(e, lang, list, a, buf, pos);
    MessageReadBack(e, lang, list, b, buf, pos);
  }

  /** No encoding is a proper prefix of another of the same type. */
  lemma EncodingDelimitsItself(e: Endian, lang: Lang, list: seq<Member>, a: seq<Field>, b: seq<Field>, pos: nat)
    requires Inhabited(list)
    requires Typed(list, a) && Measured(lang, false, false, list, a)
    requires Typed(list, b) && Measured(lang, false, false, list, b)
    requires Encode(e, list, a, pos) <= Encode(e, list, b, pos)
    ensures a == b
  {
    var ca, cb := Encode(e, list, a, pos), Encode(e, list, b, pos);
    var buf := Zeros(pos) + Fill(cb);
    hide Encode;
    assert forall i :: 0 <= i < |cb| ==> buf[pos + i] == Fill(cb)[i];
    assert forall i :: 0 <= i < |ca| ==> ca[i] == cb[i];
    OneBufferOneValue(e, lang, list, a, b, buf, pos);
  }

  // ---------------------------------------------------------------------------------------
  // The key fields alone
  // ---------------------------------------------------------------------------------------

  function KeyMember(m: Member): Member
    decreases m
  {
    match m.ty
    case Nested(ms) => m.(ty := Nested(Members(KeyList(ms.hasAnyKeyMember, ms.list), false)))
    case _ => m
  }

  /** The members a key walk visits. */
  function KeyList(hasKey: bool, list: seq<Member>): seq<Member>
    decreases list
  {
    if list == [] then []
    else (if list[0].SkippedInKey(hasKey) then [] else [KeyMember(list[0])]) + KeyList(hasKey, list[1..])
  }

  function KeyElement(ty: MemberType, v: Element): Element
    decreases ty, 0, 0
  {
    if ty.Nested? && v.Record? then Record(KeyFields(ty.members.hasAnyKeyMember, ty.members.list, v.fields)) else v
  }

  function KeyElements(ty: MemberType, f: Field): (r: Field)
    ensures |r| == |f|
    decreases ty, 1, |f|
  {
    if f == [] then [] else [KeyElement(ty, f[0])] + KeyElements(ty, f[1..])
  }

  function KeyField(m: Member, f: Field): (r: Field)
    ensures |r| == |f|
    decreases m
  {
    KeyElements(m.ty, f)
  }

  /** The key of a value: its key fields, at every level. */
  function KeyFields(hasKey: bool, list: seq<Member>, fields: seq<Field>): seq<Field>
    decreases list
  {
    if list == [] || fields == [] then []
    else (if list[0].SkippedInKey(hasKey) then [] else [KeyField(list[0], fields[0])]) + KeyFields(hasKey, list[1..], fields[1..])
  }

  lemma {:induction false} KeyElementEncoding(e: Endian, m: Member, v: Element, pos: nat)
    ensures EncodeElement(e, true, m.ty, v, pos) == EncodeElement(e, false, KeyMember(m).ty, KeyElement(m.ty, v), pos)
    decreases m, 0, 0
  {
    if m.ty.Nested? && v.Record? {
      KeyEncoding(e, m.ty.members.hasAnyKeyMember, m.ty.members.list, v.fields, pos);
    }
  }

  lemma {:induction false} KeyElementsEncoding(e: Endian, m: Member, f: Field, pos: nat)
    ensures EncodeElements(e, true, m.ty, f, pos) == EncodeElements(e, false, KeyMember(m).ty, KeyElements(m.ty, f), pos)
    decreases m, 1, |f|
  {
    hide EncodeElement, KeyMember, KeyElement;
    if f != [] {
      KeyElementEncoding(e, m, f[0], pos);
      KeyElementsEncoding(e, m, f[1..], pos + |EncodeElement(e, true, m.ty, f[0], pos)|);
      assert KeyElements(m.ty, f)[1..] == KeyElements(m.ty, f[1..]);
    }
  }

  lemma KeyFieldEncoding(e: Endian, m: Member, f: Field, pos: nat)
    ensures EncodeField(e, true, m, f, pos) == EncodeField(e, false, KeyMember(m), KeyField(m, f), pos)
    decreases m, 2, 0
  {
    hide EncodeElements, KeyElements, WordCells;
    var c := if m.IsSequence() then WordCells(e, |f|, pos) else [];
    KeyElementsEncoding(e, m, f, pos + |c|);
  }

  lemma EncodeCons(e: Endian, m: Member, f: Field, list: seq<Member>, fields: seq<Field>, pos: nat)
    ensures Encode(e, [m] + list, [f] + fields, pos)
         == EncodeField(e, false, m, f, pos) + Encode(e, list, fields, pos + |EncodeField(e, false, m, f, pos)|)
  {
    hide EncodeField;
    assert ([m] + list)[1..] == list && ([f] + fields)[1..] == fields;
  }

  /** One member of a key walk. */
  lemma EncodeKeyStep(e: Endian, hasKey: bool, list: seq<Member>, fields: seq<Field>, pos: nat)
    requires list != [] && fields != []
    ensures list[0].SkippedInKey(hasKey) ==>
      EncodeFields(e, true, hasKey, list, fields, pos) == EncodeFields(e, true, hasKey, list[1..], fields[1..], pos)
    ensures !list[0].SkippedInKey(hasKey) ==>
      var c := EncodeField(e, true, list[0], fields[0], pos);
      EncodeFields(e, true, hasKey, list, fields, pos) == c + EncodeFields(e, true, hasKey, list[1..], fields[1..], pos + |c|)
  {
    hide EncodeField;
    if list[0].SkippedInKey(hasKey) {
      Nothing(EncodeFields(e, true, hasKey, list[1..], fields[1..], pos));
    }
  }

  lemma Nothing(cells: seq<Cell>)
    ensures [] + cells == cells
  {
  }

  lemma KeyStep(hasKey: bool, list: seq<Member>, fields: seq<Field>)
    requires list != [] && fields != []
    ensures list[0].SkippedInKey(hasKey) ==>
      && KeyList(hasKey, list) == KeyList(hasKey, list[1..])
      && KeyFields(hasKey, list, fields) == KeyFields(hasKey, list[1..], fields[1..])
    ensures !list[0].SkippedInKey(hasKey) ==>
      && KeyList(hasKey, list) == [KeyMember(list[0])] + KeyList(hasKey, list[1..])
      && KeyFields(hasKey, list, fields) == [KeyField(list[0], fields[0])] + KeyFields(hasKey, list[1..], fields[1..])
  {
    hide KeyMember, KeyField;
  }

  /** The key walk writes the plain encoding of the key. */
  lemma {:induction false} KeyEncoding(e: Endian, hasKey: bool, list: seq<Member>, fields: seq<Field>, pos: nat)
    ensures EncodeFields(e, true, hasKey, list, fields, pos) == Encode(e, KeyList(hasKey, list), KeyFields(hasKey, list, fields), pos)
    decreases list
  {
    if list != [] && fields != [] {
      hide *;
      KeyStep(hasKey, list, fields);
      EncodeKeyStep(e, hasKey, list, fields, pos);
      if list[0].SkippedInKey(hasKey) {
        KeyEncoding(e, hasKey, list[1..], fields[1..], pos);
      } else {
        var c := EncodeField(e, true, list[0], fields[0], pos);
        KeyFieldEncoding(e, list[0], fields[0], pos);
        KeyEncoding(e, hasKey, list[1..], fields[1..], pos + |c|);
        EncodeCons(e, KeyMember(list[0]), KeyField(list[0], fields[0]), KeyList(hasKey, list[1..]), KeyFields(hasKey, list[1..], fields[1..]), pos);
      }
    }
  }

  lemma {:induction false} KeyElementTyped(lang: Lang, m: Member, v: Element)
    requires TypedElement(m.ty, v)
    ensures TypedElement(KeyMember(m).ty, KeyElement(m.ty, v))
    ensures MeasuredElement(lang, true, m.ty, v) ==> MeasuredElement(lang, false, KeyMember(m).ty, KeyElement(m.ty, v))
    decreases m, 0, 0
  {
    if m.ty.Nested? {
      KeyFieldsTyped(lang, m.ty.members.hasAnyKeyMember, m.ty.members.list, v.fields);
    }
  }

  lemma {:induction false} KeyElementsTyped(lang: Lang, m: Member, f: Field)
    requires TypedElements(m.ty, f)
    ensures TypedElements(KeyMember(m).ty, KeyElements(m.ty, f))
    ensures MeasuredElements(lang, true, m.ty, f) ==> MeasuredElements(lang, false, KeyMember(m).ty, KeyElements(m.ty, f))
    decreases m, 1, |f|
  {
    hide TypedElement, MeasuredElement, KeyMember, KeyElement;
    if f != [] {
      KeyElementTyped(lang, m, f[0]);
      KeyElementsTyped(lang, m, f[1..]);
      assert KeyElements(m.ty, f)[1..] == KeyElements(m.ty, f[1..]);
    }
  }

  lemma {:induction false} KeyFieldTyped(lang: Lang, m: Member, f: Field)
    requires TypedField(m, f)
    ensures TypedField(KeyMember(m), KeyField(m, f))
    ensures MeasuredField(lang, true, m, f) ==> MeasuredField(lang, false, KeyMember(m), KeyField(m, f))
    decreases m, 2, 0
  {
    hide KeyFields, KeyList, Typed, Measured;
    KeyElementsTyped(lang, m, f);
    NoNullInKey(m.ty, f);
  }

  lemma {:induction false} NoNullInKey(ty: MemberType, f: Field)
    ensures NullChars !in f ==> NullChars !in KeyElements(ty, f)
    decreases |f|
  {
    if f != [] {
      NoNullInKey(ty, f[1..]);
    }
  }

  /** The key of a value is a value of the key's own type. */
  lemma {:induction false} KeyFieldsTyped(lang: Lang, hasKey: bool, list: seq<Member>, fields: seq<Field>)
    requires Typed(list, fields)
    ensures Typed(KeyList(hasKey, list), KeyFields(hasKey, list, fields))
    ensures Measured(lang, true, hasKey, list, fields) ==> Measured(lang, false, false, KeyList(hasKey, list), KeyFields(hasKey, list, fields))
    decreases list
  {
    hide TypedField, MeasuredField, KeyMember, KeyField;
    if list != [] {
      KeyFieldsTyped(lang, hasKey, list[1..], fields[1..]);
      if list[0].SkippedInKey(hasKey) {
        assert KeyList(hasKey, list) == KeyList(hasKey, list[1..]);
        assert KeyFields(hasKey, list, fields) == KeyFields(hasKey, list[1..], fields[1..]);
      } else {
        KeyFieldTyped(lang, list[0], fields[0]);
        assert KeyList(hasKey, list)[1..] == KeyList(hasKey, list[1..]);
        assert KeyFields(hasKey, list, fields)[1..] == KeyFields(hasKey, list[1..], fields[1..]);
      }
    }
  }

  // ---------------------------------------------------------------------------------------
  // Which members make the key
  // ---------------------------------------------------------------------------------------

  /** The places of the members that are annotated, in order. */
  function Annotated(list: seq<Member>, from: nat): (places: seq<nat>)
    requires from <= |list|
    ensures forall k :: 0 <= k < |places| ==> from <= places[k] < |list|
    decreases |list| - from
  {
    if from == |list| then []
    else (if list[from].isKey then [from] else []) + Annotated(list, from + 1)
  }

  /** The annotated places, */
  lemma {:induction false} AnnotatedAre(list: seq<Member>, from: nat, i: nat)
    requires from <= i < |list|
    ensures list[i].isKey <==> i in Annotated(list, from)
    decreases |list| - from
  {
    var rest := Annotated(list, from + 1);
    assert Annotated(list, from) == (if list[from].isKey then [from] else []) + rest;
    hide Annotated;
    if from < i {
      AnnotatedAre(list, from + 1, i);
    }
  }

  /** each once and rising. */
  lemma {:induction false} AnnotatedRise(list: seq<Member>, from: nat, j: nat, k: nat)
    requires from <= |list| && j < k < |Annotated(list, from)|
    ensures Annotated(list, from)[j] < Annotated(list, from)[k]
    decreases |list| - from
  {
    var rest := Annotated(list, from + 1);
    if !list[from].isKey {
      assert Annotated(list, from) == rest;
      AnnotatedRise(list, from + 1, j, k);
    } else if j > 0 {
      assert Annotated(list, from)[j] == rest[j - 1] && Annotated(list, from)[k] == rest[k - 1];
      AnnotatedRise(list, from + 1, j - 1, k - 1);
    }
  }

  /** Of a type with annotated members exactly those make the key, in their order. */
  lemma {:induction false} KeyOfAnnotated(list: seq<Member>, fields: seq<Field>, from: nat)
    requires from <= |list| == |fields|
    ensures var places := Annotated(list, from);
      KeyFields(true, list[from..], fields[from..]) == seq(|places|, k requires 0 <= k < |places| => KeyField(list[places[k]], fields[places[k]]))
    decreases |list| - from
  {
    if from < |list| {
      KeyOfAnnotated(list, fields, from + 1);
      assert list[from..][1..] == list[from + 1..] && fields[from..][1..] == fields[from + 1..];
    }
  }

  /** And so on within a nested type that has annotated members. */
  lemma {:induction false} KeyWithin(ms: Members, f: Field, j: nat)
    requires j < |f| && f[j].Record? && ms.hasAnyKeyMember
    ensures KeyElements(Nested(ms), f)[j] == Record(KeyFields(true, ms.list, f[j].fields))
    decreases j
  {
    hide KeyFields;
    if j > 0 {
      KeyWithin(ms, f[1..], j - 1);
    }
  }

  predicate WholeMember(m: Member)
    decreases m
  {
    m.ty.Nested? ==> !m.ty.members.hasAnyKeyMember && WholeList(m.ty.members.list)
  }

  /** No nested type has a key annotation. */
  predicate WholeList(list: seq<Member>)
    decreases list
  {
    list != [] ==> WholeMember(list[0]) && WholeList(list[1..])
  }

  lemma {:induction false} WholeElements(m: Member, f: Field)
    requires WholeMember(m) && TypedElements(m.ty, f)
    ensures KeyElements(m.ty, f) == f
    decreases m, 0, |f|
  {
    if f != [] {
      if m.ty.Nested? {
        assert TypedElement(m.ty, f[0]);
        WholeKey(m.ty.members.list, f[0].fields);
      }
      WholeElements(m, f[1..]);
      assert f == [f[0]] + f[1..];
    }
  }

  lemma {:induction false} WholeField(m: Member, f: Field)
    requires WholeMember(m) && TypedField(m, f)
    ensures KeyField(m, f) == f
    decreases m, 1, 0
  {
    WholeElements(m, f);
  }

  /** A type without annotations at any level is its own key. */
  lemma {:induction false} WholeKey(list: seq<Member>, fields: seq<Field>)
    requires WholeList(list) && Typed(list, fields)
    ensures KeyFields(false, list, fields) == fields
    decreases list
  {
    if list != [] {
      WholeField(list[0], fields[0]);
      hide KeyField, WholeMember, TypedField;
      WholeKey(list[1..], fields[1..]);
      assert fields == [fields[0]] + fields[1..];
    }
  }

  lemma {:induction false} WholeElementWritten(e: Endian, m: Member, v: Element, pos: nat)
    requires WholeMember(m)
    ensures EncodeElement(e, true, m.ty, v, pos) == EncodeElement(e, false, m.ty, v, pos)
    decreases m, 0, 0
  {
    if m.ty.Nested? && v.Record? {
      WholeWritten(e, m.ty.members.list, v.fields, pos);
    }
  }

  lemma {:induction false} WholeElementsWritten(e: Endian, m: Member, f: Field, pos: nat)
    requires WholeMember(m)
    ensures EncodeElements(e, true, m.ty, f, pos) == EncodeElements(e, false, m.ty, f, pos)
    decreases m, 1, |f|
  {
    hide EncodeElement, WholeMember;
    if f != [] {
      WholeElementWritten(e, m, f[0], pos);
      WholeElementsWritten(e, m, f[1..], pos + |EncodeElement(e, true, m.ty, f[0], pos)|);
    }
  }

  lemma {:induction false} WholeFieldWritten(e: Endian, m: Member, f: Field, pos: nat)
    requires WholeMember(m)
    ensures EncodeField(e, true, m, f, pos) == EncodeField(e, false, m, f, pos)
    decreases m, 2, 0
  {
    hide EncodeElements, WordCells;
    WholeElementsWritten(e, m, f, pos + |if m.IsSequence() then WordCells(e, |f|, pos) else []|);
  }

  /** And its key walk writes all of it. */
  lemma {:induction false} WholeWritten(e: Endian, list: seq<Member>, fields: seq<Field>, pos: nat)
    requires WholeList(list)
    ensures EncodeFields(e, true, false, list, fields, pos) == EncodeFields(e, false, false, list, fields, pos)
    decreases list
  {
    hide EncodeField, WholeMember;
    if list != [] && fields != [] {
      WholeFieldWritten(e, list[0], fields[0], pos);
      WholeWritten(e, list[1..], fields[1..], pos + |EncodeField(e, false, list[0], fields[0], pos)|);
    }
  }

  /**
   A field whose nested types have no annotations counts with all that is in it: values that
   differ in one that is annotated, or in any of a type without annotations, have other keys.
   */
  lemma {:induction false} DifferentKeys(hasKey: bool, list: seq<Member>, a: seq<Field>, b: seq<Field>, i: nat)
    requires Typed(list, a) && Typed(list, b) && i < |list| && a[i] != b[i]
    requires WholeMember(list[i]) && (hasKey ==> list[i].isKey)
    ensures KeyFields(hasKey, list, a) != KeyFields(hasKey, list, b)
    decreases list
  {
    hide WholeMember, KeyField, TypedField;
    KeyStep(hasKey, list, a);
    KeyStep(hasKey, list, b);
    if i == 0 {
      WholeField(list[0], a[0]);
      WholeField(list[0], b[0]);
      assert KeyFields(hasKey, list, a)[0] != KeyFields(hasKey, list, b)[0];
    } else {
      DifferentKeys(hasKey, list[1..], a[1..], b[1..], i - 1);
      DifferentTails(KeyField(list[0], a[0]), KeyFields(hasKey, list[1..], a[1..]), KeyField(list[0], b[0]), KeyFields(hasKey, list[1..], b[1..]));
    }
  }

  lemma DifferentTails<T>(x: T, s: seq<T>, y: T, t: seq<T>)
    requires s != t
    ensures [x] + s != [y] + t
  {
    assert ([x] + s)[1..] == s && ([y] + t)[1..] == t;
  }

  // ---------------------------------------------------------------------------------------
  // Keys of fixed layout
  // ---------------------------------------------------------------------------------------

  ghost predicate SameShape(x: seq<Cell>, y: seq<Cell>)
  {
    |x| == |y| && forall i :: 0 <= i < |x| ==> (x[i].Gap? <==> y[i].Gap?)
  }

  lemma SameShapeConcat(x: seq<Cell>, y: seq<Cell>, u: seq<Cell>, v: seq<Cell>)
    requires SameShape(x, u) && SameShape(y, v)
    ensures SameShape(x + y, u + v)
  {
  }

  lemma {:induction false} ElementSameShape(e: Endian, m: Member, v: Element, w: Element, pos: nat)
    requires FlatMember(true, m) && TypedElement(m.ty, v) && TypedElement(m.ty, w)
    ensures SameShape(EncodeElement(e, true, m.ty, v, pos), EncodeElement(e, true, m.ty, w, pos))
    decreases m, 0, 0
  {
    if m.ty.Nested? {
      FieldsSameShape(e, m.ty.members.hasAnyKeyMember, m.ty.members.list, v.fields, w.fields, pos);
    }
  }

  lemma {:induction false} ElementsSameShape(e: Endian, m: Member, f: Field, g: Field, pos: nat)
    requires FlatMember(true, m) && TypedElements(m.ty, f) && TypedElements(m.ty, g) && |f| == |g|
    ensures SameShape(EncodeElements(e, true, m.ty, f, pos), EncodeElements(e, true, m.ty, g, pos))
    decreases m, 1, |f|
  {
    hide EncodeElement, TypedElement, SameShape;
    if f == [] {
      EmptyShape();
    } else {
      var c, d := EncodeElement(e, true, m.ty, f[0], pos), EncodeElement(e, true, m.ty, g[0], pos);
      ElementSameShape(e, m, f[0], g[0], pos);
      ShapeLength(c, d);
      ElementsSameShape(e, m, f[1..], g[1..], pos + |c|);
      SameShapeConcat(c, EncodeElements(e, true, m.ty, f[1..], pos + |c|), d, EncodeElements(e, true, m.ty, g[1..], pos + |d|));
    }
  }

  lemma ShapeLength(x: seq<Cell>, y: seq<Cell>)
    requires SameShape(x, y)
    ensures |x| == |y|
  {
  }

  /** With neither strings nor sequences, position and padding do not depend on the value. */
  lemma {:induction false} FieldsSameShape(e: Endian, hasKey: bool, list: seq<Member>, a: seq<Field>, b: seq<Field>, pos: nat)
    requires Flat(true, hasKey, list) && Typed(list, a) && Typed(list, b)
    ensures SameShape(EncodeFields(e, true, hasKey, list, a, pos), EncodeFields(e, true, hasKey, list, b, pos))
    decreases list
  {
    hide SameShape, EncodeField, TypedField, FlatMember;
    if list == [] {
      EmptyShape();
    } else {
      EncodeKeyStep(e, hasKey, list, a, pos);
      EncodeKeyStep(e, hasKey, list, b, pos);
      hide EncodeFields;
      if list[0].SkippedInKey(hasKey) {
        FieldsSameShape(e, hasKey, list[1..], a[1..], b[1..], pos);
      } else {
        var c, d := EncodeField(e, true, list[0], a[0], pos), EncodeField(e, true, list[0], b[0], pos);
        FieldSameShape(e, list[0], a[0], b[0], pos);
        ShapeLength(c, d);
        FieldsSameShape(e, hasKey, list[1..], a[1..], b[1..], pos + |c|);
        SameShapeConcat(c, EncodeFields(e, true, hasKey, list[1..], a[1..], pos + |c|), d, EncodeFields(e, true, hasKey, list[1..], b[1..], pos + |c|));
      }
    }
  }

  lemma EmptyShape()
    ensures SameShape([], [])
  {
  }

  lemma {:induction false} FieldSameShape(e: Endian, m: Member, f: Field, g: Field, pos: nat)
    requires FlatMember(true, m) && TypedField(m, f) && TypedField(m, g)
    ensures SameShape(EncodeField(e, true, m, f, pos), EncodeField(e, true, m, g, pos))
    decreases m, 2, 0
  {
    ElementsSameShape(e, m, f, g, pos);
  }
}
