/**
 What `is_plain_` promises: that the memory of a message is its serialized body, byte for byte
 and gap for gap. For every fixed-size type in the natural ABI it is decided here when that is
 so, by a condition on the type alone: where the last leaf of one element ends, the next leaf
 must be aligned to its in-memory offset. The flag guarantees it everywhere but behind elements
 with trailing padding.
 */
module PlainLayout {
  import opened Wire
  import opened Schema
  import opened Encoding
  import opened SizeEstimate
  import opened MaxSize

  // ---------------------------------------------------------------------------------------
  // The natural ABI
  // ---------------------------------------------------------------------------------------

  function MemberAlign(m: Member): Width
    decreases m
  {
    match m.ty
    case Number(s) => s.Size()
    case Nested(ms) => TypeAlign(ms.list)
    case _ => 8
  }

  function TypeAlign(list: seq<Member>): (a: Width)
    decreases list
  {
    if list == [] then 1
    else
      var a, b := MemberAlign(list[0]), TypeAlign(list[1..]);
      if a >= b then a else b
  }

  function Repeat(n: nat, size: nat): nat
  {
    if n == 0 then 0 else size + Repeat(n - 1, size)
  }

  function ElementSize(m: Member): nat
    decreases m, 0
  {
    match m.ty
    case Number(s) => s.Size()
    case Nested(ms) => AlignUp(End(ms.list, 0), TypeAlign(ms.list))
    case _ => 8
  }

  function Extent(m: Member): nat
    decreases m, 1
  {
    Repeat(m.Count(), ElementSize(m))
  }

  /** Where members laid out one after the other from `at` end, each aligned on its own. */
  function End(list: seq<Member>, at: nat): (p: nat)
    ensures p >= at
    decreases list
  {
    if list == [] then at
    else End(list[1..], AlignUp(at, MemberAlign(list[0])) + Extent(list[0]))
  }

  predicate NaturalMember(m: Member)
    decreases m
  {
    m.ty.Nested? ==> Natural(m.ty.members.list, 0)
  }

  /** Every `offset_` is the one the natural ABI assigns. */
  predicate Natural(list: seq<Member>, at: nat)
    decreases list
  {
    list != [] ==>
      && list[0].offset == AlignUp(at, MemberAlign(list[0]))
      && NaturalMember(list[0])
      && Natural(list[1..], list[0].offset + Extent(list[0]))
  }

  /** The bytes of a member up to the end of its last leaf, without trailing padding. */
  function Unpadded(m: Member): nat
    decreases m
  {
    if m.ty.Nested? && m.Count() > 0 then Repeat(m.Count() - 1, ElementSize(m)) + LeafEnd(m.ty.members.list)
    else Extent(m)
  }

  /** Where the last leaf of a message ends in its memory. */
  function LeafEnd(list: seq<Member>): nat
    decreases list
  {
    if list == [] then 0
    else if |list| == 1 then list[0].offset + Unpadded(list[0])
    else LeafEnd(list[1..])
  }

  function FirstAlign(m: Member): Width
    decreases m
  {
    match m.ty
    case Number(s) => s.Size()
    case Nested(ms) => if ms.list == [] then 1 else FirstAlign(ms.list[0])
    case _ => 8
  }

  /** A nested message type with trailing padding. */
  predicate Padded(m: Member)
  {
    m.ty.Nested? && LeafEnd(m.ty.members.list) != ElementSize(m)
  }

  predicate AbsorbedMember(everywhere: bool, m: Member)
    decreases m
  {
    m.ty.Nested? ==>
      && (m.Count() > 1 && (everywhere || Padded(m)) ==> AlignUp(LeafEnd(m.ty.members.list), FirstAlign(m)) == ElementSize(m))
      && Absorbed(everywhere, m.ty.members.list)
  }

  /**
   At every nesting level, aligning the end of the last leaf so far for the next leaf gives the
   next leaf's offset, between members and between the elements of an array; or is only asked
   to behind trailing padding.
   */
  predicate Absorbed(everywhere: bool, list: seq<Member>)
    decreases list
  {
    list != [] ==>
      && AbsorbedMember(everywhere, list[0])
      && (|list| > 1 && (everywhere || Padded(list[0])) ==>
            AlignUp(list[0].offset + Unpadded(list[0]), FirstAlign(list[1])) == list[1].offset)
      && Absorbed(everywhere, list[1..])
  }

  predicate EnteredMember(m: Member)
    decreases m
  {
    m.ty.Nested? ==>
      && (m.Count() > 1 ==> LeafEnd(m.ty.members.list) == ElementSize(m))
      && Entered(m.ty.members.list)
  }

  /**
   At every nesting level, the last leaf before a nested element ends where that element may
   begin, so that no padding lies between them.
   */
  predicate Entered(list: seq<Member>)
    decreases list
  {
    list != [] ==>
      && EnteredMember(list[0])
      && (|list| > 1 && list[1].ty.Nested? ==> Aligned(list[0].offset + Unpadded(list[0]), MemberAlign(list[1])))
      && Entered(list[1..])
  }

  predicate TightMember(m: Member)
    decreases m
  {
    m.ty.Nested? ==> !Padded(m) && Tight(m.ty.members.list)
  }

  /** No nested message type has trailing padding. */
  predicate Tight(list: seq<Member>)
    decreases list
  {
    list != [] ==> TightMember(list[0]) && Tight(list[1..])
  }

  // ---------------------------------------------------------------------------------------
  // The memory image of a value
  // ---------------------------------------------------------------------------------------

  function MemoryElement(e: Endian, m: Member, v: Element): seq<Cell>
    decreases m, 0, 0
  {
    match m.ty
    case Number(s) => if v.Bits? then Octets(NumberOctets(e, s.Size(), v.bits)) else []
    case Nested(ms) =>
      if v.Record? then MemoryFields(e, ms.list, v.fields, 0) + Gaps(ElementSize(m) - End(ms.list, 0)) else []
    case _ => []
  }

  function MemoryElements(e: Endian, m: Member, f: Field): seq<Cell>
    decreases m, 1, |f|
  {
    if f == [] then [] else MemoryElement(e, m, f[0]) + MemoryElements(e, m, f[1..])
  }

  /** The members of a message from byte `at` of it on. */
  function MemoryFields(e: Endian, list: seq<Member>, fields: seq<Field>, at: nat): seq<Cell>
    decreases list
  {
    if list == [] || fields == [] then []
    else
      var m := list[0];
      Gaps(if m.offset >= at then m.offset - at else 0)
      + MemoryElements(e, m, fields[0])
      + MemoryFields(e, list[1..], fields[1..], m.offset + Extent(m))
  }

  /** Every octet of the image is written at its own offset, and nothing else is. */
  ghost predicate InPlace(cells: seq<Cell>, image: seq<Cell>)
  {
    |cells| <= |image| && image == cells + Gaps(|image| - |cells|)
  }

  // ---------------------------------------------------------------------------------------
  // Layout arithmetic
  // ---------------------------------------------------------------------------------------

  lemma {:induction false} RepeatAligned(n: nat, size: nat, a: Width)
    requires Aligned(size, a)
    ensures Aligned(Repeat(n, size), a)
  {
    if n > 0 {
      RepeatAligned(n - 1, size, a);
      AlignedSum(Repeat(n - 1, size), size, a);
    }
  }

  lemma AlignedSum(x: nat, y: nat, a: Width)
    requires Aligned(y, a)
    ensures Aligned(x + y, a) <==> Aligned(x, a)
  {
  }

  lemma AlignedCoarser(x: nat, a: Width, b: Width)
    requires a <= b && Aligned(x, b)
    ensures Aligned(x, a)
  {
  }

  lemma ExtentAligned(m: Member)
    ensures Aligned(Extent(m), MemberAlign(m))
  {
    RepeatAligned(m.Count(), ElementSize(m), MemberAlign(m));
  }

  lemma FirstAtStart(list: seq<Member>)
    requires list != [] && Natural(list, 0)
    ensures AlignUp(0, MemberAlign(list[0])) == list[0].offset == 0
  {
  }

  lemma AlignUpStep(p: nat, q: nat, a: Width)
    requires q <= p
    ensures AlignUp(q, a) <= AlignUp(p, a)
    ensures Aligned(AlignUp(p, a) - AlignUp(q, a), a)
  {
    AlignUpMonotone(q, p, a);
    AlignedSum(AlignUp(p, a) - AlignUp(q, a), AlignUp(q, a), a);
  }

  lemma AlignUpTwice(x: nat, a: Width, b: Width)
    requires a <= b
    ensures AlignUp(AlignUp(x, a), b) == AlignUp(x, b)
  {
    AlignedCoarser(AlignUp(x, b), a, b);
    AlignUpLeast(x, a, AlignUp(x, b));
    AlignUpLeast(AlignUp(x, a), b, AlignUp(x, b));
    AlignUpLeast(x, b, AlignUp(AlignUp(x, a), b));
  }

  lemma {:induction false} FirstAlignIsLess(m: Member)
    ensures FirstAlign(m) <= MemberAlign(m)
    decreases m
  {
    if m.ty.Nested? && m.ty.members.list != [] {
      FirstAlignIsLess(m.ty.members.list[0]);
    }
  }

  // ---------------------------------------------------------------------------------------
  // Trailing padding
  // ---------------------------------------------------------------------------------------

  /** What a flat description in the natural ABI lets us say about one of its members. */
  ghost predicate Placed(m: Member)
  {
    FlatMember(false, m) && NaturalMember(m) && InhabitedMember(m)
  }

  ghost predicate AllPlaced(list: seq<Member>)
  {
    list != [] ==> Placed(list[0]) && AllPlaced(list[1..])
  }

  lemma {:induction false} AllPlacedFrom(list: seq<Member>, hasKey: bool, at: nat)
    requires Flat(false, hasKey, list) && Natural(list, at) && Inhabited(list)
    ensures AllPlaced(list)
    decreases list
  {
    if list != [] {
      AllPlacedFrom(list[1..], hasKey, list[0].offset + Extent(list[0]));
    }
  }

  /** The same about the members of a nested type. */
  lemma NestedPlaced(m: Member)
    requires Placed(m) && m.ty.Nested?
    ensures m.Count() > 0 && m.ty.members.list != []
    ensures AllPlaced(m.ty.members.list) && Natural(m.ty.members.list, 0)
  {
    AllPlacedFrom(m.ty.members.list, m.ty.members.hasAnyKeyMember, 0);
  }

  lemma NumberPlaced(m: Member)
    requires Placed(m) && !m.ty.Nested?
    ensures m.ty.Number? && m.Count() > 0
    ensures FirstAlign(m) == MemberAlign(m) == m.ty.scalar.Size() == ElementSize(m)
    ensures Unpadded(m) == Extent(m) == Repeat(m.Count(), m.ty.scalar.Size()) > 0
  {
  }

  /** The padding of a member brings its last leaf's end up to the member's alignment. */
  lemma {:induction false} PaddingAligns(m: Member)
    requires Placed(m)
    ensures AlignUp(Unpadded(m), MemberAlign(m)) == Extent(m)
    ensures m.ty.Nested? ==> ElementSize(m) == AlignUp(LeafEnd(m.ty.members.list), TypeAlign(m.ty.members.list))
    decreases m, 0
  {
    ExtentAligned(m);
    hide AlignUp, Aligned;
    if m.ty.Nested? {
      NestedPlaced(m);
      hide Placed, LeafEnd, End;
      var list, before := m.ty.members.list, Repeat(m.Count() - 1, ElementSize(m));
      EndPadded(list, 0, TypeAlign(list));
      RepeatAligned(m.Count() - 1, ElementSize(m), TypeAlign(list));
      AlignUpShift(LeafEnd(list), before, TypeAlign(list));
    } else {
      NumberPlaced(m);
    }
  }

  lemma {:induction false} EndPadded(list: seq<Member>, at: nat, b: Width)
    requires list != [] && AllPlaced(list) && Natural(list, at) && TypeAlign(list) <= b
    ensures AlignUp(LeafEnd(list), b) == AlignUp(End(list, at), b)
    decreases list, 1
  {
    hide Placed, AlignUp, Aligned, Extent, NaturalMember, Unpadded;
    var m := list[0];
    if |list| == 1 {
      assert End(list, at) == m.offset + Extent(m) by {
        assert End(list[1..], m.offset + Extent(m)) == m.offset + Extent(m);
      }
      PaddingAligns(m);
      AlignUpShift(Unpadded(m), m.offset, MemberAlign(m));
      AlignUpTwice(m.offset + Unpadded(m), MemberAlign(m), b);
    } else {
      EndPadded(list[1..], m.offset + Extent(m), b);
    }
  }

  lemma {:induction false} UnpaddedPositive(m: Member)
    requires Placed(m)
    ensures Unpadded(m) > 0
    decreases m
  {
    if m.ty.Nested? {
      NestedPlaced(m);
      hide Placed, ElementSize;
      LeafEndPositive(m.ty.members.list);
    } else {
      NumberPlaced(m);
    }
  }

  lemma {:induction false} LeafEndPositive(list: seq<Member>)
    requires list != [] && AllPlaced(list)
    ensures LeafEnd(list) > 0
    decreases list
  {
    hide Placed, Unpadded;
    if |list| == 1 {
      UnpaddedPositive(list[0]);
    } else {
      LeafEndPositive(list[1..]);
    }
  }

  // ---------------------------------------------------------------------------------------
  // Octets and gaps
  // ---------------------------------------------------------------------------------------

  /** What is written, without the gaps. */
  function Bare(cells: seq<Cell>): seq<byte>
  {
    if cells == [] then [] else (if cells[0].Octet? then [cells[0].b] else []) + Bare(cells[1..])
  }

  lemma {:induction false} BareAppend(x: seq<Cell>, y: seq<Cell>)
    ensures Bare(x + y) == Bare(x) + Bare(y)
  {
    if x == [] {
      assert x + y == y;
    } else {
      var first := if x[0].Octet? then [x[0].b] else [];
      assert (x + y)[1..] == x[1..] + y;
      assert Bare(x + y) == first + Bare(x[1..] + y) && Bare(x) == first + Bare(x[1..]);
      hide Bare;
      BareAppend(x[1..], y);
      assert first + (Bare(x[1..]) + Bare(y)) == first + Bare(x[1..]) + Bare(y);
    }
  }

  lemma {:induction false} BareGaps(n: nat)
    ensures Bare(Gaps(n)) == []
  {
    if n > 0 {
      assert Gaps(n)[1..] == Gaps(n - 1);
      BareGaps(n - 1);
    }
  }

  lemma {:induction false} OnlyGaps(cells: seq<Cell>)
    requires Bare(cells) == []
    ensures cells == Gaps(|cells|)
  {
    if cells != [] {
      OnlyGaps(cells[1..]);
      assert cells == [Gap] + Gaps(|cells| - 1) == Gaps(|cells|);
    }
  }

  /** The same octets in the same order, and the first of the two ends with the last. */
  ghost predicate SameLeaves(cells: seq<Cell>, image: seq<Cell>)
  {
    Bare(cells) == Bare(image) && cells != [] && cells[|cells| - 1].Octet?
  }

  lemma SameLeavesJoin(x: seq<Cell>, a: seq<Cell>, y: seq<Cell>, b: seq<Cell>)
    requires SameLeaves(x, a) && SameLeaves(y, b)
    ensures SameLeaves(x + y, a + b)
  {
    BareAppend(x, y);
    BareAppend(a, b);
  }

  /** A part, and what follows it, if anything does. */
  lemma SameLeavesCons(cells: seq<Cell>, image: seq<Cell>, x: seq<Cell>, a: seq<Cell>, y: seq<Cell>, b: seq<Cell>)
    requires cells == x + y && image == a + b && SameLeaves(x, a)
    requires SameLeaves(y, b) || (y == [] && b == [])
    ensures SameLeaves(cells, image)
  {
    if SameLeaves(y, b) {
      SameLeavesJoin(x, a, y, b);
    } else {
      assert x + y == x && a + b == a;
    }
  }

  lemma SameLeavesPadded(x: seq<Cell>, a: seq<Cell>, n: nat)
    requires SameLeaves(x, a)
    ensures SameLeaves(x, Gaps(n) + a) && SameLeaves(x, a + Gaps(n))
  {
    BareAppend(Gaps(n), a);
    BareAppend(a, Gaps(n));
    BareGaps(n);
  }

  lemma LastIsBare(x: seq<Cell>)
    requires x != [] && x[|x| - 1].Octet?
    ensures Bare(x) != []
  {
    var n := |x| - 1;
    assert x == x[..n] + [x[n]];
    BareAppend(x[..n], [x[n]]);
  }

  /** With the same octets in it, what begins the image is in place up to its last octet. */
  lemma CutAtLastOctet(x: seq<Cell>, y: seq<Cell>, a: seq<Cell>, n: seq<Cell>)
    requires SameLeaves(x, a) && x + y == a + n
    ensures InPlace(x, a)
  {
    if |a| < |x| {
      var over := x[|a|..];
      assert a == (a + n)[..|a|] == x[..|a|];
      assert x == a + over;
      BareAppend(a, over);
      LastIsBare(over);
    } else {
      var over := a[|x|..];
      assert x == (x + y)[..|x|] == a[..|x|];
      assert a == x + over;
      BareAppend(x, over);
      OnlyGaps(over);
    }
  }

  lemma CancelFront(x: seq<Cell>, y: seq<Cell>, z: seq<Cell>)
    requires x + y == x + z
    ensures y == z
  {
    assert (x + y)[|x|..] == y && (x + z)[|x|..] == z;
  }

  lemma BothInPlace(x: seq<Cell>, a: seq<Cell>, y: seq<Cell>, b: seq<Cell>)
    requires InPlace(x, a) && InPlace(y, Gaps(|a| - |x|) + b)
    ensures InPlace(x + y, a + b)
  {
    assert a + b == x + (Gaps(|a| - |x|) + b);
    assert x + (y + Gaps(|a + b| - |x + y|)) == x + y + Gaps(|a + b| - |x + y|);
  }

  /** One part after the other is in place exactly when each of them is. */
  lemma InPlaceJoin(x: seq<Cell>, a: seq<Cell>, y: seq<Cell>, b: seq<Cell>)
    requires SameLeaves(x, a)
    ensures InPlace(x + y, a + b) <==> InPlace(x, a) && InPlace(y, Gaps(|a| - |x|) + b)
  {
    if InPlace(x, a) && InPlace(y, Gaps(|a| - |x|) + b) {
      BothInPlace(x, a, y, b);
    }
    if InPlace(x + y, a + b) {
      var rest := y + Gaps(|a + b| - |x + y|);
      assert x + rest == a + b;
      CutAtLastOctet(x, rest, a, b);
      assert x + (Gaps(|a| - |x|) + b) == a + b;
      CancelFront(x, rest, Gaps(|a| - |x|) + b);
    }
  }

  lemma InPlaceTrailing(x: seq<Cell>, a: seq<Cell>, n: nat)
    requires SameLeaves(x, a)
    ensures InPlace(x, a + Gaps(n)) <==> InPlace(x, a)
  {
    InPlaceJoin(x, a, [], Gaps(n));
    assert x + [] == x;
    assert |a| >= |x| ==> [] + Gaps(|a| - |x| + n) == Gaps(|a| - |x|) + Gaps(n);
  }

  /** The first octet is in place exactly when there is as much padding before it. */
  lemma InPlaceFirst(g: nat, h: nat, octets: seq<Cell>)
    requires octets != [] && octets[0].Octet?
    ensures InPlace(Gaps(g) + octets, Gaps(h) + octets) <==> g == h
  {
    var x, a := Gaps(g) + octets, Gaps(h) + octets;
    if g == h {
      assert a == x + Gaps(0);
    }
    if InPlace(x, a) {
      assert a[g] == x[g] == octets[0];
    }
  }

  lemma GapsJoin(g: nat, h: nat, cells: seq<Cell>)
    ensures Gaps(g) + (Gaps(h) + cells) == Gaps(g + h) + cells
  {
  }

  lemma {:induction false} RepeatIsAfterNumbers(w: Width, n: nat)
    ensures AfterNumbers(w, n, 0) == Repeat(n, w)
    ensures forall pos: nat :: AfterNumbers(w, n, pos) == AlignUp(pos, w) + Repeat(n, w)
    decreases n
  {
    if n > 0 {
      RepeatIsAfterNumbers(w, n - 1);
    }
  }

  lemma AlignedWidth(w: Width)
    ensures Aligned(w, w)
  {
  }

  lemma AlignedNumberImage(e: Endian, m: Member, v: Element, c: nat)
    requires m.ty.Number? && TypedElement(m.ty, v) && Aligned(c, m.ty.scalar.Size())
    ensures EncodeElement(e, false, m.ty, v, c) == MemoryElement(e, m, v)
    ensures |MemoryElement(e, m, v)| == m.ty.scalar.Size()
  {
    hide Aligned, NumberOctets, Octets;
    var bytes := Octets(NumberOctets(e, m.ty.scalar.Size(), v.bits));
    assert AlignUp(c, m.ty.scalar.Size()) == c;
    assert Gaps(0) + bytes == bytes;
  }

  lemma {:induction false} AlignedNumbersImage(e: Endian, m: Member, f: Field, c: nat)
    requires m.ty.Number? && TypedElements(m.ty, f) && Aligned(c, m.ty.scalar.Size())
    ensures EncodeElements(e, false, m.ty, f, c) == MemoryElements(e, m, f)
    decreases |f|
  {
    if f != [] {
      var w := m.ty.scalar.Size();
      AlignedNumberImage(e, m, f[0], c);
      AlignedWidth(w);
      AlignedSum(c, w, w);
      hide AlignUp, Aligned, EncodeElement, MemoryElement, TypedElement;
      AlignedNumbersImage(e, m, f[1..], c + w);
    }
  }

  lemma NumberImage(e: Endian, m: Member, v: Element, c: nat)
    requires m.ty.Number? && TypedElement(m.ty, v)
    ensures EncodeElement(e, false, m.ty, v, c) == Gaps(AlignUp(c, m.ty.scalar.Size()) - c) + MemoryElement(e, m, v)
    ensures c + |EncodeElement(e, false, m.ty, v, c)| == AlignUp(c, m.ty.scalar.Size()) + m.ty.scalar.Size()
  {
  }

  lemma PaddingInFront(whole: seq<Cell>, first: seq<Cell>, rest: seq<Cell>, padding: seq<Cell>, head: seq<Cell>, image: seq<Cell>)
    requires whole == first + rest && first == padding + head && image == head + rest
    ensures whole == padding + image
  {
  }

  lemma ElementsCons(e: Endian, m: Member, f: Field, c: nat)
    requires f != []
    ensures var first := EncodeElement(e, false, m.ty, f[0], c);
      EncodeElements(e, false, m.ty, f, c) == first + EncodeElements(e, false, m.ty, f[1..], c + |first|)
    ensures MemoryElements(e, m, f) == MemoryElement(e, m, f[0]) + MemoryElements(e, m, f[1..])
  {
    hide EncodeElement, MemoryElement;
  }

  /** A row of numbers: padding, then the octets of its items. */
  lemma NumbersImage(e: Endian, m: Member, f: Field, c: nat)
    requires m.ty.Number? && TypedElements(m.ty, f) && f != []
    ensures EncodeElements(e, false, m.ty, f, c) == Gaps(AlignUp(c, m.ty.scalar.Size()) - c) + MemoryElements(e, m, f)
  {
    hide AlignUp, Aligned, EncodeElement, EncodeElements, MemoryElement, MemoryElements, TypedElement, Gaps;
    var w := m.ty.scalar.Size();
    var p := AlignUp(c, w);
    NumberImage(e, m, f[0], c);
    AlignedWidth(w);
    AlignedSum(p, w, w);
    AlignedNumbersImage(e, m, f[1..], p + w);
    ElementsCons(e, m, f, c);
    PaddingInFront(EncodeElements(e, false, m.ty, f, c), EncodeElement(e, false, m.ty, f[0], c), MemoryElements(e, m, f[1..]),
                   Gaps(p - c), MemoryElement(e, m, f[0]), MemoryElements(e, m, f));
  }

  // ---------------------------------------------------------------------------------------
  // The two forms of a value hold the same leaves
  // ---------------------------------------------------------------------------------------

  lemma {:induction false} MemoryElementLength(e: Endian, m: Member, v: Element)
    requires Placed(m) && TypedElement(m.ty, v)
    ensures |MemoryElement(e, m, v)| == ElementSize(m)
    decreases m, 0, 0
  {
    if m.ty.Nested? {
      NestedPlaced(m);
      MemoryFieldsLength(e, m.ty.members.list, v.fields, 0);
    }
  }

  lemma {:induction false} MemoryElementsLength(e: Endian, m: Member, f: Field)
    requires Placed(m) && TypedElements(m.ty, f)
    ensures |MemoryElements(e, m, f)| == Repeat(|f|, ElementSize(m))
    decreases m, 1, |f|
  {
    hide Placed, MemoryElement, ElementSize, TypedElement;
    if f != [] {
      MemoryElementLength(e, m, f[0]);
      MemoryElementsLength(e, m, f[1..]);
    }
  }

  lemma {:induction false} MemoryFieldsLength(e: Endian, list: seq<Member>, fields: seq<Field>, at: nat)
    requires AllPlaced(list) && Natural(list, at) && Typed(list, fields)
    ensures |MemoryFields(e, list, fields, at)| == End(list, at) - at
    decreases list
  {
    hide Placed, MemoryElements, ElementSize, TypedElements, AlignUp, NaturalMember;
    if list != [] {
      OneCount(list[0], fields[0]);
      MemoryElementsLength(e, list[0], fields[0]);
      MemoryFieldsLength(e, list[1..], fields[1..], list[0].offset + Extent(list[0]));
    }
  }

  lemma OneCount(m: Member, f: Field)
    requires Placed(m) && TypedField(m, f)
    ensures !m.IsSequence() && |f| == m.Count() > 0 && TypedElements(m.ty, f)
  {
  }

  lemma NumberLeaves(e: Endian, m: Member, v: Element, pos: nat)
    requires m.ty.Number? && TypedElement(m.ty, v)
    ensures SameLeaves(EncodeElement(e, false, m.ty, v, pos), MemoryElement(e, m, v))
  {
    hide AlignUp, NumberOctets;
    var octets := Octets(NumberOctets(e, m.ty.scalar.Size(), v.bits));
    BareAppend(Gaps(AlignUp(pos, m.ty.scalar.Size()) - pos), octets);
    BareGaps(AlignUp(pos, m.ty.scalar.Size()) - pos);
  }

  lemma {:induction false} ElementLeaves(e: Endian, m: Member, v: Element, pos: nat)
    requires Placed(m) && TypedElement(m.ty, v)
    ensures SameLeaves(EncodeElement(e, false, m.ty, v, pos), MemoryElement(e, m, v))
    decreases m, 0, 0
  {
    if m.ty.Nested? {
      NestedPlaced(m);
      hide Placed, SameLeaves, End, ElementSize, EncodeFields, MemoryFields;
      var ms := m.ty.members;
      FieldsLeaves(e, ms.hasAnyKeyMember, ms.list, v.fields, pos, 0);
      SameLeavesPadded(EncodeElement(e, false, m.ty, v, pos), MemoryFields(e, ms.list, v.fields, 0), ElementSize(m) - End(ms.list, 0));
    } else {
      NumberPlaced(m);
      NumberLeaves(e, m, v, pos);
    }
  }

  lemma NoElements(e: Endian, m: Member, pos: nat)
    ensures EncodeElements(e, false, m.ty, [], pos) == [] && MemoryElements(e, m, []) == []
  {
  }

  lemma NoFields(e: Endian, hasKey: bool, fields: seq<Field>, pos: nat, at: nat)
    ensures EncodeFields(e, false, hasKey, [], fields, pos) == [] && MemoryFields(e, [], fields, at) == []
  {
  }

  lemma {:induction false} ElementsLeaves(e: Endian, m: Member, f: Field, pos: nat)
    requires Placed(m) && TypedElements(m.ty, f) && f != []
    ensures SameLeaves(EncodeElements(e, false, m.ty, f, pos), MemoryElements(e, m, f))
    decreases m, 1, |f|
  {
    hide Placed, SameLeaves, EncodeElement, MemoryElement, TypedElement, EncodeElements, MemoryElements;
    ElementsCons(e, m, f, pos);
    ElementLeaves(e, m, f[0], pos);
    var x, a := EncodeElement(e, false, m.ty, f[0], pos), MemoryElement(e, m, f[0]);
    NoElements(e, m, pos + |x|);
    if |f| == 1 {
      assert f[1..] == [];
    } else {
      ElementsLeaves(e, m, f[1..], pos + |x|);
    }
    SameLeavesCons(EncodeElements(e, false, m.ty, f, pos), MemoryElements(e, m, f), x, a,
                   EncodeElements(e, false, m.ty, f[1..], pos + |x|), MemoryElements(e, m, f[1..]));
  }

  lemma FieldLeaves(e: Endian, m: Member, f: Field, pos: nat)
    requires Placed(m) && TypedField(m, f)
    ensures SameLeaves(EncodeField(e, false, m, f, pos), MemoryElements(e, m, f))
    decreases m, 2, 0
  {
    OneCount(m, f);
    FieldWithoutLength(e, m, f, pos);
    ElementsLeaves(e, m, f, pos);
  }

  /** The padding in front of a member in memory. */
  function Before(m: Member, at: nat): nat
  {
    if m.offset >= at then m.offset - at else 0
  }

  /** A member from byte `at` of its message on: the padding in front of it, and the member. */
  function MemberImage(e: Endian, m: Member, f: Field, at: nat): seq<Cell>
  {
    Gaps(Before(m, at)) + MemoryElements(e, m, f)
  }

  lemma MemberLeaves(e: Endian, m: Member, f: Field, pos: nat, at: nat)
    requires Placed(m) && TypedField(m, f)
    ensures SameLeaves(EncodeField(e, false, m, f, pos), MemberImage(e, m, f, at))
    decreases m, 3, 0
  {
    FieldLeaves(e, m, f, pos);
    SameLeavesPadded(EncodeField(e, false, m, f, pos), MemoryElements(e, m, f), Before(m, at));
  }

  lemma FieldWithoutLength(e: Endian, m: Member, f: Field, pos: nat)
    requires !m.IsSequence()
    ensures EncodeField(e, false, m, f, pos) == EncodeElements(e, false, m.ty, f, pos)
  {
    hide EncodeElements;
    var elements := EncodeElements(e, false, m.ty, f, pos);
    assert [] + elements == elements;
  }

  lemma FieldsCons(e: Endian, hasKey: bool, list: seq<Member>, fields: seq<Field>, pos: nat, at: nat)
    requires list != [] && fields != []
    ensures var x := EncodeField(e, false, list[0], fields[0], pos);
      EncodeFields(e, false, hasKey, list, fields, pos) == x + EncodeFields(e, false, hasKey, list[1..], fields[1..], pos + |x|)
    ensures MemoryFields(e, list, fields, at)
      == MemberImage(e, list[0], fields[0], at) + MemoryFields(e, list[1..], fields[1..], list[0].offset + Extent(list[0]))
  {
    hide EncodeField, MemoryElements, Extent;
  }

  lemma FirstAndRest(list: seq<Member>, fields: seq<Field>)
    requires AllPlaced(list) && Typed(list, fields) && list != []
    ensures fields != [] && Placed(list[0]) && TypedField(list[0], fields[0])
    ensures AllPlaced(list[1..]) && Typed(list[1..], fields[1..])
  {
  }

  lemma {:induction false} FieldsLeaves(e: Endian, hasKey: bool, list: seq<Member>, fields: seq<Field>, pos: nat, at: nat)
    requires AllPlaced(list) && Typed(list, fields) && list != []
    ensures SameLeaves(EncodeFields(e, false, hasKey, list, fields, pos), MemoryFields(e, list, fields, at))
    decreases list
  {
    hide SameLeaves, EncodeField, TypedField, Extent, MemberImage, EncodeFields, MemoryFields, Placed, AllPlaced, Typed;
    FirstAndRest(list, fields);
    FieldsCons(e, hasKey, list, fields, pos, at);
    var m, rest := list[0], list[1..];
    var x, behind := EncodeField(e, false, m, fields[0], pos), m.offset + Extent(m);
    var y, b := EncodeFields(e, false, hasKey, rest, fields[1..], pos + |x|), MemoryFields(e, rest, fields[1..], behind);
    MemberLeaves(e, m, fields[0], pos, at);
    if rest == [] {
      NoFields(e, hasKey, fields[1..], pos + |x|, behind);
    } else {
      FieldsLeaves(e, hasKey, rest, fields[1..], pos + |x|, behind);
    }
    SameLeavesCons(EncodeFields(e, false, hasKey, list, fields, pos), MemoryFields(e, list, fields, at), x, MemberImage(e, m, fields[0], at), y, b);
  }

  // ---------------------------------------------------------------------------------------
  // When every leaf is written at its own offset
  // ---------------------------------------------------------------------------------------

  /**
   `cells`, written from `pos`, against an image that begins at address `address`: in place
   exactly when `fits`, and then ending with the last leaf.
   */
  ghost predicate FitsExactly(cells: seq<Cell>, pos: nat, image: seq<Cell>, address: nat, fits: bool, end: nat)
    requires pos <= address
  {
    var placed := Gaps(address - pos) + image;
    && (InPlace(cells, placed) <==> fits)
    && (InPlace(cells, placed) ==> pos + |cells| == end)
  }

  lemma NumbersFit(e: Endian, m: Member, f: Field, pos: nat, address: nat)
    requires Placed(m) && m.ty.Number? && TypedField(m, f) && pos <= address
    ensures FitsExactly(EncodeField(e, false, m, f, pos), pos, MemoryElements(e, m, f), address,
                        AlignUp(pos, FirstAlign(m)) == address, address + Unpadded(m))
  {
    OneCount(m, f);
    FieldWithoutLength(e, m, f, pos);
    NumberPlaced(m);
    NumbersImage(e, m, f, pos);
    MemoryElementsLength(e, m, f);
    FirstOctet(e, m, f);
    hide Placed, TypedField, TypedElements, AlignUp, EncodeField, EncodeElements, MemoryElements, FirstAlign,
      Unpadded, InPlace;
    var image, p := MemoryElements(e, m, f), AlignUp(pos, m.ty.scalar.Size());
    InPlaceFirst(p - pos, address - pos, image);
  }

  lemma FirstOctet(e: Endian, m: Member, f: Field)
    requires m.ty.Number? && TypedElements(m.ty, f) && f != []
    ensures MemoryElements(e, m, f) != [] && MemoryElements(e, m, f)[0].Octet?
  {
    ElementsCons(e, m, f, 0);
    hide NumberOctets, MemoryElements;
    assert MemoryElement(e, m, f[0])[0].Octet?;
  }

  /** Why `n` elements written from `pos` are in place at `address`. */
  predicate ElementsAbsorbed(m: Member, n: nat, pos: nat, address: nat)
    requires m.ty.Nested?
  {
    && AlignUp(pos, FirstAlign(m)) == address
    && Absorbed(true, m.ty.members.list)
    && (n > 1 ==> AlignUp(LeafEnd(m.ty.members.list), FirstAlign(m)) == ElementSize(m))
  }

  predicate ListAbsorbed(list: seq<Member>, pos: nat, base: nat)
    requires list != []
  {
    AlignUp(pos, FirstAlign(list[0])) == base + list[0].offset && Absorbed(true, list)
  }

  lemma FirstOfNested(m: Member, pos: nat, address: nat)
    requires Placed(m) && m.ty.Nested?
    ensures m.ty.members.list != [] && ElementSize(m) >= End(m.ty.members.list, 0)
    ensures ListAbsorbed(m.ty.members.list, pos, address) <==> ElementsAbsorbed(m, 1, pos, address)
  {
    FirstAtStart(m.ty.members.list);
    hide AlignUp, Absorbed, Flat, Inhabited;
  }

  lemma NextElement(m: Member, n: nat, pos: nat, address: nat)
    requires Placed(m) && m.ty.Nested? && Aligned(address, MemberAlign(m)) && n > 1
    ensures Aligned(address + ElementSize(m), MemberAlign(m)) && LeafEnd(m.ty.members.list) <= ElementSize(m)
    ensures ElementsAbsorbed(m, n, pos, address) <==>
      && ElementsAbsorbed(m, 1, pos, address)
      && ElementsAbsorbed(m, n - 1, address + LeafEnd(m.ty.members.list), address + ElementSize(m))
  {
    FirstAlignIsLess(m);
    AlignedCoarser(address, FirstAlign(m), MemberAlign(m));
    AlignUpShift(LeafEnd(m.ty.members.list), address, FirstAlign(m));
    PaddingAligns(m);
    AlignedSum(address, ElementSize(m), MemberAlign(m));
    hide Placed, Absorbed, LeafEnd, AlignUp, Aligned, ElementSize, FirstAlign;
  }

  lemma FitsBeforePadding(cells: seq<Cell>, pos: nat, image: seq<Cell>, address: nat, n: nat, fits: bool, end: nat)
    requires pos <= address && SameLeaves(cells, image) && FitsExactly(cells, pos, image, address, fits, end)
    ensures FitsExactly(cells, pos, image + Gaps(n), address, fits, end)
  {
    hide InPlace;
    SameLeavesPadded(cells, image, address - pos);
    hide SameLeaves;
    InPlaceTrailing(cells, Gaps(address - pos) + image, n);
    assert Gaps(address - pos) + (image + Gaps(n)) == Gaps(address - pos) + image + Gaps(n);
  }

  lemma {:induction false} ElementFits(e: Endian, m: Member, v: Element, pos: nat, address: nat)
    requires Placed(m) && m.ty.Nested? && TypedElement(m.ty, v)
    requires pos <= address && Aligned(address, MemberAlign(m))
    ensures FitsExactly(EncodeElement(e, false, m.ty, v, pos), pos, MemoryElement(e, m, v), address,
                        ElementsAbsorbed(m, 1, pos, address), address + LeafEnd(m.ty.members.list))
    decreases m, 0, 0
  {
    hide Placed, AllPlaced, Natural, InPlace, SameLeaves, Absorbed, LeafEnd, End, ElementSize, EncodeFields,
      MemoryFields, AlignUp, Aligned, FitsExactly, ListAbsorbed, ElementsAbsorbed;
    NestedPlaced(m);
    FirstOfNested(m, pos, address);
    var ms := m.ty.members;
    var cells, image := EncodeElement(e, false, m.ty, v, pos), MemoryFields(e, ms.list, v.fields, 0);
    FieldsFit(e, ms.hasAnyKeyMember, ms.list, v.fields, pos, address, 0);
    FieldsLeaves(e, ms.hasAnyKeyMember, ms.list, v.fields, pos, 0);
    FitsBeforePadding(cells, pos, image, address, ElementSize(m) - End(ms.list, 0), ElementsAbsorbed(m, 1, pos, address), address + LeafEnd(ms.list));
  }

  /** One part, and what follows it from where it ends. */
  lemma FitsJoin(x: seq<Cell>, pos: nat, a: seq<Cell>, address: nat, fits: bool, end: nat,
                 y: seq<Cell>, b: seq<Cell>, next: nat, restFits: bool, restEnd: nat)
    requires pos <= address && next == address + |a| && SameLeaves(x, a)
    requires FitsExactly(x, pos, a, address, fits, end)
    requires fits ==> end <= next && FitsExactly(y, end, b, next, restFits, restEnd)
    ensures FitsExactly(x + y, pos, a + b, address, fits && restFits, restEnd)
  {
    var placed := Gaps(address - pos) + a;
    SameLeavesPadded(x, a, address - pos);
    hide SameLeaves;
    InPlaceJoin(x, placed, y, b);
    assert placed + b == Gaps(address - pos) + (a + b);
    hide InPlace;
  }

  lemma FitsBehindGap(x: seq<Cell>, pos: nat, a: seq<Cell>, address: nat, gap: nat, fits: bool, end: nat)
    requires pos <= address && FitsExactly(x, pos, a, address + gap, fits, end)
    ensures FitsExactly(x, pos, Gaps(gap) + a, address, fits, end)
  {
    GapsJoin(address - pos, gap, a);
    hide InPlace;
  }

  lemma FitsAlone(x: seq<Cell>, pos: nat, a: seq<Cell>, address: nat, fits: bool, end: nat)
    requires pos <= address && FitsExactly(x, pos, a, address, fits, end)
    ensures FitsExactly(x + [], pos, a + [], address, fits, end)
  {
    assert x + [] == x && a + [] == a;
  }

  lemma EndsThere(x: seq<Cell>, pos: nat, a: seq<Cell>, address: nat, fits: bool, end: nat)
    requires pos <= address && FitsExactly(x, pos, a, address, fits, end) && fits
    ensures pos + |x| == end
  {
    hide InPlace;
  }

  /** The elements of an array: what has to hold between two of them holds between all. */
  lemma {:induction false} ElementsFit(e: Endian, m: Member, f: Field, pos: nat, address: nat)
    requires Placed(m) && m.ty.Nested? && TypedElements(m.ty, f) && f != []
    requires pos <= address && Aligned(address, MemberAlign(m))
    ensures FitsExactly(EncodeElements(e, false, m.ty, f, pos), pos, MemoryElements(e, m, f), address,
                        ElementsAbsorbed(m, |f|, pos, address), address + Repeat(|f| - 1, ElementSize(m)) + LeafEnd(m.ty.members.list))
    decreases m, 1, |f|
  {
    hide Placed, Absorbed, LeafEnd, EncodeElement, EncodeElements, MemoryElement, MemoryElements, AlignUp, Aligned,
      SameLeaves, TypedElement, ElementSize, FirstAlign, MemberAlign, InPlace, ElementsAbsorbed, FitsExactly;
    var list, size := m.ty.members.list, ElementSize(m);
    var x, a := EncodeElement(e, false, m.ty, f[0], pos), MemoryElement(e, m, f[0]);
    var fits, end := ElementsAbsorbed(m, 1, pos, address), address + LeafEnd(list);
    ElementsCons(e, m, f, pos);
    ElementFits(e, m, f[0], pos, address);
    if |f| == 1 {
      NoElements(e, m, pos + |x|);
      assert f[1..] == [];
      FitsAlone(x, pos, a, address, fits, end);
    } else {
      ElementLeaves(e, m, f[0], pos);
      MemoryElementLength(e, m, f[0]);
      NextElement(m, |f|, pos, address);
      var y, b := EncodeElements(e, false, m.ty, f[1..], pos + |x|), MemoryElements(e, m, f[1..]);
      if fits {
        EndsThere(x, pos, a, address, fits, end);
        ElementsFit(e, m, f[1..], end, address + size);
      }
      FitsJoin(x, pos, a, address, fits, end, y, b, address + size,
               ElementsAbsorbed(m, |f| - 1, end, address + size), address + Repeat(|f| - 1, size) + LeafEnd(list));
    }
  }

  predicate MemberAbsorbed(m: Member, pos: nat, address: nat)
  {
    AlignUp(pos, FirstAlign(m)) == address && AbsorbedMember(true, m)
  }

  lemma {:induction false} MemberFits(e: Endian, m: Member, f: Field, pos: nat, address: nat)
    requires Placed(m) && TypedField(m, f) && pos <= address && Aligned(address, MemberAlign(m))
    ensures FitsExactly(EncodeField(e, false, m, f, pos), pos, MemoryElements(e, m, f), address,
                        MemberAbsorbed(m, pos, address), address + Unpadded(m))
    decreases m, 2, 0
  {
    if m.ty.Nested? {
      OneCount(m, f);
      FieldWithoutLength(e, m, f, pos);
      ElementsFit(e, m, f, pos, address);
      hide Placed, FitsExactly, Absorbed, EncodeField, EncodeElements, MemoryElements, AlignUp, Aligned, FirstAlign,
        ElementSize, TypedField;
    } else {
      NumberPlaced(m);
      NumbersFit(e, m, f, pos, address);
      hide FitsExactly;
    }
  }

  lemma OnlyMember(list: seq<Member>, pos: nat, base: nat)
    requires |list| == 1
    ensures ListAbsorbed(list, pos, base) <==> MemberAbsorbed(list[0], pos, base + list[0].offset)
  {
    hide AlignUp, FirstAlign, AbsorbedMember;
    assert Absorbed(true, list[1..]);
  }

  /** A list of members is absorbed when its first is, and so is what follows from its last leaf. */
  lemma NextMember(list: seq<Member>, at: nat, base: nat)
    requires |list| > 1 && AllPlaced(list) && Natural(list, at) && Aligned(base, TypeAlign(list))
    ensures Aligned(base, TypeAlign(list[1..]))
    ensures Unpadded(list[0]) <= Extent(list[0])
    ensures AlignUp(base + list[0].offset + Unpadded(list[0]), FirstAlign(list[1]))
      == base + AlignUp(list[0].offset + Unpadded(list[0]), FirstAlign(list[1]))
  {
    var end, a := list[0].offset + Unpadded(list[0]), FirstAlign(list[1]);
    FirstAlignIsLess(list[1]);
    AlignedCoarser(base, TypeAlign(list[1..]), TypeAlign(list));
    AlignedCoarser(base, a, TypeAlign(list));
    AlignUpShift(end, base, a);
    PaddingAligns(list[0]);
    hide Placed, AlignUp, Aligned, Unpadded, Extent, FirstAlign, NaturalMember, MemberAlign;
  }

  lemma MemberThenRest(list: seq<Member>, pos: nat, base: nat)
    requires |list| > 1
    requires AlignUp(base + list[0].offset + Unpadded(list[0]), FirstAlign(list[1]))
      == base + AlignUp(list[0].offset + Unpadded(list[0]), FirstAlign(list[1]))
    ensures ListAbsorbed(list, pos, base) <==>
      && MemberAbsorbed(list[0], pos, base + list[0].offset)
      && ListAbsorbed(list[1..], base + list[0].offset + Unpadded(list[0]), base)
  {
    hide AlignUp, AbsorbedMember, Unpadded, FirstAlign;
  }

  lemma FirstPlaced(list: seq<Member>, fields: seq<Field>, at: nat, base: nat)
    requires list != [] && AllPlaced(list) && Natural(list, at) && Typed(list, fields) && Aligned(base, TypeAlign(list))
    ensures Placed(list[0]) && TypedField(list[0], fields[0]) && at <= list[0].offset
    ensures Aligned(base + list[0].offset, MemberAlign(list[0]))
  {
    var a := MemberAlign(list[0]);
    AlignedCoarser(base, a, TypeAlign(list));
    AlignedSum(base, list[0].offset, a);
  }

  lemma MemberImageLength(e: Endian, m: Member, f: Field)
    requires Placed(m) && TypedField(m, f)
    ensures |MemoryElements(e, m, f)| == Extent(m)
  {
    OneCount(m, f);
    MemoryElementsLength(e, m, f);
  }

  lemma {:induction false} MemberAfterGapFits(e: Endian, m: Member, f: Field, pos: nat, base: nat, at: nat)
    requires Placed(m) && TypedField(m, f) && at <= m.offset
    requires pos <= base + at && Aligned(base + m.offset, MemberAlign(m))
    ensures at + |MemberImage(e, m, f, at)| == m.offset + Extent(m)
    ensures FitsExactly(EncodeField(e, false, m, f, pos), pos, MemberImage(e, m, f, at), base + at,
                        MemberAbsorbed(m, pos, base + m.offset), base + m.offset + Unpadded(m))
    decreases m, 3, 0
  {
    hide Placed, TypedField, FitsExactly, EncodeField, MemoryElements, AlignUp, Aligned, MemberAbsorbed, Extent,
      Unpadded, MemberAlign;
    MemberFits(e, m, f, pos, base + m.offset);
    MemberImageLength(e, m, f);
    FitsBehindGap(EncodeField(e, false, m, f, pos), pos, MemoryElements(e, m, f), base + at, Before(m, at),
                  MemberAbsorbed(m, pos, base + m.offset), base + m.offset + Unpadded(m));
  }

  lemma {:induction false} FieldsFit(e: Endian, hasKey: bool, list: seq<Member>, fields: seq<Field>, pos: nat, base: nat, at: nat)
    requires list != [] && AllPlaced(list) && Natural(list, at) && Typed(list, fields)
    requires pos <= base + at && Aligned(base, TypeAlign(list))
    ensures FitsExactly(EncodeFields(e, false, hasKey, list, fields, pos), pos, MemoryFields(e, list, fields, at), base + at,
                        ListAbsorbed(list, pos, base), base + LeafEnd(list))
    decreases list
  {
    hide Placed, AlignUp, Aligned, AbsorbedMember, Unpadded, Extent, FirstAlign, NaturalMember, MemberAlign, InPlace,
      SameLeaves, EncodeField, EncodeFields, MemoryFields, TypedField, MemberAbsorbed, FitsExactly;
    var m := list[0];
    FieldsCons(e, hasKey, list, fields, pos, at);
    FirstPlaced(list, fields, at, base);
    MemberAfterGapFits(e, m, fields[0], pos, base, at);
    var x, a := EncodeField(e, false, m, fields[0], pos), MemberImage(e, m, fields[0], at);
    var fits, end := MemberAbsorbed(m, pos, base + m.offset), base + m.offset + Unpadded(m);
    var rest, behind := list[1..], m.offset + Extent(m);
    if |list| == 1 {
      NoFields(e, hasKey, fields[1..], pos + |x|, behind);
      assert rest == [];
      FitsAlone(x, pos, a, base + at, fits, end);
      OnlyMember(list, pos, base);
    } else {
      MemberLeaves(e, m, fields[0], pos, at);
      NextMember(list, at, base);
      MemberThenRest(list, pos, base);
      hide Absorbed, MemberImage;
      var y, b := EncodeFields(e, false, hasKey, rest, fields[1..], pos + |x|), MemoryFields(e, rest, fields[1..], behind);
      if fits {
        EndsThere(x, pos, a, base + at, fits, end);
        FieldsFit(e, hasKey, rest, fields[1..], end, base, behind);
      }
      FitsJoin(x, pos, a, base + at, fits, end, y, b, base + behind, ListAbsorbed(rest, end, base), base + LeafEnd(rest));
    }
  }

  /**
   A fixed-size type in the natural ABI is serialized to the memory image of every one of its
   values exactly when it is absorbed everywhere.
   */
  lemma ImageInPlace(e: Endian, hasKey: bool, list: seq<Member>, fields: seq<Field>)
    requires Flat(false, hasKey, list) && Natural(list, 0) && Inhabited(list) && Typed(list, fields)
    ensures InPlace(EncodeFields(e, false, hasKey, list, fields, 0), MemoryFields(e, list, fields, 0)) <==> Absorbed(true, list)
    ensures Absorbed(true, list) ==> |EncodeFields(e, false, hasKey, list, fields, 0)| == LeafEnd(list)
  {
    var image := MemoryFields(e, list, fields, 0);
    assert Gaps(0) + image == image;
    if list != [] {
      AllPlacedFrom(list, hasKey, 0);
      FieldsFit(e, hasKey, list, fields, 0, 0, 0);
      hide InPlace, EncodeFields, MemoryFields, Absorbed, LeafEnd, Flat, Inhabited;
    }
  }

  // ---------------------------------------------------------------------------------------
  // What the flag guarantees
  // ---------------------------------------------------------------------------------------

  /** Where members end, laid out from `at` each aligned on its own, without trailing padding. */
  function Stop(list: seq<Member>, at: nat): (p: nat)
    ensures p >= at
    decreases list
  {
    if list == [] then at
    else Stop(list[1..], AlignUp(at, MemberAlign(list[0])) + Unpadded(list[0]))
  }

  /** Starting later by a multiple of the type's alignment shifts the whole layout by it. */
  lemma {:induction false} StopShift(list: seq<Member>, at: nat, d: nat)
    requires Aligned(d, TypeAlign(list))
    ensures Stop(list, at + d) == Stop(list, at) + d
    decreases list
  {
    hide AlignUp, Aligned, MemberAlign, Unpadded;
    if list != [] {
      var a := MemberAlign(list[0]);
      AlignedCoarser(d, a, TypeAlign(list));
      AlignUpShift(at, d, a);
      AlignedCoarser(d, TypeAlign(list[1..]), TypeAlign(list));
      StopShift(list[1..], AlignUp(at, a) + Unpadded(list[0]), d);
    }
  }

  /**
   The converse: from whatever two positions the members are laid out, the ends differ by a
   multiple of the type's alignment. Behind the most aligned member, both layouts have met it.
   */
  lemma {:induction false} EndsDifferByAlignment(list: seq<Member>, p: nat, q: nat)
    requires list != [] && q <= p
    ensures Stop(list, q) <= Stop(list, p)
    ensures Aligned(Stop(list, p) - Stop(list, q), TypeAlign(list))
    decreases list
  {
    hide AlignUp, Aligned, MemberAlign, Unpadded;
    var a, z, rest := MemberAlign(list[0]), Unpadded(list[0]), list[1..];
    AlignUpStep(p, q, a);
    var p1, q1 := AlignUp(p, a) + z, AlignUp(q, a) + z;
    if a >= TypeAlign(rest) {
      AlignedCoarser(p1 - q1, TypeAlign(rest), a);
      StopShift(rest, q1, p1 - q1);
    } else {
      assert rest != [];
      EndsDifferByAlignment(rest, p1, q1);
    }
  }

  /** Behind a member whose padding is absorbed, the next is aligned as if there were none. */
  lemma NextOffset(list: seq<Member>, at: nat)
    requires |list| > 1 && AllPlaced(list) && Natural(list, at) && Absorbed(false, list)
    ensures AlignUp(list[0].offset + Unpadded(list[0]), MemberAlign(list[1])) == list[1].offset
  {
    var m, next := list[0], list[1];
    hide Placed, AlignUp, Aligned, FirstAlign, NaturalMember, MemberAlign, AbsorbedMember, Extent, Unpadded, Padded;
    if Padded(m) {
      FirstAlignIsLess(next);
      AlignUpLeast(m.offset + Unpadded(m), MemberAlign(next), next.offset);
      AlignUpCoarser(m.offset + Unpadded(m), FirstAlign(next), MemberAlign(next));
    } else {
      NotPadded(m);
    }
  }

  lemma AlignUpCoarser(x: nat, a: Width, b: Width)
    requires a <= b
    ensures AlignUp(x, a) <= AlignUp(x, b)
  {
    AlignedCoarser(AlignUp(x, b), a, b);
    AlignUpLeast(x, a, AlignUp(x, b));
  }

  lemma NotPadded(m: Member)
    requires Placed(m) && !Padded(m)
    ensures Unpadded(m) == Extent(m)
  {
    if m.ty.Nested? {
      NestedPlaced(m);
      hide Placed, ElementSize, LeafEnd;
      assert Repeat(m.Count(), ElementSize(m)) == ElementSize(m) + Repeat(m.Count() - 1, ElementSize(m));
    } else {
      NumberPlaced(m);
    }
  }

  lemma {:induction false} StopIsLeafEnd(list: seq<Member>, at: nat, x: nat)
    requires list != [] && AllPlaced(list) && Natural(list, at) && Absorbed(false, list)
    requires AlignUp(x, MemberAlign(list[0])) == list[0].offset
    ensures Stop(list, x) == LeafEnd(list)
    decreases list
  {
    hide Placed, AlignUp, NaturalMember, MemberAlign, FirstAlign, AbsorbedMember, Extent, Unpadded, Padded;
    var next := list[0].offset + Unpadded(list[0]);
    if |list| == 1 {
      assert Stop(list[1..], next) == next;
    } else {
      NextOffset(list, at);
      StopIsLeafEnd(list[1..], list[0].offset + Extent(list[0]), next);
    }
  }

  /** What the walk records as the last member's size. */
  function LastSize(list: seq<Member>, last: nat): nat
  {
    if list == [] then last else Unpadded(list[|list| - 1])
  }

  lemma {:induction false} LastLeaf(list: seq<Member>)
    requires list != []
    ensures LeafEnd(list) == list[|list| - 1].offset + LastSize(list, 0)
    decreases list
  {
    hide Unpadded;
    if |list| > 1 {
      LastLeaf(list[1..]);
    }
  }

  /** How the walk over one plain message type went. */
  ghost predicate WalkedPlain(m: Member, w: Walk, r: Walk, n: nat)
    requires m.ty.Nested? && n > 0
  {
    && Aligned(w.pos, MemberAlign(m))
    && r.pos == w.pos + Repeat(n - 1, ElementSize(m)) + LeafEnd(m.ty.members.list)
    && (n > 1 ==> LeafEnd(m.ty.members.list) == ElementSize(m))
    && Absorbed(true, m.ty.members.list) && Entered(m.ty.members.list)
  }

  /** Elements of a nested type that keep the flag each begin where the type may begin. */
  lemma {:induction false} RepeatedPlain(m: Member, n: nat, w: Walk)
    requires m.ty.Nested? && Placed(m) && Absorbed(false, m.ty.members.list) && n > 0
    requires MaxRepeated(false, m.ty.members, n, w).plain
    ensures WalkedPlain(m, w, MaxRepeated(false, m.ty.members, n, w), n)
    decreases m, 0, n
  {
    PaddingAligns(m);
    hide Placed, AlignUp, Aligned, MaxMembers, Absorbed, Entered, LeafEnd, ElementSize;
    var ms := m.ty.members;
    var w1 := MaxMembers(false, ms, w);
    if n == 1 {
      assert MaxRepeated(false, ms, n, w) == MaxRepeated(false, ms, 0, w1) == w1;
      MembersPlain(m, w);
    } else {
      RepeatedPlain(m, n - 1, w1);
      RepeatedFlags(false, ms, n - 1, w1);
      MembersPlain(m, w);
      AlignedSum(LeafEnd(ms.list), w.pos, MemberAlign(m));
    }
  }

  /** How the walk over one member went. */
  ghost predicate MemberWalked(m: Member, w: Walk, r: Walk, last: nat)
  {
    && (m.ty.Nested? ==> Aligned(w.pos, MemberAlign(m)))
    && r.pos == AlignUp(w.pos, MemberAlign(m)) + Unpadded(m)
    && last == Unpadded(m) > 0
    && AbsorbedMember(true, m) && EnteredMember(m)
  }

  lemma {:induction false} MemberPlain(m: Member, w: Walk)
    requires Placed(m) && AbsorbedMember(false, m)
    requires MaxMember(false, m, w).0.plain
    ensures MemberWalked(m, w, MaxMember(false, m, w).0, MaxMember(false, m, w).1)
    decreases m, 1, 0
  {
    UnpaddedPositive(m);
    if m.ty.Number? {
      NumberPlaced(m);
      RepeatIsAfterNumbers(m.ty.scalar.Size(), m.Count());
      hide Unpadded, AlignUp, AfterNumbers;
    } else {
      NestedPlaced(m);
      hide LeafEnd, ElementSize, AlignUp, Aligned, Absorbed, Entered, MaxRepeated, FirstAlign;
      RepeatedPlain(m, m.Count(), w);
      FirstAlignIsLess(m);
      AlignedCoarser(w.pos, FirstAlign(m), MemberAlign(m));
      PaddingAligns(m);
      AlignedCoarser(ElementSize(m), FirstAlign(m), MemberAlign(m));
    }
  }

  lemma {:induction false} FieldsPlain(hasKey: bool, list: seq<Member>, w: Walk, last: nat)
    requires AllPlaced(list) && Absorbed(false, list)
    requires MaxFields(false, hasKey, list, w, last).0.plain
    ensures MaxFields(false, hasKey, list, w, last) == (MaxFields(false, hasKey, list, w, last).0.(pos := Stop(list, w.pos)), LastSize(list, last))
    ensures list != [] ==> LastSize(list, last) > 0
    decreases list
  {
    hide Placed, MaxMember, AlignUp, Aligned, Unpadded, MemberAlign, AbsorbedMember, FirstAlign, Padded;
    if list != [] {
      var (w1, last1) := MaxMember(false, list[0], w);
      FieldsFlags(false, hasKey, list[1..], w1, last1);
      MemberPlain(list[0], w);
      FieldsPlain(hasKey, list[1..], w1, last1);
    }
  }

  /** Walked from an aligned start, a plain list is absorbed everywhere, and no element is entered late. */
  lemma {:induction false} FieldsAbsorbed(hasKey: bool, list: seq<Member>, w: Walk, last: nat, s: nat, at: nat, x: nat)
    requires AllPlaced(list) && Natural(list, at) && Absorbed(false, list)
    requires MaxFields(false, hasKey, list, w, last).0.plain
    requires w.pos == s + x && Aligned(s, TypeAlign(list))
    requires list != [] ==> AlignUp(x, MemberAlign(list[0])) == list[0].offset
    ensures Absorbed(true, list) && Entered(list)
    decreases list
  {
    hide Placed, MaxMember, AlignUp, Aligned, Unpadded, MemberAlign, AbsorbedMember, EnteredMember, FirstAlign, Padded,
      Extent, NaturalMember;
    if list != [] {
      var m, rest := list[0], list[1..];
      var (w1, last1) := MaxMember(false, m, w);
      FieldsFlags(false, hasKey, rest, w1, last1);
      MemberPlain(m, w);
      AlignedCoarser(s, MemberAlign(m), TypeAlign(list));
      AlignUpShift(x, s, MemberAlign(m));
      AlignedCoarser(s, TypeAlign(rest), TypeAlign(list));
      var next := m.offset + Unpadded(m);
      if |list| > 1 {
        NextOffset(list, at);
        NextLeaf(hasKey, rest, w1, last1, s, next);
      }
      FieldsAbsorbed(hasKey, rest, w1, last1, s, m.offset + Extent(m), next);
    }
  }

  /** A nested type is plain only from where it may begin, so its first leaf needs no less. */
  lemma {:induction false} NextLeaf(hasKey: bool, list: seq<Member>, w: Walk, last: nat, s: nat, x: nat)
    requires list != [] && AllPlaced(list) && Absorbed(false, list)
    requires MaxFields(false, hasKey, list, w, last).0.plain
    requires w.pos == s + x && Aligned(s, TypeAlign(list))
    ensures AlignUp(x, FirstAlign(list[0])) == AlignUp(x, MemberAlign(list[0]))
    ensures list[0].ty.Nested? ==> Aligned(x, MemberAlign(list[0]))
    decreases list, 0
  {
    var m := list[0];
    if m.ty.Nested? {
      var (w1, last1) := MaxMember(false, m, w);
      hide Placed, MaxMember, AlignUp, Aligned, Unpadded, MemberAlign, AbsorbedMember, FirstAlign, Padded;
      FieldsFlags(false, hasKey, list[1..], w1, last1);
      MemberPlain(m, w);
      AlignedCoarser(s, MemberAlign(m), TypeAlign(list));
      AlignedSum(x, s, MemberAlign(m));
      FirstAlignIsLess(m);
      AlignedCoarser(x, FirstAlign(m), MemberAlign(m));
    } else {
      NumberPlaced(m);
      hide AlignUp;
    }
  }

  /**
   The heart of it: if the comparison of the last member's end with the size walked succeeds,
   the type was walked from a position its alignment divides, and its leaves follow each other
   as in memory.
   */
  lemma {:induction false} ListPlain(ms: Members, w: Walk)
    requires ms.list != [] && AllPlaced(ms.list) && Natural(ms.list, 0) && Absorbed(false, ms.list)
    requires MaxMembers(false, ms, w).plain
    ensures Aligned(w.pos, TypeAlign(ms.list))
    ensures MaxMembers(false, ms, w).pos == w.pos + LeafEnd(ms.list)
    ensures Absorbed(true, ms.list) && Entered(ms.list)
    decreases ms
  {
    hide AlignUp, Aligned, MaxFields, Absorbed, Entered, AllPlaced, Natural, LeafEnd, MemberAlign, TypeAlign;
    FieldsPlain(ms.hasAnyKeyMember, ms.list, w, 0);
    LastLeaf(ms.list);
    FirstAtStart(ms.list);
    StopIsLeafEnd(ms.list, 0, 0);
    EndsDifferByAlignment(ms.list, w.pos, 0);
    FieldsAbsorbed(ms.hasAnyKeyMember, ms.list, w, 0, w.pos, 0, 0);
  }

  lemma {:induction false} MembersPlain(m: Member, w: Walk)
    requires m.ty.Nested? && Placed(m) && Absorbed(false, m.ty.members.list)
    requires MaxMembers(false, m.ty.members, w).plain
    ensures Aligned(w.pos, MemberAlign(m))
    ensures MaxMembers(false, m.ty.members, w).pos == w.pos + LeafEnd(m.ty.members.list)
    ensures Absorbed(true, m.ty.members.list) && Entered(m.ty.members.list)
    decreases m, 0, 0
  {
    NestedPlaced(m);
    hide Placed, AllPlaced, Natural, Aligned, Absorbed, Entered, LeafEnd, MaxMembers;
    ListPlain(m.ty.members, w);
  }

  // ---------------------------------------------------------------------------------------
  // Which types keep the flag
  // ---------------------------------------------------------------------------------------

  lemma {:induction false} RepeatedKeeps(m: Member, n: nat, w: Walk)
    requires m.ty.Nested? && Placed(m) && Absorbed(false, m.ty.members.list) && Entered(m.ty.members.list)
    requires w.plain && Aligned(w.pos, MemberAlign(m)) && (n > 1 ==> LeafEnd(m.ty.members.list) == ElementSize(m))
    ensures MaxRepeated(false, m.ty.members, n, w).plain
    decreases m, 0, n
  {
    if n > 0 {
      PaddingAligns(m);
      NestedPlaced(m);
      hide Placed, AllPlaced, Natural, AlignUp, Aligned, MaxMembers, Absorbed, Entered, LeafEnd, ElementSize;
      ListKeeps(m.ty.members, w);
      ListPlain(m.ty.members, w);
      if n == 1 {
        assert MaxRepeated(false, m.ty.members, n, w) == MaxRepeated(false, m.ty.members, 0, MaxMembers(false, m.ty.members, w));
      } else {
        AlignedSum(w.pos, LeafEnd(m.ty.members.list), MemberAlign(m));
        RepeatedKeeps(m, n - 1, MaxMembers(false, m.ty.members, w));
      }
    }
  }

  lemma {:induction false} MemberKeeps(m: Member, w: Walk)
    requires Placed(m) && AbsorbedMember(false, m) && EnteredMember(m)
    requires w.plain && (m.ty.Nested? ==> Aligned(w.pos, MemberAlign(m)))
    ensures MaxMember(false, m, w).0.plain
    decreases m, 1, 0
  {
    if m.ty.Nested? {
      NestedPlaced(m);
      hide LeafEnd, ElementSize, AlignUp, Aligned, Absorbed, Entered, MaxRepeated, FirstAlign;
      RepeatedKeeps(m, m.Count(), w);
    } else {
      NumberPlaced(m);
    }
  }

  lemma {:induction false} FieldsKeep(hasKey: bool, list: seq<Member>, w: Walk, last: nat, s: nat, at: nat, x: nat)
    requires AllPlaced(list) && Natural(list, at) && Absorbed(false, list) && Entered(list)
    requires w.plain && w.pos == s + x && Aligned(s, TypeAlign(list))
    requires list != [] ==>
      AlignUp(x, MemberAlign(list[0])) == list[0].offset && (list[0].ty.Nested? ==> Aligned(x, MemberAlign(list[0])))
    ensures MaxFields(false, hasKey, list, w, last).0.plain
    decreases list
  {
    hide Placed, MaxMember, AlignUp, Aligned, Unpadded, MemberAlign, AbsorbedMember, EnteredMember, FirstAlign, Padded,
      Extent, NaturalMember;
    if list != [] {
      var m, rest := list[0], list[1..];
      AlignedCoarser(s, MemberAlign(m), TypeAlign(list));
      AlignedSum(x, s, MemberAlign(m));
      MemberKeeps(m, w);
      MemberPlain(m, w);
      AlignUpShift(x, s, MemberAlign(m));
      AlignedCoarser(s, TypeAlign(rest), TypeAlign(list));
      if |list| > 1 {
        NextOffset(list, at);
      }
      var (w1, last1) := MaxMember(false, m, w);
      FieldsKeep(hasKey, rest, w1, last1, s, m.offset + Extent(m), m.offset + Unpadded(m));
    }
  }

  lemma {:induction false} ListKeeps(ms: Members, w: Walk)
    requires ms.list != [] && AllPlaced(ms.list) && Natural(ms.list, 0) && Absorbed(false, ms.list) && Entered(ms.list)
    requires w.plain && Aligned(w.pos, TypeAlign(ms.list))
    ensures MaxMembers(false, ms, w).plain
    decreases ms
  {
    FirstAtStart(ms.list);
    hide AlignUp, MaxFields, Absorbed, Entered, AllPlaced, Natural, LeafEnd, MemberAlign, TypeAlign;
    ZeroAligned(MemberAlign(ms.list[0]));
    FieldsKeep(ms.hasAnyKeyMember, ms.list, w, 0, w.pos, 0, 0);
    FieldsPlain(ms.hasAnyKeyMember, ms.list, w, 0);
    LastLeaf(ms.list);
    StopIsLeafEnd(ms.list, 0, 0);
    StopShift(ms.list, 0, w.pos);
  }

  lemma ZeroAligned(a: Width)
    ensures Aligned(0, a)
  {
  }

  /**
   Among the natural types whose padding is absorbed, exactly those stay plain in which no
   padding lies in front of a nested element; so every type of numbers and arrays of them does.
   */
  lemma PlainExactly(ms: Members, keyUnbounded: bool)
    requires Flat(false, ms.hasAnyKeyMember, ms.list) && Natural(ms.list, 0) && Inhabited(ms.list) && Absorbed(false, ms.list)
    ensures MaxMembers(false, ms, Walk(0, true, true, keyUnbounded)).plain <==> Entered(ms.list)
  {
    var w := Walk(0, true, true, keyUnbounded);
    if ms.list != [] {
      hide MaxMembers, Absorbed, Entered, Flat, Inhabited, Natural;
      AllPlacedFrom(ms.list, ms.hasAnyKeyMember, 0);
      ZeroAligned(TypeAlign(ms.list));
      if Entered(ms.list) {
        ListKeeps(ms, w);
      }
      if MaxMembers(false, ms, w).plain {
        ListPlain(ms, w);
      }
    }
  }

  lemma {:induction false} NumbersAreEntered(list: seq<Member>)
    requires forall i :: 0 <= i < |list| ==> list[i].ty.Number?
    ensures Entered(list) && Absorbed(false, list)
    decreases list
  {
    hide Unpadded, MemberAlign, AlignUp, Aligned, FirstAlign;
    if list != [] {
      NumbersAreEntered(list[1..]);
    }
  }

  lemma {:induction false} AbsorbedEverywhere(list: seq<Member>)
    requires Absorbed(true, list)
    ensures Absorbed(false, list)
    decreases list
  {
    hide AlignUp, Unpadded, Padded, FirstAlign, AbsorbedMember;
    if list != [] {
      MemberEverywhere(list[0]);
      AbsorbedEverywhere(list[1..]);
    }
  }

  lemma {:induction false} MemberEverywhere(m: Member)
    requires AbsorbedMember(true, m)
    ensures AbsorbedMember(false, m)
    decreases m
  {
    if m.ty.Nested? {
      AbsorbedEverywhere(m.ty.members.list);
    }
  }

  /**
   A type that is still plain after the maximum-size walk serializes a value to its memory
   image exactly when every leaf behind trailing padding is aligned past it.
   */
  lemma PlainIsMemoryImage(e: Endian, ms: Members, fields: seq<Field>, keyUnbounded: bool)
    requires Natural(ms.list, 0) && Inhabited(ms.list) && Typed(ms.list, fields)
    requires MaxMembers(false, ms, Walk(0, true, true, keyUnbounded)).plain
    ensures InPlace(EncodeFields(e, false, ms.hasAnyKeyMember, ms.list, fields, 0), MemoryFields(e, ms.list, fields, 0))
      <==> Absorbed(false, ms.list)
  {
    hide InPlace, MaxMembers, Natural, Inhabited, Typed, Absorbed, EncodeFields, MemoryFields;
    var w := Walk(0, true, true, keyUnbounded);
    MembersFlags(false, ms, w);
    ImageInPlace(e, ms.hasAnyKeyMember, ms.list, fields);
    if Absorbed(true, ms.list) {
      AbsorbedEverywhere(ms.list);
    }
    if Absorbed(false, ms.list) {
      AllPlacedFrom(ms.list, ms.hasAnyKeyMember, 0);
      if ms.list == [] {
        NothingAbsorbed();
      } else {
        ListPlain(ms, w);
      }
    }
  }

  lemma NothingAbsorbed()
    ensures Absorbed(true, [])
  {
  }

  lemma {:induction false} TightIsAbsorbed(list: seq<Member>)
    requires Tight(list)
    ensures Absorbed(false, list)
    decreases list
  {
    hide AlignUp, Unpadded, Padded, FirstAlign, AbsorbedMember;
    if list != [] {
      TightMemberIsAbsorbed(list[0]);
      TightIsAbsorbed(list[1..]);
    }
  }

  lemma {:induction false} TightMemberIsAbsorbed(m: Member)
    requires TightMember(m)
    ensures AbsorbedMember(false, m) && !Padded(m)
    decreases m
  {
    if m.ty.Nested? {
      TightIsAbsorbed(m.ty.members.list);
    }
  }

  lemma {:induction false} TightEnd(list: seq<Member>, at: nat)
    requires list != [] && AllPlaced(list) && Natural(list, at) && Tight(list)
    ensures LeafEnd(list) == End(list, at)
    decreases list
  {
    hide Placed, AlignUp, Unpadded, Extent, NaturalMember, MemberAlign;
    var m := list[0];
    NotPadded(m);
    if |list| == 1 {
      assert End(list[1..], m.offset + Extent(m)) == m.offset + Extent(m);
    } else {
      TightEnd(list[1..], m.offset + Extent(m));
    }
  }

  /** Without trailing padding in it a plain type's body is its memory image, to the last cell. */
  lemma TightIsMemoryImage(e: Endian, ms: Members, fields: seq<Field>, keyUnbounded: bool)
    requires Natural(ms.list, 0) && Inhabited(ms.list) && Typed(ms.list, fields) && Tight(ms.list)
    requires MaxMembers(false, ms, Walk(0, true, true, keyUnbounded)).plain
    ensures EncodeFields(e, false, ms.hasAnyKeyMember, ms.list, fields, 0) == MemoryFields(e, ms.list, fields, 0)
  {
    TightIsAbsorbed(ms.list);
    PlainIsMemoryImage(e, ms, fields, keyUnbounded);
    MembersFlags(false, ms, Walk(0, true, true, keyUnbounded));
    ImageInPlace(e, ms.hasAnyKeyMember, ms.list, fields);
    var cells, image := EncodeFields(e, false, ms.hasAnyKeyMember, ms.list, fields, 0), MemoryFields(e, ms.list, fields, 0);
    if ms.list != [] {
      hide EncodeFields, MemoryFields, Natural, Typed, Tight, Inhabited, Flat, MaxMembers, Absorbed, LeafEnd, End;
      AllPlacedFrom(ms.list, ms.hasAnyKeyMember, 0);
      TightEnd(ms.list, 0);
      MemoryFieldsLength(e, ms.list, fields, 0);
      ListPlain(ms, Walk(0, true, true, keyUnbounded));
      assert cells + Gaps(0) == cells;
    }
  }

  // ---------------------------------------------------------------------------------------
  // Trailing padding that hides a move, and trailing padding that does not
  // ---------------------------------------------------------------------------------------

  function At(ty: MemberType, count: nat, offset: nat): Member
  {
    Member(ty, count != 1, count, false, 0, false, false, offset)
  }

  /** struct { uint64 a; uint8 b; }, 16 bytes of which 7 are trailing padding. */
  function PaddedType(): Members
  {
    Members([At(Number(Bits64), 1, 0), At(Number(UInt8), 1, 8)], false)
  }

  /** struct { Padded p; uint8 bytes[8]; uint64 n; } */
  function Realigned(): Members
  {
    Members([At(Nested(PaddedType()), 1, 0), At(Number(UInt8), 8, 16), At(Number(Bits64), 1, 24)], false)
  }

  /** struct { Padded p; uint64 n; } */
  function Skipped(): Members
  {
    Members([At(Nested(PaddedType()), 1, 0), At(Number(Bits64), 1, 16)], false)
  }

  lemma PaddedWalk(w: Walk)
    requires w.plain && w.pos == 0
    ensures MaxMember(false, At(Nested(PaddedType()), 1, 0), w) == (w.(pos := 9), 9)
  {
    var list := PaddedType().list;
    var (w1, last1) := MaxMember(false, list[0], w);
    assert w1 == w.(pos := 8);
    assert MaxMember(false, list[1], w1) == (w.(pos := 9), 1);
    assert MaxFields(false, false, list[1..], w1, last1) == MaxFields(false, false, [], w.(pos := 9), 1);
    assert MaxRepeated(false, PaddedType(), 1, w) == MaxRepeated(false, PaddedType(), 0, w.(pos := 9)) == w.(pos := 9);
  }

  lemma RealignedWalk(w: Walk)
    requires w.plain && w.pos == 0
    ensures MaxMembers(false, Realigned(), w) == w.(pos := 32)
  {
    var list := Realigned().list;
    PaddedWalk(w);
    assert MaxMember(false, list[1], w.(pos := 9)) == (w.(pos := 17), 8);
    assert MaxMember(false, list[2], w.(pos := 17)) == (w.(pos := 32), 8);
    assert list[1..][1..] == list[2..] && list[2..][1..] == [];
    assert MaxFields(false, false, list[2..], w.(pos := 17), 8) == MaxFields(false, false, [], w.(pos := 32), 8);
    assert MaxFields(false, false, list[1..], w.(pos := 9), 9) == MaxFields(false, false, list[2..], w.(pos := 17), 8);
  }

  lemma SkippedWalk(w: Walk)
    requires w.plain && w.pos == 0
    ensures MaxMembers(false, Skipped(), w) == w.(pos := 24)
  {
    var list := Skipped().list;
    PaddedWalk(w);
    assert MaxMember(false, list[1], w.(pos := 9)) == (w.(pos := 24), 8);
    assert list[1..][1..] == [];
    assert MaxFields(false, false, list[1..], w.(pos := 9), 9) == MaxFields(false, false, [], w.(pos := 24), 8);
  }

  lemma PaddedList()
    ensures var list := PaddedType().list;
      && TypeAlign(list) == 8 && End(list, 0) == LeafEnd(list) == 9
      && Natural(list, 0) && Inhabited(list) && Absorbed(false, list)
  {
    var list := PaddedType().list;
    assert list[1..][1..] == [];
    assert Repeat(1, 8) == 8 + Repeat(0, 8) && Repeat(1, 1) == 1 + Repeat(0, 1);
    assert Extent(list[0]) == 8 && Extent(list[1]) == 1;
    assert TypeAlign(list[1..]) == 1;
    assert End(list[1..], 8) == End([], 9) == 9;
    assert Natural([], 9) && Natural(list[1..], 8);
    assert Inhabited(list[1..]);
    assert Absorbed(false, []) && Absorbed(false, list[1..]);
    assert LeafEnd(list) == LeafEnd(list[1..]) == 9;
  }

  lemma PaddedLayout(m: Member)
    requires m == At(Nested(PaddedType()), 1, 0)
    ensures MemberAlign(m) == 8 && Unpadded(m) == 9 && Extent(m) == ElementSize(m) == 16 && Padded(m)
    ensures NaturalMember(m) && InhabitedMember(m) && AbsorbedMember(false, m)
  {
    PaddedList();
    hide TypeAlign, End, LeafEnd, Natural, Inhabited, Absorbed;
    assert Repeat(1, 16) == 16 + Repeat(0, 16);
  }

  /** The members behind the padded one. */
  lemma RealignedTail()
    ensures Natural(Realigned().list[1..], 16) && Inhabited(Realigned().list[1..])
  {
    var list := Realigned().list[1..];
    assert Repeat(1, 8) == 8 + Repeat(0, 8);
    RepeatIsAfterNumbers(1, 8);
    assert Extent(list[0]) == 8 && Extent(list[1]) == 8;
    assert list[1..][1..] == [];
    assert Natural([], 32) && Natural(list[1..], 24);
    assert Inhabited([]) && Inhabited(list[1..]);
  }

  lemma RealignedLayout()
    ensures Natural(Realigned().list, 0) && Inhabited(Realigned().list)
  {
    PaddedLayout(Realigned().list[0]);
    RealignedTail();
    hide PaddedType, Padded, AbsorbedMember, NaturalMember, InhabitedMember, MemberAlign, Extent;
  }

  lemma RealignedMoves()
    ensures !Absorbed(false, Realigned().list)
  {
    PaddedLayout(Realigned().list[0]);
    hide PaddedType, Padded;
  }

  lemma SkippedLayout()
    ensures Natural(Skipped().list, 0) && Inhabited(Skipped().list) && Absorbed(false, Skipped().list) && !Tight(Skipped().list)
  {
    var list := Skipped().list;
    PaddedLayout(list[0]);
    assert Repeat(1, 8) == 8 + Repeat(0, 8);
    assert Extent(list[1]) == 8;
    assert list[1..][1..] == [];
    assert Natural([], 24) && Natural(list[1..], 16);
    assert Inhabited([]) && Inhabited(list[1..]) && Absorbed(false, list[1..]);
    assert !TightMember(list[0]);
  }

  /**
   The walk compares only the end of the last member. Here both layouts end at 32, so the type
   stays plain, although the array is written at 9 and lies in memory at 16.
   */
  lemma TrailingPaddingHidesAMove(e: Endian, fields: seq<Field>)
    requires Typed(Realigned().list, fields)
    ensures Natural(Realigned().list, 0) && Inhabited(Realigned().list)
    ensures MaxMembers(false, Realigned(), Walk(0, true, true, false)).plain
    ensures !InPlace(EncodeFields(e, false, false, Realigned().list, fields, 0), MemoryFields(e, Realigned().list, fields, 0))
  {
    RealignedWalk(Walk(0, true, true, false));
    RealignedLayout();
    RealignedMoves();
    hide InPlace, Natural, Inhabited, Absorbed, Typed, EncodeFields, MemoryFields, MaxMembers;
    PlainIsMemoryImage(e, Realigned(), fields, false);
  }

  /** Here what follows the padding is aligned past it, and the promise is kept. */
  lemma TrailingPaddingMayBeAbsorbed(e: Endian, fields: seq<Field>)
    requires Typed(Skipped().list, fields)
    ensures Natural(Skipped().list, 0) && Inhabited(Skipped().list) && !Tight(Skipped().list)
    ensures MaxMembers(false, Skipped(), Walk(0, true, true, false)).plain
    ensures InPlace(EncodeFields(e, false, false, Skipped().list, fields, 0), MemoryFields(e, Skipped().list, fields, 0))
  {
    SkippedWalk(Walk(0, true, true, false));
    SkippedLayout();
    hide InPlace, Natural, Inhabited, Absorbed, Typed, Tight, EncodeFields, MemoryFields, MaxMembers;
    PlainIsMemoryImage(e, Skipped(), fields, false);
  }
}
