/**
 The per-type maximum size walk, with the flags it lowers on its way, and what its results
 promise about every value of the type.
 */
module MaxSize {
  import opened Wire
  import opened Schema
  import opened Encoding
  import opened SizeEstimate

  /** The walk's position and the three flags it shares with the type support. */
  datatype Walk = Walk(pos: nat, bounded: bool, plain: bool, keyUnbounded: bool)

  function MaxText(wide: bool, bound: nat, n: nat, pos: nat): (p: nat)
    ensures p >= pos
    decreases n
  {
    if n == 0 then pos
    else MaxText(wide, bound, n - 1, AfterWord(pos) + (if wide then 4 * bound else bound + 1))
  }

  /** The length word of a sequence, and the flags it lowers. */
  function EnterMember(m: Member, w: Walk): (r: Walk)
    ensures r.pos >= w.pos
  {
    if !m.isArray then w
    else
      var w1 := if m.arraySize == 0 then w.(bounded := false) else w;
      if m.IsSequence() then w1.(plain := false, pos := AfterWord(w1.pos)) else w1
  }

  /** Returns the walk behind the member and the size it recorded as the last member's. */
  function MaxMember(key: bool, m: Member, w0: Walk): (r: (Walk, nat))
    ensures r.0.pos >= w0.pos
    decreases m
  {
    var w := EnterMember(m, w0);
    var n := m.Count();
    match m.ty
    case Number(s) => (w.(pos := AfterNumbers(s.Size(), n, w.pos)), AfterNumbers(s.Size(), n, 0))
    case Text =>
      (Walk(MaxText(false, m.stringUpperBound, n, w.pos), false, false, w.keyUnbounded || key), 0)
    case WideText =>
      (Walk(MaxText(true, m.stringUpperBound, n, w.pos), false, false, w.keyUnbounded || key), 0)
    case Nested(ms) =>
      var r := MaxRepeated(key, ms, n, w);
      (r, r.pos - w.pos)
  }

  function MaxRepeated(key: bool, ms: Members, n: nat, w: Walk): (r: Walk)
    ensures r.pos >= w.pos
    decreases ms, 1, n
  {
    if n == 0 then w else MaxRepeated(key, ms, n - 1, MaxMembers(key, ms, w))
  }

  function MaxFields(key: bool, hasKey: bool, list: seq<Member>, w: Walk, last: nat): (r: (Walk, nat))
    ensures r.0.pos >= w.pos
    decreases list
  {
    if list == [] then (w, last)
    else
      var (w1, last1) := if key && list[0].SkippedInKey(hasKey) then (w, last) else MaxMember(key, list[0], w);
      MaxFields(key, hasKey, list[1..], w1, last1)
  }

  /** A message type: its members, then the comparison of the last member's end with the size. */
  function MaxMembers(key: bool, ms: Members, w: Walk): (r: Walk)
    ensures r.pos >= w.pos
    decreases ms, 0, 0
  {
    var (w1, last) := MaxFields(key, ms.hasAnyKeyMember, ms.list, w, 0);
    if ms.list != [] && last > 0 && w1.plain then
      w1.(plain := ms.list[|ms.list| - 1].offset + last == w1.pos - w.pos)
    else w1
  }

  // ---------------------------------------------------------------------------------------
  // Bounds declared by a type, and values that respect them
  // ---------------------------------------------------------------------------------------

  /** The walk meets neither a string nor an unbounded sequence. */
  predicate FiniteMember(key: bool, m: Member)
    decreases m
  {
    && (m.isArray ==> m.arraySize != 0)
    && !m.ty.Text? && !m.ty.WideText?
    && (m.ty.Nested? ==> Finite(key, m.ty.members.hasAnyKeyMember, m.ty.members.list))
  }

  predicate Finite(key: bool, hasKey: bool, list: seq<Member>)
    decreases list
  {
    list != [] ==>
      && (!(key && list[0].SkippedInKey(hasKey)) ==> FiniteMember(key, list[0]))
      && Finite(key, hasKey, list[1..])
  }

  /** Every sequence and every string the walk meets declares an upper bound. */
  predicate CappedMember(key: bool, m: Member)
    decreases m
  {
    && (m.isArray ==> m.arraySize != 0)
    && (m.ty.Text? || m.ty.WideText? ==> m.stringUpperBound != 0)
    && (m.ty.Nested? ==> Capped(key, m.ty.members.hasAnyKeyMember, m.ty.members.list))
  }

  predicate Capped(key: bool, hasKey: bool, list: seq<Member>)
    decreases list
  {
    list != [] ==>
      && (!(key && list[0].SkippedInKey(hasKey)) ==> CappedMember(key, list[0]))
      && Capped(key, hasKey, list[1..])
  }

  /** The value stays within the bounds its type declares. */
  predicate WithinElement(key: bool, m: Member, v: Element)
    decreases m, 0, 0
  {
    match m.ty
    case Number(_) => true
    case Text => m.stringUpperBound != 0 && v.Chars? ==> |v.chars| <= m.stringUpperBound
    case WideText => m.stringUpperBound != 0 && v.WideChars? ==> |v.wide| <= m.stringUpperBound
    case Nested(ms) => v.Record? ==> Within(key, ms.hasAnyKeyMember, ms.list, v.fields)
  }

  predicate WithinElements(key: bool, m: Member, f: Field)
    decreases m, 1, |f|
  {
    f == [] || (WithinElement(key, m, f[0]) && WithinElements(key, m, f[1..]))
  }

  predicate WithinField(key: bool, m: Member, f: Field)
    decreases m, 2, 0
  {
    (m.isArray && m.isUpperBound && m.arraySize != 0 ==> |f| <= m.arraySize) && WithinElements(key, m, f)
  }

  /** With `key` it is only asked of the members that a key walk visits. */
  predicate Within(key: bool, hasKey: bool, list: seq<Member>, fields: seq<Field>)
    decreases list
  {
    list != [] && fields != [] ==>
      && (!(key && list[0].SkippedInKey(hasKey)) ==> WithinField(key, list[0], fields[0]))
      && Within(key, hasKey, list[1..], fields[1..])
  }

  // ---------------------------------------------------------------------------------------
  // The bound
  // ---------------------------------------------------------------------------------------

  /** Where a walk over strings of this bound is after the next. */
  function NextText(wide: bool, bound: nat, p: nat): nat
  {
    AfterWord(p) + if wide then 4 * bound else bound + 1
  }

  lemma TextCovers(lang: Lang, key: bool, m: Member, v: Element, p: nat, q: nat)
    requires m.ty.Text? || m.ty.WideText?
    requires m.stringUpperBound != 0 && TypedElement(m.ty, v) && WithinElement(key, m, v) && q <= p
    ensures EstimateElement(lang, key, m.ty, v, q) <= NextText(m.ty.WideText?, m.stringUpperBound, p)
  {
    hide AfterWord;
    AfterMonotone(4, 1, q, p);
  }

  /** Walking further from further ahead never ends behind. */
  lemma {:induction false} MaxTextCovers(lang: Lang, key: bool, m: Member, f: Field, n: nat, p: nat, q: nat)
    requires m.ty.Text? || m.ty.WideText?
    requires m.stringUpperBound != 0 && TypedElements(m.ty, f) && WithinElements(key, m, f)
    requires |f| <= n && q <= p
    ensures EstimateElements(lang, key, m.ty, f, q) <= MaxText(m.ty.WideText?, m.stringUpperBound, n, p)
    decreases n
  {
    hide AfterWord, EstimateElement, TypedElement, WithinElement;
    var next := NextText(m.ty.WideText?, m.stringUpperBound, p);
    if f != [] {
      TextCovers(lang, key, m, f[0], p, q);
      MaxTextCovers(lang, key, m, f[1..], n - 1, next, EstimateElement(lang, key, m.ty, f[0], q));
    } else if n > 0 {
      MaxTextCovers(lang, key, m, f, n - 1, next, q);
    }
  }

  lemma {:induction false} RepeatedCovers(lang: Lang, key: bool, m: Member, f: Field, n: nat, w: Walk, q: nat)
    requires m.ty.Nested? && Capped(key, m.ty.members.hasAnyKeyMember, m.ty.members.list)
    requires TypedElements(m.ty, f) && WithinElements(key, m, f)
    requires |f| <= n && q <= w.pos
    ensures EstimateElements(lang, key, m.ty, f, q) <= MaxRepeated(key, m.ty.members, n, w).pos
    decreases m, 0, n
  {
    hide EstimateFields, MaxMembers;
    if f != [] {
      var ms := m.ty.members;
      assert TypedElement(m.ty, f[0]) && WithinElement(key, m, f[0]);
      MembersCover(lang, key, ms, f[0].fields, w, q);
      RepeatedCovers(lang, key, m, f[1..], n - 1, MaxMembers(key, ms, w), EstimateElement(lang, key, m.ty, f[0], q));
    }
  }

  lemma NumbersCover(lang: Lang, key: bool, m: Member, f: Field, w: Walk, q: nat)
    requires m.ty.Number? && q <= w.pos && CappedMember(key, m)
    requires TypedField(m, f) && WithinField(key, m, f)
    ensures EstimateField(lang, key, m, f, q) <= MaxMember(key, m, w).0.pos
  {
    hide AlignUp;
    AfterMonotone(4, 1, q, w.pos);
    var start := if m.IsSequence() then AfterWord(q) else q;
    AfterMonotone(m.ty.scalar.Size(), |f|, start, EnterMember(m, w).pos);
  }

  lemma TextsCover(lang: Lang, key: bool, m: Member, f: Field, w: Walk, q: nat)
    requires (m.ty.Text? || m.ty.WideText?) && q <= w.pos && CappedMember(key, m)
    requires TypedField(m, f) && WithinField(key, m, f)
    ensures EstimateField(lang, key, m, f, q) <= MaxMember(key, m, w).0.pos
  {
    hide AlignUp, AfterWord, MaxText, EstimateElements, TypedElements, WithinElements;
    AfterMonotone(4, 1, q, w.pos);
    var start := if m.IsSequence() then AfterWord(q) else q;
    MaxTextCovers(lang, key, m, f, m.Count(), EnterMember(m, w).pos, start);
  }

  lemma {:induction false} MemberCovers(lang: Lang, key: bool, m: Member, f: Field, w: Walk, q: nat)
    requires TypedField(m, f) && WithinField(key, m, f) && CappedMember(key, m) && q <= w.pos
    ensures EstimateField(lang, key, m, f, q) <= MaxMember(key, m, w).0.pos
    decreases m, 1, 0
  {
    if m.ty.Number? {
      NumbersCover(lang, key, m, f, w, q);
    } else if !m.ty.Nested? {
      TextsCover(lang, key, m, f, w, q);
    } else {
      hide AlignUp, AfterWord, MaxRepeated, EstimateElements, TypedElements, WithinElements, Capped;
      AfterMonotone(4, 1, q, w.pos);
      var start := if m.IsSequence() then AfterWord(q) else q;
      RepeatedCovers(lang, key, m, f, m.Count(), EnterMember(m, w), start);
    }
  }

  lemma {:induction false} FieldsCover(lang: Lang, key: bool, hasKey: bool, list: seq<Member>, fields: seq<Field>, w: Walk, last: nat, q: nat)
    requires Typed(list, fields) && Within(key, hasKey, list, fields) && Capped(key, hasKey, list) && q <= w.pos
    ensures EstimateFields(lang, key, hasKey, list, fields, q) <= MaxFields(key, hasKey, list, w, last).0.pos
    decreases list
  {
    hide EstimateField, MaxMember, TypedField, WithinField, CappedMember;
    if list != [] {
      var m := list[0];
      if key && m.SkippedInKey(hasKey) {
        FieldsCover(lang, key, hasKey, list[1..], fields[1..], w, last, q);
      } else {
        MemberCovers(lang, key, m, fields[0], w, q);
        var (w1, last1) := MaxMember(key, m, w);
        FieldsCover(lang, key, hasKey, list[1..], fields[1..], w1, last1, EstimateField(lang, key, m, fields[0], q));
      }
    }
  }

  /**
   When every sequence and string met declares a bound, the maximum computed from `w.pos` is at
   least the estimate of every value within its bounds, from every position up to `w.pos`, for
   C and C++ members alike, over all members or over the key.
   */
  lemma {:induction false} MembersCover(lang: Lang, key: bool, ms: Members, fields: seq<Field>, w: Walk, q: nat)
    requires Typed(ms.list, fields) && Within(key, ms.hasAnyKeyMember, ms.list, fields)
    requires Capped(key, ms.hasAnyKeyMember, ms.list) && q <= w.pos
    ensures EstimateFields(lang, key, ms.hasAnyKeyMember, ms.list, fields, q) <= MaxMembers(key, ms, w).pos
    decreases ms
  {
    FieldsCover(lang, key, ms.hasAnyKeyMember, ms.list, fields, w, 0, q);
  }

  // ---------------------------------------------------------------------------------------
  // The bound is reached
  // ---------------------------------------------------------------------------------------

  predicate FullestElement(key: bool, m: Member, v: Element)
    decreases m, 0, 0
  {
    match m.ty
    case Number(_) => true
    case Text => v.Chars? && |v.chars| == m.stringUpperBound
    case WideText => v.WideChars? && |v.wide| == m.stringUpperBound
    case Nested(ms) => v.Record? && Fullest(key, ms.hasAnyKeyMember, ms.list, v.fields)
  }

  predicate FullestElements(key: bool, m: Member, f: Field)
    decreases m, 1, |f|
  {
    f != [] ==> FullestElement(key, m, f[0]) && FullestElements(key, m, f[1..])
  }

  predicate FullestField(key: bool, m: Member, f: Field)
    decreases m, 2, 0
  {
    |f| == m.Count() && FullestElements(key, m, f)
  }

  /** Every string and sequence is as long as its bound, and empty where it has none. */
  predicate Fullest(key: bool, hasKey: bool, list: seq<Member>, fields: seq<Field>)
    decreases list
  {
    && |fields| == |list|
    && (list != [] ==>
          && (!(key && list[0].SkippedInKey(hasKey)) ==> FullestField(key, list[0], fields[0]))
          && Fullest(key, hasKey, list[1..], fields[1..]))
  }

  lemma {:induction false} FullestTexts(lang: Lang, key: bool, m: Member, f: Field, pos: nat)
    requires (m.ty.Text? || m.ty.WideText?) && FullestElements(key, m, f)
    ensures EstimateElements(lang, key, m.ty, f, pos) == MaxText(m.ty.WideText?, m.stringUpperBound, |f|, pos)
    decreases |f|
  {
    hide AfterWord;
    if f != [] {
      assert EstimateElement(lang, key, m.ty, f[0], pos) == NextText(m.ty.WideText?, m.stringUpperBound, pos);
      FullestTexts(lang, key, m, f[1..], NextText(m.ty.WideText?, m.stringUpperBound, pos));
    }
  }

  lemma {:induction false} FullestRepeated(lang: Lang, key: bool, m: Member, f: Field, w: Walk)
    requires m.ty.Nested? && FullestElements(key, m, f)
    requires lang == C || Capped(key, m.ty.members.hasAnyKeyMember, m.ty.members.list)
    ensures EstimateElements(lang, key, m.ty, f, w.pos) == MaxRepeated(key, m.ty.members, |f|, w).pos
    decreases m, 0, |f|
  {
    hide EstimateFields, MaxMembers, Fullest, Capped;
    if f != [] {
      var ms := m.ty.members;
      assert FullestElement(key, m, f[0]);
      FullestReaches(lang, key, ms, f[0].fields, w);
      FullestRepeated(lang, key, m, f[1..], MaxMembers(key, ms, w));
    }
  }

  lemma {:induction false} FullestMember(lang: Lang, key: bool, m: Member, f: Field, w: Walk)
    requires FullestField(key, m, f) && (lang == C || CappedMember(key, m))
    ensures EstimateField(lang, key, m, f, w.pos) == MaxMember(key, m, w).0.pos
    decreases m, 1, 0
  {
    var start := EnterMember(m, w);
    if m.ty.Number? {
      hide AlignUp, AfterWord, FullestElements;
      assert f == [] ==> m.arraySize == 0;
      NoOctets(start.pos);
    } else if m.ty.Nested? {
      hide AfterWord, EstimateElements, MaxRepeated, FullestElements, Capped;
      FullestRepeated(lang, key, m, f, start);
    } else {
      hide AfterWord, EstimateElements, MaxText, FullestElements;
      FullestTexts(lang, key, m, f, start.pos);
    }
  }

  lemma NoOctets(pos: nat)
    ensures AfterNumbers(1, 0, pos) == pos
  {
  }

  lemma {:induction false} FullestFields(lang: Lang, key: bool, hasKey: bool, list: seq<Member>, fields: seq<Field>, w: Walk, last: nat)
    requires Fullest(key, hasKey, list, fields) && (lang == C || Capped(key, hasKey, list))
    ensures EstimateFields(lang, key, hasKey, list, fields, w.pos) == MaxFields(key, hasKey, list, w, last).0.pos
    decreases list
  {
    hide EstimateField, MaxMember, FullestField, CappedMember;
    if list != [] {
      var m := list[0];
      if key && m.SkippedInKey(hasKey) {
        FullestFields(lang, key, hasKey, list[1..], fields[1..], w, last);
      } else {
        FullestMember(lang, key, m, fields[0], w);
        var (w1, last1) := MaxMember(key, m, w);
        FullestFields(lang, key, hasKey, list[1..], fields[1..], w1, last1);
      }
    }
  }

  /**
   From the same position the estimate of a value as long as its bounds is the maximum: for C
   members always, for C++ members whenever every sequence and string met declares a bound.
   */
  lemma {:induction false} FullestReaches(lang: Lang, key: bool, ms: Members, fields: seq<Field>, w: Walk)
    requires Fullest(key, ms.hasAnyKeyMember, ms.list, fields)
    requires lang == C || Capped(key, ms.hasAnyKeyMember, ms.list)
    ensures EstimateFields(lang, key, ms.hasAnyKeyMember, ms.list, fields, w.pos) == MaxMembers(key, ms, w).pos
    decreases ms
  {
    hide EstimateFields, MaxFields, Fullest, Capped;
    FullestFields(lang, key, ms.hasAnyKeyMember, ms.list, fields, w, 0);
  }

  function LargestElement(m: Member): Element
    decreases m, 0, 0
  {
    match m.ty
    case Number(_) => Bits(0)
    case Text => Chars(seq(m.stringUpperBound, _ => 1))
    case WideText => WideChars(seq(m.stringUpperBound, _ => 1))
    case Nested(ms) => Record(Largest(ms.list))
  }

  function Copied(v: Element, n: nat): (f: Field)
    ensures |f| == n
  {
    if n == 0 then [] else [v] + Copied(v, n - 1)
  }

  /** A value of the type that is as long as its bounds. */
  function Largest(list: seq<Member>): (fields: seq<Field>)
    ensures |fields| == |list|
    decreases list
  {
    if list == [] then [] else [Copied(LargestElement(list[0]), list[0].Count())] + Largest(list[1..])
  }

  lemma {:induction false} CopiedFits(key: bool, m: Member, v: Element, n: nat)
    requires TypedElement(m.ty, v) && WithinElement(key, m, v) && FullestElement(key, m, v) && v != NullChars
    ensures TypedElements(m.ty, Copied(v, n)) && WithinElements(key, m, Copied(v, n)) && FullestElements(key, m, Copied(v, n))
    ensures NullChars !in Copied(v, n)
    decreases n
  {
    hide TypedElement, WithinElement, FullestElement;
    if n > 0 {
      CopiedFits(key, m, v, n - 1);
      assert Copied(v, n)[1..] == Copied(v, n - 1);
    }
  }

  lemma {:induction false} LargestElementFits(key: bool, m: Member)
    ensures var v := LargestElement(m);
      TypedElement(m.ty, v) && WithinElement(key, m, v) && FullestElement(key, m, v) && v != NullChars
    decreases m
  {
    if m.ty.Number? {
      assert Pow256(m.ty.scalar.Size()) > 0;
    } else if m.ty.Nested? {
      LargestFits(key, m.ty.members.hasAnyKeyMember, m.ty.members.list);
    }
  }

  /** It is a value of the type, within the bounds. */
  lemma {:induction false} LargestFits(key: bool, hasKey: bool, list: seq<Member>)
    ensures Typed(list, Largest(list)) && Within(key, hasKey, list, Largest(list)) && Fullest(key, hasKey, list, Largest(list))
    decreases list
  {
    if list != [] {
      var m := list[0];
      LargestElementFits(key, m);
      CopiedFits(key, m, LargestElement(m), m.Count());
      hide LargestElement, TypedElements, WithinElements, FullestElements;
      LargestFits(key, hasKey, list[1..]);
      assert Largest(list)[1..] == Largest(list[1..]);
    }
  }

  lemma {:induction false} FlatElementsFullest(key: bool, m: Member, f: Field)
    requires FlatMember(key, m) && TypedElements(m.ty, f)
    ensures FullestElements(key, m, f)
    decreases m, 0, |f|
  {
    if f != [] {
      if m.ty.Nested? {
        FlatIsFullest(key, m.ty.members.hasAnyKeyMember, m.ty.members.list, f[0].fields);
      }
      FlatElementsFullest(key, m, f[1..]);
    }
  }

  lemma {:induction false} FlatFieldFullest(key: bool, m: Member, f: Field)
    requires FlatMember(key, m) && TypedField(m, f)
    ensures FullestField(key, m, f)
    decreases m, 1, 0
  {
    FlatElementsFullest(key, m, f);
  }

  /** Without strings and sequences every value is as long as any other. */
  lemma {:induction false} FlatIsFullest(key: bool, hasKey: bool, list: seq<Member>, fields: seq<Field>)
    requires Flat(key, hasKey, list) && Typed(list, fields)
    ensures Fullest(key, hasKey, list, fields)
    decreases list
  {
    hide FullestField, FlatMember, TypedField;
    if list != [] {
      if !(key && list[0].SkippedInKey(hasKey)) {
        FlatFieldFullest(key, list[0], fields[0]);
      }
      FlatIsFullest(key, hasKey, list[1..], fields[1..]);
    }
  }

  // ---------------------------------------------------------------------------------------
  // The flags
  // ---------------------------------------------------------------------------------------

  /** Neither a string nor a sequence, bounded or not, anywhere: fixed size, fixed layout. */
  predicate FlatMember(key: bool, m: Member)
    decreases m
  {
    && !m.IsSequence()
    && !m.ty.Text? && !m.ty.WideText?
    && (m.ty.Nested? ==> Flat(key, m.ty.members.hasAnyKeyMember, m.ty.members.list))
  }

  predicate Flat(key: bool, hasKey: bool, list: seq<Member>)
    decreases list
  {
    list != [] ==>
      && (!(key && list[0].SkippedInKey(hasKey)) ==> FlatMember(key, list[0]))
      && Flat(key, hasKey, list[1..])
  }

  /** No unbounded sequence is met; strings may be. */
  predicate SizedMember(key: bool, m: Member)
    decreases m
  {
    && (m.isArray ==> m.arraySize != 0)
    && (m.ty.Nested? ==> Sized(key, m.ty.members.hasAnyKeyMember, m.ty.members.list))
  }

  predicate Sized(key: bool, hasKey: bool, list: seq<Member>)
    decreases list
  {
    list != [] ==>
      && (!(key && list[0].SkippedInKey(hasKey)) ==> SizedMember(key, list[0]))
      && Sized(key, hasKey, list[1..])
  }

  /** How a part of the walk, from `w` to `r`, treats the flags. */
  ghost predicate FlagStep(key: bool, w: Walk, r: Walk, finite: bool, flat: bool, sized: bool)
  {
    && (r.bounded <==> w.bounded && finite)
    && (r.plain ==> w.plain && flat)
    && (w.keyUnbounded ==> r.keyUnbounded)
    && (finite && r.keyUnbounded ==> w.keyUnbounded)
    && (key && sized && !r.keyUnbounded ==> finite)
  }

  lemma {:induction false} RepeatedFlags(key: bool, ms: Members, n: nat, w: Walk)
    requires n > 0
    ensures FlagStep(key, w, MaxRepeated(key, ms, n, w),
                     Finite(key, ms.hasAnyKeyMember, ms.list), Flat(key, ms.hasAnyKeyMember, ms.list), Sized(key, ms.hasAnyKeyMember, ms.list))
    decreases ms, 1, n
  {
    hide MaxMembers, Finite, Flat, Sized;
    MembersFlags(key, ms, w);
    var w1 := MaxMembers(key, ms, w);
    if n > 1 {
      RepeatedFlags(key, ms, n - 1, w1);
    } else {
      assert MaxRepeated(key, ms, n, w) == MaxRepeated(key, ms, 0, w1) == w1;
    }
  }

  lemma {:induction false} MemberFlags(key: bool, m: Member, w: Walk)
    ensures FlagStep(key, w, MaxMember(key, m, w).0, FiniteMember(key, m), FlatMember(key, m), SizedMember(key, m))
    decreases m
  {
    if m.ty.Nested? && m.Count() > 0 {
      hide Finite, Flat, Sized, MaxRepeated;
      RepeatedFlags(key, m.ty.members, m.Count(), EnterMember(m, w));
    }
  }

  lemma {:induction false} FieldsFlags(key: bool, hasKey: bool, list: seq<Member>, w: Walk, last: nat)
    ensures FlagStep(key, w, MaxFields(key, hasKey, list, w, last).0,
                     Finite(key, hasKey, list), Flat(key, hasKey, list), Sized(key, hasKey, list))
    decreases list
  {
    hide FiniteMember, FlatMember, SizedMember, MaxMember;
    if list != [] {
      var m := list[0];
      if key && m.SkippedInKey(hasKey) {
        FieldsFlags(key, hasKey, list[1..], w, last);
      } else {
        MemberFlags(key, m, w);
        var (w1, last1) := MaxMember(key, m, w);
        FieldsFlags(key, hasKey, list[1..], w1, last1);
      }
    }
  }

  /**
   max_size_bound_ survives the walk exactly when it meets no string and no unbounded sequence;
   is_plain_ survives only if it meets no string and no sequence at all; and a key walk that
   meets no unbounded sequence and reports no unbounded key meets no string either.
   */
  lemma MembersFlags(key: bool, ms: Members, w: Walk)
    ensures FlagStep(key, w, MaxMembers(key, ms, w),
                     Finite(key, ms.hasAnyKeyMember, ms.list), Flat(key, ms.hasAnyKeyMember, ms.list), Sized(key, ms.hasAnyKeyMember, ms.list))
    decreases ms, 0, 0
  {
    FieldsFlags(key, ms.hasAnyKeyMember, ms.list, w, 0);
  }

  predicate MemberMeetsText(key: bool, m: Member)
    decreases m
  {
    || m.ty.Text? || m.ty.WideText?
    || (m.ty.Nested? && !(m.isArray && m.arraySize == 0) && MeetsText(key, m.ty.members.hasAnyKeyMember, m.ty.members.list))
  }

  /** The walk meets a string; into an unbounded sequence of messages it does not look. */
  predicate MeetsText(key: bool, hasKey: bool, list: seq<Member>)
    decreases list
  {
    && list != []
    && ((!(key && list[0].SkippedInKey(hasKey)) && MemberMeetsText(key, list[0])) || MeetsText(key, hasKey, list[1..]))
  }

  lemma {:induction false} RepeatedReports(key: bool, ms: Members, n: nat, w: Walk)
    requires n > 0
    ensures MaxRepeated(key, ms, n, w).keyUnbounded <==> w.keyUnbounded || (key && MeetsText(key, ms.hasAnyKeyMember, ms.list))
    decreases ms, 1, n
  {
    hide MaxMembers, MeetsText;
    KeyReports(key, ms, w);
    if n > 1 {
      RepeatedReports(key, ms, n - 1, MaxMembers(key, ms, w));
    } else {
      assert MaxRepeated(key, ms, n, w) == MaxRepeated(key, ms, 0, MaxMembers(key, ms, w));
    }
  }

  lemma {:induction false} MemberReports(key: bool, m: Member, w: Walk)
    ensures MaxMember(key, m, w).0.keyUnbounded <==> w.keyUnbounded || (key && MemberMeetsText(key, m))
    decreases m
  {
    if m.ty.Nested? && m.Count() > 0 {
      hide MeetsText, MaxRepeated;
      RepeatedReports(key, m.ty.members, m.Count(), EnterMember(m, w));
    }
  }

  lemma {:induction false} FieldsReport(key: bool, hasKey: bool, list: seq<Member>, w: Walk, last: nat)
    ensures MaxFields(key, hasKey, list, w, last).0.keyUnbounded <==> w.keyUnbounded || (key && MeetsText(key, hasKey, list))
    decreases list
  {
    hide MemberMeetsText, MaxMember;
    if list != [] {
      if key && list[0].SkippedInKey(hasKey) {
        FieldsReport(key, hasKey, list[1..], w, last);
      } else {
        MemberReports(key, list[0], w);
        var (w1, last1) := MaxMember(key, list[0], w);
        FieldsReport(key, hasKey, list[1..], w1, last1);
      }
    }
  }

  /** A key is reported as unbounded exactly when its walk meets a string. */
  lemma KeyReports(key: bool, ms: Members, w: Walk)
    ensures MaxMembers(key, ms, w).keyUnbounded <==> w.keyUnbounded || (key && MeetsText(key, ms.hasAnyKeyMember, ms.list))
    decreases ms, 0, 0
  {
    FieldsReport(key, ms.hasAnyKeyMember, ms.list, w, 0);
  }

  lemma {:induction false} FiniteInKey(hasKey: bool, list: seq<Member>)
    requires Finite(false, hasKey, list)
    ensures Finite(true, hasKey, list)
    decreases list
  {
    if list != [] {
      FiniteMemberInKey(list[0]);
      FiniteInKey(hasKey, list[1..]);
    }
  }

  lemma {:induction false} FiniteMemberInKey(m: Member)
    requires FiniteMember(false, m)
    ensures FiniteMember(true, m)
    decreases m
  {
    if m.ty.Nested? {
      FiniteInKey(m.ty.members.hasAnyKeyMember, m.ty.members.list);
    }
  }

  lemma {:induction false} MemberKinds(key: bool, m: Member)
    ensures FlatMember(key, m) ==> FiniteMember(key, m)
    ensures FiniteMember(key, m) ==> CappedMember(key, m) && SizedMember(key, m)
    decreases m
  {
    if m.ty.Nested? {
      Kinds(key, m.ty.members.hasAnyKeyMember, m.ty.members.list);
    }
  }

  lemma {:induction false} Kinds(key: bool, hasKey: bool, list: seq<Member>)
    ensures Flat(key, hasKey, list) ==> Finite(key, hasKey, list)
    ensures Finite(key, hasKey, list) ==> Capped(key, hasKey, list) && Sized(key, hasKey, list)
    decreases list
  {
    if list != [] {
      MemberKinds(key, list[0]);
      Kinds(key, hasKey, list[1..]);
    }
  }

  // ---------------------------------------------------------------------------------------
  // Values that cannot leave their bounds, and values that are accepted
  // ---------------------------------------------------------------------------------------

  /** Numbers and fixed arrays have no length to exceed a bound with. */
  lemma {:induction false} FlatElementsFit(lang: Lang, key: bool, m: Member, f: Field)
    requires FlatMember(key, m) && TypedElements(m.ty, f)
    ensures WithinElements(key, m, f) && MeasuredElements(lang, key, m.ty, f)
    decreases m, 0, |f|
  {
    if f != [] {
      if m.ty.Nested? {
        FlatFits(lang, key, m.ty.members.hasAnyKeyMember, m.ty.members.list, f[0].fields);
      }
      FlatElementsFit(lang, key, m, f[1..]);
    }
  }

  lemma {:induction false} FlatFits(lang: Lang, key: bool, hasKey: bool, list: seq<Member>, fields: seq<Field>)
    requires Flat(key, hasKey, list) && Typed(list, fields)
    ensures Within(key, hasKey, list, fields) && Measured(lang, key, hasKey, list, fields)
    decreases list
  {
    if list != [] {
      if !(key && list[0].SkippedInKey(hasKey)) {
        FlatFieldFits(lang, key, list[0], fields[0]);
      }
      FlatFits(lang, key, hasKey, list[1..], fields[1..]);
    }
  }

  lemma {:induction false} FlatFieldFits(lang: Lang, key: bool, m: Member, f: Field)
    requires FlatMember(key, m) && TypedField(m, f)
    ensures WithinField(key, m, f) && MeasuredField(lang, key, m, f)
    decreases m, 1, 0
  {
    FlatElementsFit(lang, key, m, f);
  }

  /** A value within the bounds of its type is never refused. */
  lemma {:induction false} WithinAccepted(lang: Lang, key: bool, hasKey: bool, list: seq<Member>, fields: seq<Field>)
    requires Within(key, hasKey, list, fields)
    ensures Accepts(lang, key, hasKey, list, fields)
    decreases list
  {
    if list != [] && fields != [] {
      if !(key && list[0].SkippedInKey(hasKey)) {
        WithinFieldAccepted(lang, key, list[0], fields[0]);
      }
      WithinAccepted(lang, key, hasKey, list[1..], fields[1..]);
    }
  }

  lemma {:induction false} WithinFieldAccepted(lang: Lang, key: bool, m: Member, f: Field)
    requires WithinElements(key, m, f)
    ensures AcceptsField(lang, key, m, f)
    decreases m, 1, 0
  {
    WithinElementsAccepted(lang, key, m, f);
  }

  lemma {:induction false} WithinElementsAccepted(lang: Lang, key: bool, m: Member, f: Field)
    requires WithinElements(key, m, f)
    ensures AcceptsElements(lang, key, m, f)
    decreases m, 0, |f|
  {
    if m.ty.Nested? && f != [] {
      if f[0].Record? {
        WithinAccepted(lang, key, m.ty.members.hasAnyKeyMember, m.ty.members.list, f[0].fields);
      }
      WithinElementsAccepted(lang, key, m, f[1..]);
    }
  }
}
