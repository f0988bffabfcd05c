/**
 The introspection type support: the sizing walks as loops over members, the constructor that
 fixes sizes and flags, whole messages with their encapsulation, and instance handles.
 */
module TypeSupports {
  import opened Wire
  import opened Schema
  import opened Encoding
  import opened RoundTrip
  import opened SizeEstimate
  import opened MaxSize
  import opened KeyHandle
  import opened CdrStream
  import opened Serializer
  import opened Deserializer

  // ---------------------------------------------------------------------------------------
  // Whole messages
  // ---------------------------------------------------------------------------------------

  /** A message type without members is written as one octet. */
  function BodyCells(e: Endian, ms: Members, fields: seq<Field>): seq<Cell>
  {
    if ms.list != [] then EncodeFields(e, false, ms.hasAnyKeyMember, ms.list, fields, 0) else NumberCells(e, 1, 0, 0)
  }

  function MessageCells(e: Endian, ms: Members, fields: seq<Field>): seq<Cell>
  {
    Octets(Header(e)) + BodyCells(e, ms, fields)
  }

  /** What deserializing a buffer yields; `None` is a failed call. */
  function DecodeMessage(lang: Lang, ms: Members, buf: seq<byte>): Option<seq<Field>>
  {
    if |buf| < 4 || HeaderEndian(buf[..4]).None? then None
    else
      var e := HeaderEndian(buf[..4]).value;
      if ms.list != [] then
        match Decode(e, lang, ms.list, buf[4..], 0)
        case Fail => None
        case Got(fields, _) => Some(fields)
      else
        match ReadNumber(e, 1, buf[4..], 0)
        case Fail => None
        case Got(_, _) => Some([])
  }

  /** A message read from any buffer that begins with it is the message written. */
  lemma MessageSurvives(e: Endian, lang: Lang, ms: Members, fields: seq<Field>, buf: seq<byte>)
    requires Typed(ms.list, fields) && Measured(lang, false, ms.hasAnyKeyMember, ms.list, fields) && Inhabited(ms.list)
    requires Holds(buf, 0, MessageCells(e, ms, fields))
    ensures DecodeMessage(lang, ms, buf) == Some(fields)
  {
    hide Encode, Decode, EncodeFields;
    HoldsSplit(buf, 0, Octets(Header(e)), BodyCells(e, ms, fields));
    HoldsOctets(buf, 0, Header(e));
    HeaderReadBack(e);
    HoldsBehind(buf, 4, BodyCells(e, ms, fields));
    if ms.list != [] {
      FieldsReadBack(e, lang, ms.hasAnyKeyMember, ms.list, fields, buf[4..], 0);
    } else {
      PowersOf256();
      NumberReadBack(e, 1, 0, buf[4..], 0);
    }
  }

  lemma HoldsBehind(buf: seq<byte>, at: nat, cells: seq<Cell>)
    requires Holds(buf, at, cells)
    ensures Holds(buf[at..], 0, cells)
  {
  }

  // ---------------------------------------------------------------------------------------
  // Sizes of a type
  // ---------------------------------------------------------------------------------------

  datatype TypeFacts = TypeFacts(maxSize: nat, bounded: bool, plain: bool, keySize: nat, keyUnbounded: bool)

  function RoundUp4(n: nat): (r: nat)
    ensures n <= r < n + 4 && r % 4 == 0
  {
    (n + 3) / 4 * 4
  }

  function FactsOf(ms: Members): TypeFacts
  {
    var w := if ms.list != [] then MaxMembers(false, ms, Walk(0, true, true, false)) else Walk(1, true, true, false);
    var k := if ms.hasAnyKeyMember then MaxMembers(true, ms, w.(pos := 0, keyUnbounded := false)) else w.(pos := 0, keyUnbounded := false);
    TypeFacts(RoundUp4(4 + w.pos), k.bounded, k.plain, k.pos, k.keyUnbounded)
  }

  /** The size asked for a message: the type's for plain types, else header and estimate. */
  function SizeFor(lang: Lang, ms: Members, fields: seq<Field>): nat
  {
    if FactsOf(ms).plain then FactsOf(ms).maxSize
    else 4 + if ms.list != [] then EstimateFields(lang, false, ms.hasAnyKeyMember, ms.list, fields, 0) else 1
  }

  /** A raw buffer of the size asked for is never overrun. */
  lemma SizeForSuffices(e: Endian, lang: Lang, ms: Members, fields: seq<Field>)
    requires Typed(ms.list, fields) && Measured(lang, false, ms.hasAnyKeyMember, ms.list, fields)
    ensures |MessageCells(e, ms, fields)| <= SizeFor(lang, ms, fields)
  {
    if ms.list != [] {
      var w := Walk(0, true, true, false);
      FieldsCovered(e, lang, false, ms.hasAnyKeyMember, ms.list, fields, 0, 0);
      if FactsOf(ms).plain {
        MembersFlags(false, ms, w);
        MembersFlags(true, ms, MaxMembers(false, ms, w).(pos := 0, keyUnbounded := false));
        Kinds(false, ms.hasAnyKeyMember, ms.list);
        FlatFits(lang, false, ms.hasAnyKeyMember, ms.list, fields);
        MembersCover(lang, false, ms, fields, w, 0);
      }
    }
  }

  /**
   When max_size_bound_ is still true, max_serialized_type_size covers header and body of every
   value within the bounds of its type.
   */
  lemma BoundedTypeCoversMessages(e: Endian, lang: Lang, ms: Members, fields: seq<Field>)
    requires Typed(ms.list, fields) && Measured(lang, false, ms.hasAnyKeyMember, ms.list, fields) && Within(false, ms.hasAnyKeyMember, ms.list, fields)
    requires FactsOf(ms).bounded
    ensures |MessageCells(e, ms, fields)| <= FactsOf(ms).maxSize
  {
    if ms.list != [] {
      var w := Walk(0, true, true, false);
      MembersFlags(false, ms, w);
      MembersFlags(true, ms, MaxMembers(false, ms, w).(pos := 0, keyUnbounded := false));
      Kinds(false, ms.hasAnyKeyMember, ms.list);
      FieldsCovered(e, lang, false, ms.hasAnyKeyMember, ms.list, fields, 0, 0);
      MembersCover(lang, false, ms, fields, w, 0);
    }
  }

  /** For a plain type the size asked for is the size of every message, up to the next multiple of 4. */
  lemma PlainSizeAsked(e: Endian, lang: Lang, ms: Members, fields: seq<Field>)
    requires Typed(ms.list, fields) && FactsOf(ms).plain
    ensures SizeFor(lang, ms, fields) % 4 == 0
    ensures |MessageCells(e, ms, fields)| <= SizeFor(lang, ms, fields) < |MessageCells(e, ms, fields)| + 4
  {
    if ms.list != [] {
      hide MaxMembers, EncodeFields, EstimateFields, Flat, Finite, Typed;
      var w := Walk(0, true, true, false);
      MembersFlags(false, ms, w);
      MembersFlags(true, ms, MaxMembers(false, ms, w).(pos := 0, keyUnbounded := false));
      Kinds(false, ms.hasAnyKeyMember, ms.list);
      FlatFits(Cpp, false, ms.hasAnyKeyMember, ms.list, fields);
      FlatIsFullest(false, ms.hasAnyKeyMember, ms.list, fields);
      FullestReaches(Cpp, false, ms, fields, w);
      FieldsCovered(e, Cpp, false, ms.hasAnyKeyMember, ms.list, fields, 0, 0);
    }
  }

  /**
   For any other type it is exactly the size of this message: for C++ members, and for C members
   unless a sequence of 64-bit numbers is empty.
   */
  lemma EstimatedSizeAsked(e: Endian, lang: Lang, ms: Members, fields: seq<Field>)
    requires Typed(ms.list, fields) && Measured(lang, false, ms.hasAnyKeyMember, ms.list, fields)
    requires lang == Cpp || Filled(false, ms.hasAnyKeyMember, ms.list, fields)
    requires !FactsOf(ms).plain
    ensures SizeFor(lang, ms, fields) == |MessageCells(e, ms, fields)|
  {
    hide MaxMembers, EncodeFields, EstimateFields, Typed, Measured, Filled;
    FieldsCovered(e, lang, false, ms.hasAnyKeyMember, ms.list, fields, 0, 0);
  }

  /** max_serialized_type_size is reached by a value within the bounds, up to the next multiple of 4. */
  lemma MaximumIsReached(e: Endian, ms: Members)
    requires Capped(false, ms.hasAnyKeyMember, ms.list)
    requires Measured(Cpp, false, ms.hasAnyKeyMember, ms.list, Largest(ms.list))
    ensures Typed(ms.list, Largest(ms.list)) && Within(false, ms.hasAnyKeyMember, ms.list, Largest(ms.list))
    ensures FactsOf(ms).maxSize % 4 == 0
    ensures |MessageCells(e, ms, Largest(ms.list))| <= FactsOf(ms).maxSize < |MessageCells(e, ms, Largest(ms.list))| + 4
  {
    LargestFits(false, ms.hasAnyKeyMember, ms.list);
    if ms.list != [] {
      hide MaxMembers, EncodeFields, EstimateFields, Capped, Typed, Within, Measured, Fullest, Largest;
      FullestReaches(Cpp, false, ms, Largest(ms.list), Walk(0, true, true, false));
      FieldsCovered(e, Cpp, false, ms.hasAnyKeyMember, ms.list, Largest(ms.list), 0, 0);
    }
  }

  /**
   max_size_bound_ is left standing exactly when no string and no unbounded sequence is in the
   type, and the key is reported as unbounded exactly when its walk meets a string.
   */
  lemma FlagsLeft(ms: Members)
    requires ms.list != []
    ensures FactsOf(ms).bounded <==> Finite(false, ms.hasAnyKeyMember, ms.list)
    ensures FactsOf(ms).keyUnbounded <==> ms.hasAnyKeyMember && MeetsText(true, true, ms.list)
  {
    hide MaxMembers, Finite, MeetsText;
    var w := MaxMembers(false, ms, Walk(0, true, true, false));
    MembersFlags(false, ms, Walk(0, true, true, false));
    MembersFlags(true, ms, w.(pos := 0, keyUnbounded := false));
    KeyReports(true, ms, w.(pos := 0, keyUnbounded := false));
    if Finite(false, ms.hasAnyKeyMember, ms.list) {
      FiniteInKey(ms.hasAnyKeyMember, ms.list);
    }
  }

  /**
   The key walk makes the same comparison, with the last member of the whole type. A type that
   is plain by its own walk loses the flag to it: here the key ends at 4, the last member at 8.
   */
  lemma KeyCostsPlain()
    ensures var id, x := Plainly(Number(Bits32)).(isKey := true), Plainly(Number(Bits32)).(offset := 4);
      var ms := Members([id, x], true);
      && MaxMembers(false, ms, Walk(0, true, true, false)).plain && !FactsOf(ms).plain
      && FactsOf(ms.(hasAnyKeyMember := false)).plain
  {
    var id, x := Plainly(Number(Bits32)).(isKey := true), Plainly(Number(Bits32)).(offset := 4);
    var w, keyed, plain := Walk(0, true, true, false), Members([id, x], true), Members([id, x], false);
    assert [id, x][1..] == [x] && [x][1..] == [];
    assert MaxMember(false, id, w) == (w.(pos := 4), 4) == MaxMember(true, id, w);
    assert MaxMember(false, x, w.(pos := 4)) == (w.(pos := 8), 4);
    forall hasKey
      ensures MaxFields(false, hasKey, [id, x], w, 0) == (w.(pos := 8), 4)
    {
      assert MaxFields(false, hasKey, [x], w.(pos := 4), 4) == MaxFields(false, hasKey, [], w.(pos := 8), 4);
    }
    assert MaxFields(true, true, [x], w.(pos := 4), 4) == MaxFields(true, true, [], w.(pos := 4), 4);
    assert MaxFields(true, true, [id, x], w, 0) == (w.(pos := 4), 4);
    assert MaxMembers(false, keyed, w) == MaxMembers(false, plain, w) == w.(pos := 8);
    assert MaxMembers(true, keyed, w) == w.(pos := 4, plain := false);
    hide MaxMembers, RoundUp4;
  }

  lemma EstimateStep(lang: Lang, key: bool, hasKey: bool, list: seq<Member>, fields: seq<Field>, i: nat, p: nat)
    requires i < |list| == |fields| && Typed(list[i..], fields[i..])
    ensures TypedField(list[i], fields[i]) && Typed(list[i + 1..], fields[i + 1..])
    ensures EstimateFields(lang, key, hasKey, list[i..], fields[i..], p) == EstimateFields(lang, key, hasKey, list[i + 1..], fields[i + 1..],
      if key && list[i].SkippedInKey(hasKey) then p else EstimateField(lang, key, list[i], fields[i], p))
  {
    hide EstimateField, TypedField;
    assert list[i..][1..] == list[i + 1..] && fields[i..][1..] == fields[i + 1..];
  }

  lemma MaxFieldsStep(key: bool, hasKey: bool, list: seq<Member>, i: nat, w: Walk, last: nat)
    requires i < |list|
    ensures var (w1, last1) := if key && list[i].SkippedInKey(hasKey) then (w, last) else MaxMember(key, list[i], w);
      MaxFields(key, hasKey, list[i..], w, last) == MaxFields(key, hasKey, list[i + 1..], w1, last1)
  {
    hide MaxMember;
    assert list[i..][1..] == list[i + 1..];
  }

  lemma NoMoreMembers(key: bool, hasKey: bool, w: Walk, last: nat)
    ensures MaxFields(key, hasKey, [], w, last) == (w, last)
  {
  }

  lemma NoMoreFields(lang: Lang, key: bool, hasKey: bool, fields: seq<Field>, p: nat)
    ensures EstimateFields(lang, key, hasKey, [], fields, p) == p
  {
  }

  datatype Outcome = Done | Refused | Thrown

  /** The state one computation may leave, whether it succeeded or not. */
  ghost predicate Computed(t: KeyType, before: KeyState, fields: seq<Field>, force: bool, after: KeyState)
    requires |before.buffer| == before.maxSize
  {
    exists written: nat ::
      && Possible(t, before, Computation(fields, force, written))
      && after == Next(t, before, Computation(fields, force, written))
  }

  lemma WroteIsComputed(t: KeyType, before: KeyState, fields: seq<Field>, force: bool, after: KeyState, ok: bool)
    requires |before.buffer| == before.maxSize && Typed(t.members.list, fields)
    requires ok <==> Succeeds(t, before, fields)
    requires var g := Grow(t, before, fields);
      after == g.(buffer := after.buffer) && Wrote(g.buffer, after.buffer, g.maxSize, 0, t.Cells(fields), ok)
    ensures Computed(t, before, fields, force, after)
  {
    hide KeyType.Cells, Grow, KeyType.Accepted;
    var g := Grow(t, before, fields);
    var n: nat :| WroteFirst(g.buffer, after.buffer, g.maxSize, 0, t.Cells(fields), n) && (ok ==> n == |t.Cells(fields)|);
    var c := Computation(fields, force, n);
    assert Possible(t, before, c);
    assert after == Next(t, before, c);
  }

  class TypeSupport {
    const lang: Lang
    const members: Members
    const endian: Endian
    const md5: seq<byte> -> seq<byte>

    var maxSerializedTypeSize: nat
    var maxSizeBound: bool
    var isPlain: bool
    var isComputeKeyProvided: bool
    var keyIsUnbounded: bool
    var keyMaxSerializedSize: nat
    var keyBuffer: array<byte>

    /** The sizes and flags the constructor fixed; the key buffer only grows. */
    ghost predicate Valid()
      reads this
    {
      var facts := FactsOf(members);
      && maxSerializedTypeSize == facts.maxSize && maxSizeBound == facts.bounded && isPlain == facts.plain
      && isComputeKeyProvided == members.hasAnyKeyMember && keyIsUnbounded == facts.keyUnbounded
      && keyBuffer.Length == keyMaxSerializedSize
      && facts.keySize <= keyMaxSerializedSize
      && (!keyIsUnbounded ==> keyMaxSerializedSize == facts.keySize)
      && forall s :: |md5(s)| == HANDLE_SIZE
    }

    ghost function KeyType(): KeyType {
      KeyHandle.KeyType(endian, lang, md5, members)
    }

    ghost function KeyState(): KeyState
      reads this, keyBuffer
    {
      KeyHandle.KeyState(keyBuffer[..], keyMaxSerializedSize, keyIsUnbounded)
    }

    // -------------------------------------------------------------------------------------
    // Construction
    // -------------------------------------------------------------------------------------

    constructor (lang: Lang, members: Members, endian: Endian, md5: seq<byte> -> seq<byte>)
      requires forall s :: |md5(s)| == HANDLE_SIZE
      ensures Valid() && fresh(keyBuffer)
      ensures this.lang == lang && this.members == members && this.endian == endian && this.md5 == md5
      ensures members.hasAnyKeyMember && members.list != [] ==> KeyState() == KeyType().Start()
    {
      hide MaxMembers, RoundUp4;
      this.lang := lang;
      this.members := members;
      this.endian := endian;
      this.md5 := md5;
      keyIsUnbounded := false;
      keyMaxSerializedSize := 0;
      keyBuffer := new byte[0];
      // Both flags hold until a walk clears them
      maxSizeBound := true;
      isPlain := true;
      // The four octets of the header come first
      maxSerializedTypeSize := 4;
      new;
      if |members.list| != 0 {
        var size, _ := CalculateMaxSerializedSize(members, 0, false, false);
        maxSerializedTypeSize := maxSerializedTypeSize + size;
      } else {
        maxSerializedTypeSize := maxSerializedTypeSize + 1;
      }
      isComputeKeyProvided := members.hasAnyKeyMember;
      if members.hasAnyKeyMember {
        keyMaxSerializedSize, keyIsUnbounded := CalculateMaxSerializedSize(members, 0, true, keyIsUnbounded);
        keyBuffer := new byte[keyMaxSerializedSize](_ => 0);
        assert keyBuffer[..] == Zeros(keyMaxSerializedSize);
      }
      // Submessages begin at multiples of four
      maxSerializedTypeSize := RoundUp4(maxSerializedTypeSize);
    }

    method CalculateMaxSerializedSize(ms: Members, currentAlignment: nat, computeKey: bool, isKeyUnbounded: bool)
      returns (size: nat, keyUnbounded: bool)
      modifies this`maxSizeBound, this`isPlain
      ensures Walk(currentAlignment + size, maxSizeBound, isPlain, keyUnbounded)
           == MaxMembers(computeKey, ms, Walk(currentAlignment, old(maxSizeBound), old(isPlain), isKeyUnbounded))
      decreases ms, 0
    {
      hide MaxMember, MaxFields;
      var position := currentAlignment;
      keyUnbounded := isKeyUnbounded;
      var lastMemberSize := 0;
      ghost var whole := MaxFields(computeKey, ms.hasAnyKeyMember, ms.list, Walk(position, maxSizeBound, isPlain, keyUnbounded), 0);
      assert ms.list[0..] == ms.list;
      for i := 0 to |ms.list|
        invariant position >= currentAlignment
        invariant whole == MaxFields(computeKey, ms.hasAnyKeyMember, ms.list[i..], Walk(position, maxSizeBound, isPlain, keyUnbounded), lastMemberSize)
      {
        var m := ms.list[i];
        MaxFieldsStep(computeKey, ms.hasAnyKeyMember, ms.list, i, Walk(position, maxSizeBound, isPlain, keyUnbounded), lastMemberSize);
        if computeKey && m.SkippedInKey(ms.hasAnyKeyMember) {
          continue;
        }
        position, lastMemberSize, keyUnbounded := MaxOfMember(m, position, computeKey, keyUnbounded);
      }
      assert ms.list[|ms.list|..] == [];
      NoMoreMembers(computeKey, ms.hasAnyKeyMember, Walk(position, maxSizeBound, isPlain, keyUnbounded), lastMemberSize);
      size := position - currentAlignment;
      if ms.list != [] && lastMemberSize > 0 {
        if isPlain {
          isPlain := ms.list[|ms.list| - 1].offset + lastMemberSize == size;
        }
      }
    }

    method MaxOfMember(m: Member, position: nat, computeKey: bool, isKeyUnbounded: bool)
      returns (after: nat, lastMemberSize: nat, keyUnbounded: bool)
      modifies this`maxSizeBound, this`isPlain
      ensures (Walk(after, maxSizeBound, isPlain, keyUnbounded), lastMemberSize)
           == MaxMember(computeKey, m, Walk(position, old(maxSizeBound), old(isPlain), isKeyUnbounded))
      decreases m
    {
      hide AlignUp, AfterNumbers, AfterWord, EnterMember, MaxMembers, MaxRepeated;
      lastMemberSize, keyUnbounded := 0, isKeyUnbounded;
      var arraySize;
      arraySize, after := MaxOfArray(m, position, keyUnbounded);
      var start := after;
      if m.ty.Number? {
        lastMemberSize := AfterNumbers(m.ty.scalar.Size(), arraySize, 0);
        after := AfterNumbers(m.ty.scalar.Size(), arraySize, after);
      } else if m.ty.Nested? {
        after, keyUnbounded := MaxOfRepeated(m.ty.members, arraySize, after, computeKey, keyUnbounded);
        lastMemberSize := after - start;
      } else {
        maxSizeBound := false;
        isPlain := false;
        if computeKey {
          keyUnbounded := true;
        }
        var wide := m.ty.WideText?;
        for index := 0 to arraySize
          invariant MaxText(wide, m.stringUpperBound, arraySize, start) == MaxText(wide, m.stringUpperBound, arraySize - index, after)
        {
          after := AfterWord(after) + if wide then 4 * m.stringUpperBound else m.stringUpperBound + 1;
        }
      }
    }

    /** Whether the member is unbounded, and whether it is a sequence. */
    method MaxOfArray(m: Member, position: nat, ghost keyUnbounded: bool) returns (arraySize: nat, after: nat)
      modifies this`maxSizeBound, this`isPlain
      ensures arraySize == m.Count()
      ensures Walk(after, maxSizeBound, isPlain, keyUnbounded)
           == EnterMember(m, Walk(position, old(maxSizeBound), old(isPlain), keyUnbounded))
    {
      hide AfterWord;
      arraySize, after := 1, position;
      if m.isArray {
        arraySize := m.arraySize;
        if arraySize == 0 {
          maxSizeBound := false;
        }
        if arraySize == 0 || m.isUpperBound {
          isPlain := false;
          after := AfterWord(after);
        }
      }
    }

    method MaxOfRepeated(ms: Members, arraySize: nat, position: nat, computeKey: bool, isKeyUnbounded: bool)
      returns (after: nat, keyUnbounded: bool)
      modifies this`maxSizeBound, this`isPlain
      ensures after >= position
      ensures Walk(after, maxSizeBound, isPlain, keyUnbounded)
           == MaxRepeated(computeKey, ms, arraySize, Walk(position, old(maxSizeBound), old(isPlain), isKeyUnbounded))
      decreases ms, 1
    {
      hide MaxMembers;
      after, keyUnbounded := position, isKeyUnbounded;
      ghost var whole := MaxRepeated(computeKey, ms, arraySize, Walk(position, maxSizeBound, isPlain, keyUnbounded));
      for index := 0 to arraySize
        invariant after >= position
        invariant whole == MaxRepeated(computeKey, ms, arraySize - index, Walk(after, maxSizeBound, isPlain, keyUnbounded))
      {
        var curr;
        curr, keyUnbounded := CalculateMaxSerializedSize(ms, after, computeKey, keyUnbounded);
        after := after + curr;
      }
    }

    // -------------------------------------------------------------------------------------
    // The size of a message
    // -------------------------------------------------------------------------------------

    method EstimateMessage(ms: Members, fields: seq<Field>, currentAlignment: nat, computeKey: bool) returns (size: nat)
      requires Typed(ms.list, fields)
      ensures currentAlignment + size == EstimateFields(lang, computeKey, ms.hasAnyKeyMember, ms.list, fields, currentAlignment)
      decreases ms
    {
      hide EstimateFields, EstimateField, Typed, TypedField;
      var position := currentAlignment;
      ghost var whole := EstimateFields(lang, computeKey, ms.hasAnyKeyMember, ms.list, fields, position);
      assert ms.list[0..] == ms.list && fields[0..] == fields;
      TypedLength(ms.list, fields);
      for i := 0 to |ms.list|
        invariant position >= currentAlignment
        invariant Typed(ms.list[i..], fields[i..])
        invariant whole == EstimateFields(lang, computeKey, ms.hasAnyKeyMember, ms.list[i..], fields[i..], position)
      {
        var m := ms.list[i];
        EstimateStep(lang, computeKey, ms.hasAnyKeyMember, ms.list, fields, i, position);
        if computeKey && m.SkippedInKey(ms.hasAnyKeyMember) {
          continue;
        }
        position := EstimateMember(m, fields[i], position, computeKey);
      }
      assert ms.list[|ms.list|..] == [];
      NoMoreFields(lang, computeKey, ms.hasAnyKeyMember, fields[|ms.list|..], position);
      size := position - currentAlignment;
    }

    method EstimateMember(m: Member, f: Field, position: nat, computeKey: bool) returns (after: nat)
      requires TypedField(m, f)
      ensures after == EstimateField(lang, computeKey, m, f, position)
      decreases m
    {
      hide AlignUp, AfterNumbers, AfterWord, EstimateElements, TypedElements;
      after := if m.IsSequence() then AfterWord(position) else position;
      if !m.ty.Number? {
        after := EstimateOfElements(m.ty, f, after, computeKey);
      } else if !m.IsSequence() {
        after := AfterNumbers(m.ty.scalar.Size(), m.Count(), after);
      } else if |f| > 0 || (lang == C && !m.HoldsBuffer()) {
        after := AfterNumbers(m.ty.scalar.Size(), |f|, after);
      }
    }

    method EstimateOfElements(ty: MemberType, f: Field, position: nat, computeKey: bool) returns (after: nat)
      requires !ty.Number? && TypedElements(ty, f)
      ensures after == EstimateElements(lang, computeKey, ty, f, position)
      decreases ty, 1
    {
      hide AlignUp, AfterWord, EstimateFields, Typed;
      after := position;
      assert f[0..] == f;
      for i := 0 to |f|
        invariant TypedElements(ty, f[i..])
        invariant EstimateElements(lang, computeKey, ty, f, position) == EstimateElements(lang, computeKey, ty, f[i..], after)
      {
        assert f[i..][1..] == f[i + 1..] && TypedElement(ty, f[i]);
        if ty.Nested? {
          var size := EstimateMessage(ty.members, f[i].fields, after, computeKey);
          after := after + size;
        } else if ty.WideText? {
          after := AfterWord(after) + 4 * |f[i].wide|;
        } else if f[i].Chars? {
          after := AfterWord(after) + |f[i].chars| + 1;
        }
      }
      assert f[|f|..] == [];
    }

    method GetEstimatedSerializedSize(fields: seq<Field>) returns (size: nat)
      requires Valid() && Typed(members.list, fields)
      ensures size == SizeFor(lang, members, fields)
    {
      hide EstimateFields, MaxMembers, Typed;
      if isPlain {
        return maxSerializedTypeSize;
      }
      // The header
      size := 4;
      if |members.list| != 0 {
        var body := EstimateMessage(members, fields, 0, false);
        size := size + body;
      } else {
        size := size + 1;
      }
    }

    // -------------------------------------------------------------------------------------
    // Whole messages
    // -------------------------------------------------------------------------------------

    method SerializeRosMessage(ser: Cdr, fields: seq<Field>) returns (ok: bool)
      requires ser.Valid() && Typed(members.list, fields)
      modifies ser`offset, ser`origin, ser.buffer
      ensures ser.Valid()
      ensures ok <==>
        && Accepts(lang, false, members.hasAnyKeyMember, members.list, fields)
        && old(ser.offset) + |MessageCells(ser.endian, members, fields)| <= ser.limit
      ensures ok ==> ser.offset == old(ser.offset) + |MessageCells(ser.endian, members, fields)|
      ensures Wrote(old(ser.buffer[..]), ser.buffer[..], ser.limit, old(ser.offset), MessageCells(ser.endian, members, fields), ok)
    {
      hide EncodeFields, NumberCells, Wrote, Typed, Header, Octets;
      ghost var before, from := ser.buffer[..], ser.offset;
      ghost var header, body := Octets(Header(ser.endian)), BodyCells(ser.endian, members, fields);
      ok := ser.SerializeEncapsulation();
      if !ok {
        WroteBadly(before, ser.buffer[..], ser.limit, from, header, header + body);
        return;
      }
      ghost var mid := ser.buffer[..];
      if |members.list| != 0 {
        ok := SerializeMembers(ser, lang, false, members, fields);
      } else {
        ok := ser.PutNumber(1, 0);
      }
      WroteBoth(before, mid, ser.buffer[..], ser.limit, from, header, body, ok);
    }

    /** Reads the message a stream begins with. */
    method DeserializeRosMessage(deser: Cdr) returns (ok: bool, fields: seq<Field>)
      requires deser.Valid() && deser.offset == 0
      modifies deser`offset, deser`origin, deser`endian
      ensures DecodeMessage(lang, members, deser.buffer[..deser.limit]) == if ok then Some(fields) else None
    {
      hide Decode, ReadNumber, HeaderEndian;
      fields := [];
      ghost var buf := deser.buffer[..deser.limit];
      assert deser.limit >= 4 ==> deser.buffer[0..4] == buf[..4];
      ok := deser.ReadEncapsulation();
      if !ok {
        return;
      }
      assert deser.Body() == buf[4..];
      if |members.list| != 0 {
        ok, fields := DeserializeMembers(deser, lang, members.list);
      } else {
        var dump;
        ok, dump := deser.GetNumber(1);
      }
    }

    // -------------------------------------------------------------------------------------
    // Instance handles
    // -------------------------------------------------------------------------------------

    /** Resizing a vector: what it held stays, what is new is zero. */
    method ResizeKeyBuffer(size: nat)
      modifies this`keyBuffer
      ensures fresh(keyBuffer) && keyBuffer.Length == size
      ensures keyBuffer[..] == Resize(old(keyBuffer[..]), size)
    {
      var resized := new byte[size](_ => 0);
      var current := keyBuffer;
      var kept := if size <= current.Length then size else current.Length;
      for i := 0 to kept
        modifies resized
        invariant resized[..] == current[..i] + Zeros(size - i)
      {
        resized[i] := current[i];
      }
      keyBuffer := resized;
    }

    /** An unbounded key sizes its buffer anew for every message, but never smaller. */
    method GrowKeyBuffer(fields: seq<Field>)
      requires Valid() && Typed(members.list, fields)
      modifies this`keyMaxSerializedSize, this`keyBuffer
      ensures Valid() && (keyBuffer == old(keyBuffer) || fresh(keyBuffer))
      ensures KeyState() == Grow(KeyType(), old(KeyState()), fields)
    {
      hide EstimateFields, MaxMembers, Typed;
      if keyIsUnbounded {
        var estimated := EstimateMessage(members, fields, 0, true);
        if keyMaxSerializedSize < estimated {
          keyMaxSerializedSize := estimated;
        }
        ResizeKeyBuffer(keyMaxSerializedSize);
      }
    }

    /** Writes the key into the buffer; an exception may leave the first of its octets there. */
    method SerializeKey(fields: seq<Field>, ghost force: bool) returns (ok: bool, length: nat)
      requires Valid() && Typed(members.list, fields)
      modifies this`keyMaxSerializedSize, this`keyBuffer, keyBuffer
      ensures Valid() && (keyBuffer == old(keyBuffer) || fresh(keyBuffer))
      ensures ok <==> Succeeds(KeyType(), old(KeyState()), fields)
      ensures Computed(KeyType(), old(KeyState()), fields, force, KeyState())
      ensures ok ==> length == |KeyType().Cells(fields)|
      ensures ok ==>
        var grown := Grow(KeyType(), old(KeyState()), fields);
        KeyState() == grown.(buffer := Overlay(grown.buffer, 0, KeyType().Cells(fields)))
    {
      hide EncodeFields, EstimateFields, MaxMembers, Accepts, Typed, Overlay, Wrote, Computed, Resize;
      ghost var t, before := KeyType(), KeyState();
      GrowKeyBuffer(fields);
      hide Grow;
      ghost var grown := KeyState();
      var ser := new Cdr(keyBuffer, keyMaxSerializedSize, endian);
      ok := SerializeMembers(ser, lang, true, members, fields);
      length := ser.offset;
      WroteIsComputed(t, before, fields, force, KeyState(), ok);
      if ok {
        WroteAll(grown.buffer, keyBuffer[..], keyMaxSerializedSize, 0, t.Cells(fields));
      }
    }

    /**
     The handle of a message's key. `Refused` is a result of false, `Thrown` the exception of a
     key that does not fit the buffer or breaks the bound of a C string.
     */
    method GetKeyHash(fields: seq<Field>, forceMd5: bool, ihandle: array<byte>) returns (outcome: Outcome)
      requires Valid() && Typed(members.list, fields)
      requires ihandle.Length == HANDLE_SIZE && ihandle != keyBuffer
      modifies this`keyMaxSerializedSize, this`keyBuffer, keyBuffer, ihandle
      ensures Valid() && (keyBuffer == old(keyBuffer) || fresh(keyBuffer))
      ensures outcome.Refused? <==> members.list == []
      ensures members.list != [] ==> (outcome.Done? <==> Handle(KeyType(), old(KeyState()), fields, forceMd5).Some?)
      ensures outcome.Done? ==> Handle(KeyType(), old(KeyState()), fields, forceMd5) == Some((KeyState(), ihandle[..]))
      ensures !outcome.Refused? ==> Computed(KeyType(), old(KeyState()), fields, forceMd5, KeyState())
      ensures !outcome.Done? ==> ihandle[..] == old(ihandle[..])
    {
      hide EncodeFields, Accepts, MaxMembers, Typed, Overlay, Computed, Grow;
      if |members.list| == 0 {
        return Refused;
      }
      var ok, serLength := SerializeKey(fields, forceMd5);
      if !ok {
        return Thrown;
      }
      if forceMd5 || keyMaxSerializedSize > HANDLE_SIZE {
        CopyInto(ihandle, md5(keyBuffer[..serLength]));
        assert md5(keyBuffer[..serLength]) + Zeros(0) == md5(keyBuffer[..serLength]);
      } else {
        CopyInto(ihandle, keyBuffer[..serLength]);
      }
      outcome := Done;
    }

    /** Clears the handle, then copies at most 16 octets with a counter of one octet. */
    method CopyInto(ihandle: array<byte>, octets: seq<byte>)
      requires ihandle.Length == HANDLE_SIZE && |octets| <= HANDLE_SIZE
      modifies ihandle
      ensures ihandle[..] == octets + Zeros(HANDLE_SIZE - |octets|)
    {
      forall k | 0 <= k < HANDLE_SIZE {
        ihandle[k] := 0;
      }
      var i: byte := 0;
      while i < |octets|
        invariant i <= |octets|
        invariant ihandle[..] == octets[..i] + Zeros(HANDLE_SIZE - i)
      {
        ihandle[i] := octets[i];
        i := i + 1;
      }
    }
  }
}
