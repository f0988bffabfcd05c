/**
 Instance handles: the growing key buffer, and the choice between the raw key and its digest
 (the KeyHash rule of section 9.6.3 of DDSI-RTPS 2.3).
 */
module KeyHandle {
  import opened Wire
  import opened Schema
  import opened Encoding
  import opened SizeEstimate
  import opened MaxSize
  import opened KeyView

  const HANDLE_SIZE := 16

  /** What a type support keeps between handle computations. */
  datatype KeyState = KeyState(buffer: seq<byte>, maxSize: nat, unbounded: bool)

  /** What does not change: byte order, type support language, the digest and the type. */
  datatype KeyType = KeyType(endian: Endian, lang: Lang, md5: seq<byte> -> seq<byte>, members: Members) {

    function Cells(fields: seq<Field>): seq<Cell> {
      EncodeFields(endian, true, members.hasAnyKeyMember, members.list, fields, 0)
    }

    function Estimate(fields: seq<Field>): nat {
      EstimateFields(lang, true, members.hasAnyKeyMember, members.list, fields, 0)
    }

    predicate Accepted(fields: seq<Field>) {
      Accepts(lang, true, members.hasAnyKeyMember, members.list, fields)
    }

    /** The key walk begins with the flags the walk over all members left. */
    function WalkBefore(): Walk {
      MaxMembers(false, members, Walk(0, true, true, false)).(pos := 0, keyUnbounded := false)
    }

    function MaxWalk(): Walk {
      MaxMembers(true, members, WalkBefore())
    }

    function Start(): KeyState {
      KeyState(Zeros(MaxWalk().pos), MaxWalk().pos, MaxWalk().keyUnbounded)
    }

    /** A value of the type whose key, at least, is initialised and within its bounds. */
    ghost predicate Value(fields: seq<Field>) {
      && Typed(members.list, fields)
      && Measured(lang, true, members.hasAnyKeyMember, members.list, fields)
      && Within(true, members.hasAnyKeyMember, members.list, fields)
    }

    function Key(fields: seq<Field>): seq<Field> {
      KeyFields(members.hasAnyKeyMember, members.list, fields)
    }
  }

  function Resize(buf: seq<byte>, n: nat): (r: seq<byte>)
    ensures |r| == n
  {
    if n <= |buf| then buf[..n] else buf + Zeros(n - |buf|)
  }

  function Grow(t: KeyType, s: KeyState, fields: seq<Field>): KeyState
  {
    if !s.unbounded then s
    else
      var n := if s.maxSize >= t.Estimate(fields) then s.maxSize else t.Estimate(fields);
      KeyState(Resize(s.buffer, n), n, true)
  }

  predicate UsesDigest(s: KeyState, force: bool)
  {
    force || s.maxSize > HANDLE_SIZE
  }

  /** Neither the bound of a C string nor the end of the buffer raises an exception. */
  predicate Succeeds(t: KeyType, s: KeyState, fields: seq<Field>)
  {
    t.Accepted(fields) && |t.Cells(fields)| <= Grow(t, s, fields).maxSize
  }

  /** The octets handed on, to the handle or to the digest. */
  function Hashed(t: KeyType, s: KeyState, fields: seq<Field>): (key: seq<byte>)
    requires |s.buffer| == s.maxSize && Succeeds(t, s, fields)
    ensures |key| == |t.Cells(fields)|
  {
    Overlay(Grow(t, s, fields).buffer, 0, t.Cells(fields))[..|t.Cells(fields)|]
  }

  /** One computation; `None` is an exception that leaves the call. */
  function Handle(t: KeyType, s: KeyState, fields: seq<Field>, force: bool): (r: Option<(KeyState, seq<byte>)>)
    requires |s.buffer| == s.maxSize
    ensures r.Some? ==> |r.value.0.buffer| == r.value.0.maxSize
  {
    if !Succeeds(t, s, fields) then None
    else
      var g, key := Grow(t, s, fields), Hashed(t, s, fields);
      Some((g.(buffer := Overlay(g.buffer, 0, t.Cells(fields))),
            if UsesDigest(g, force) then t.md5(key) else key + Zeros(HANDLE_SIZE - |key|)))
  }

  /** One of a row of computations; `written` is the number of cells that reached the buffer. */
  datatype Computation = Computation(fields: seq<Field>, force: bool, written: nat)

  /** All cells reach the buffer, unless an exception stops the serializer after some of them. */
  ghost predicate Possible(t: KeyType, s: KeyState, c: Computation)
  {
    && Typed(t.members.list, c.fields)
    && c.written <= |t.Cells(c.fields)| && c.written <= Grow(t, s, c.fields).maxSize
    && (Succeeds(t, s, c.fields) ==> c.written == |t.Cells(c.fields)|)
  }

  /** What is not possible changes nothing. */
  ghost function Next(t: KeyType, s: KeyState, c: Computation): (r: KeyState)
    requires |s.buffer| == s.maxSize
    ensures |r.buffer| == r.maxSize
  {
    if !Possible(t, s, c) then s
    else
      var g := Grow(t, s, c.fields);
      g.(buffer := Overlay(g.buffer, 0, t.Cells(c.fields)[..c.written]))
  }

  /** The state after a row of computations, successful or not: every reachable state is one. */
  ghost function After(t: KeyType, history: seq<Computation>): (s: KeyState)
    ensures |s.buffer| == s.maxSize
  {
    if history == [] then t.Start() else Next(t, After(t, history[..|history| - 1]), history[|history| - 1])
  }

  /** A successful computation leaves the state that its handle comes with. */
  lemma HandleIsAStep(t: KeyType, s: KeyState, c: Computation)
    requires |s.buffer| == s.maxSize
    requires Possible(t, s, c) && Succeeds(t, s, c.fields)
    ensures Handle(t, s, c.fields, c.force).Some? && Handle(t, s, c.fields, c.force).value.0 == Next(t, s, c)
  {
    hide KeyType.Cells, KeyType.Accepted, Grow;
    assert t.Cells(c.fields)[..c.written] == t.Cells(c.fields);
  }

  // ---------------------------------------------------------------------------------------
  // The buffer over runs
  // ---------------------------------------------------------------------------------------

  /** key_max_serialized_size_ never falls, and a bounded key keeps the size computed at first. */
  lemma {:induction false} SizeNeverFalls(t: KeyType, history: seq<Computation>, k: nat)
    requires k <= |history|
    ensures var s := After(t, history);
      && After(t, history[..k]).maxSize <= s.maxSize
      && s.unbounded == t.MaxWalk().keyUnbounded
      && t.MaxWalk().pos <= s.maxSize && (!s.unbounded ==> s.maxSize == t.MaxWalk().pos)
    decreases |history|
  {
    hide KeyType.Cells, KeyType.Estimate, KeyType.MaxWalk, KeyType.Accepted;
    if k == |history| {
      assert history[..k] == history;
    }
    if history != [] {
      var before := history[..|history| - 1];
      if k < |history| {
        assert before[..k] == history[..k];
      }
      SizeNeverFalls(t, before, if k < |history| then k else k - 1);
    }
  }

  /**
   In every reachable state a key is hashed without an exception exactly when the serializer
   accepts it and it is reported unbounded or no longer than the computed maximum.
   */
  lemma KeyFitsExactly(t: KeyType, history: seq<Computation>, fields: seq<Field>, force: bool)
    requires Typed(t.members.list, fields)
    requires Measured(t.lang, true, t.members.hasAnyKeyMember, t.members.list, fields)
    ensures Handle(t, After(t, history), fields, force).Some? <==>
      t.Accepted(fields) && (t.MaxWalk().keyUnbounded || |t.Cells(fields)| <= t.MaxWalk().pos)
  {
    SizeNeverFalls(t, history, 0);
    FieldsCovered(t.endian, t.lang, true, t.members.hasAnyKeyMember, t.members.list, fields, 0, 0);
    hide After;
  }

  /**
   So in every reachable state the buffer takes every key within its bounds, unless the key has
   an unbounded sequence and no string that reports it.
   */
  lemma KeyAlwaysFits(t: KeyType, history: seq<Computation>, fields: seq<Field>, force: bool)
    requires t.MaxWalk().keyUnbounded || Sized(true, t.members.hasAnyKeyMember, t.members.list)
    requires t.Value(fields)
    ensures Handle(t, After(t, history), fields, force).Some?
  {
    hide After, Handle;
    KeyFitsExactly(t, history, fields, force);
    WithinAccepted(t.lang, true, t.members.hasAnyKeyMember, t.members.list, fields);
    if !t.MaxWalk().keyUnbounded {
      BoundedKeyFits(t, fields);
    }
  }

  lemma BoundedKeyFits(t: KeyType, fields: seq<Field>)
    requires !t.MaxWalk().keyUnbounded && Sized(true, t.members.hasAnyKeyMember, t.members.list)
    requires t.Value(fields)
    ensures |t.Cells(fields)| <= t.MaxWalk().pos
  {
    var ms := t.members;
    FieldsCovered(t.endian, t.lang, true, ms.hasAnyKeyMember, ms.list, fields, 0, 0);
    MembersFlags(true, ms, t.WalkBefore());
    Kinds(true, ms.hasAnyKeyMember, ms.list);
    MembersCover(t.lang, true, ms, fields, t.WalkBefore(), 0);
  }

  /** Whether computation `i`, were it not forced to, would hash the key. */
  ghost predicate Digests(t: KeyType, history: seq<Computation>, i: nat)
    requires i < |history|
  {
    UsesDigest(Grow(t, After(t, history[..i]), history[i].fields), false)
  }

  lemma SizeAfter(t: KeyType, history: seq<Computation>, i: nat, j: nat)
    requires i < j <= |history| && Possible(t, After(t, history[..i]), history[i])
    ensures Grow(t, After(t, history[..i]), history[i].fields).maxSize <= After(t, history[..j]).maxSize
  {
    var upTo := history[..i + 1];
    assert upTo[..i] == history[..i];
    assert After(t, upTo) == Next(t, After(t, history[..i]), history[i]);
    assert history[..j][..i + 1] == upTo;
    hide After, Grow, Possible;
    SizeNeverFalls(t, history[..j], i + 1);
  }

  /**
   Along every run, exceptions included, the choice between raw key and digest switches at most
   once: after a computation that hashes its key unforced, all do.
   */
  lemma SwitchesAtMostOnce(t: KeyType, history: seq<Computation>, i: nat, j: nat)
    requires i <= j < |history| && Possible(t, After(t, history[..i]), history[i])
    ensures Digests(t, history, i) ==> Digests(t, history, j)
  {
    if i < j {
      hide After, Possible;
      SizeAfter(t, history, i, j);
    }
  }

  // ---------------------------------------------------------------------------------------
  // What the padding of a key holds
  // ---------------------------------------------------------------------------------------

  /** The last computation of the row put an octet of its key at position `i`. */
  ghost predicate LastWrites(t: KeyType, history: seq<Computation>, i: nat)
    requires history != []
  {
    var last := history[|history| - 1];
    && Possible(t, After(t, history[..|history| - 1]), last)
    && i < last.written && t.Cells(last.fields)[i].Octet?
  }

  /** The octet that the keys hashed so far last put at position `i`; 0 when none did. */
  ghost function LastOctet(t: KeyType, history: seq<Computation>, i: nat): byte
  {
    if history == [] then 0
    else if LastWrites(t, history, i) then t.Cells(history[|history| - 1].fields)[i].b
    else LastOctet(t, history[..|history| - 1], i)
  }

  lemma {:induction false} BufferRemembers(t: KeyType, history: seq<Computation>, i: nat)
    ensures LastOctet(t, history, i) == if i < After(t, history).maxSize then After(t, history).buffer[i] else 0
  {
    hide KeyType.Cells, KeyType.Estimate, KeyType.MaxWalk, KeyType.Accepted, Typed;
    if history != [] {
      BufferRemembers(t, history[..|history| - 1], i);
    }
  }

  /** Where this key leaves padding, the last octet that earlier keys put was 0, or none did. */
  ghost predicate PaddingClean(t: KeyType, history: seq<Computation>, fields: seq<Field>)
  {
    var cells := t.Cells(fields);
    forall i :: 0 <= i < |cells| && cells[i].Gap? ==> LastOctet(t, history, i) == 0
  }

  /**
   Exactly when the octets handed on, to a raw handle or to the digest, are the key with zeros in
   its padding: for every type, in every reachable state.
   */
  lemma KeyOctetsExactly(t: KeyType, history: seq<Computation>, fields: seq<Field>)
    requires Succeeds(t, After(t, history), fields)
    ensures Hashed(t, After(t, history), fields) == Fill(t.Cells(fields)) <==> PaddingClean(t, history, fields)
  {
    var s, cells := After(t, history), t.Cells(fields);
    forall i | 0 <= i < |cells|
      ensures Hashed(t, s, fields)[i] == if cells[i].Gap? then LastOctet(t, history, i) else Fill(cells)[i]
    {
      BufferRemembers(t, history, i);
      GrownHolds(t, s, fields, i);
    }
    hide After, LastOctet, KeyType.Cells, Hashed;
    if Hashed(t, s, fields) == Fill(cells) {
      forall i | 0 <= i < |cells| && cells[i].Gap?
        ensures LastOctet(t, history, i) == 0
      {
        assert Fill(cells)[i] == 0;
      }
    }
  }

  lemma GrownHolds(t: KeyType, s: KeyState, fields: seq<Field>, i: nat)
    requires |s.buffer| == s.maxSize && i < Grow(t, s, fields).maxSize
    ensures |Grow(t, s, fields).buffer| == Grow(t, s, fields).maxSize
    ensures Grow(t, s, fields).buffer[i] == if i < s.maxSize then s.buffer[i] else 0
  {
  }

  // ---------------------------------------------------------------------------------------
  // Keys of fixed layout: the handle is the key
  // ---------------------------------------------------------------------------------------

  ghost predicate FixedLayout(t: KeyType)
  {
    Flat(true, t.members.hasAnyKeyMember, t.members.list)
  }

  /** Keys of fixed layout all have their padding at the same places. */
  lemma {:induction false} FixedPaddingClean(t: KeyType, history: seq<Computation>, fields: seq<Field>)
    requires FixedLayout(t) && Typed(t.members.list, fields)
    ensures PaddingClean(t, history, fields)
    decreases |history|
  {
    if history != [] {
      var n := |history| - 1;
      FixedPaddingClean(t, history[..n], fields);
      if Typed(t.members.list, history[n].fields) {
        FieldsSameShape(t.endian, t.members.hasAnyKeyMember, t.members.list, history[n].fields, fields, 0);
      }
      hide After, KeyType.Cells, Flat;
      PaddingStaysClean(t, history, fields);
    }
  }

  lemma PaddingStaysClean(t: KeyType, history: seq<Computation>, fields: seq<Field>)
    requires history != [] && PaddingClean(t, history[..|history| - 1], fields)
    requires var last := history[|history| - 1].fields;
      Typed(t.members.list, last) ==> SameShape(t.Cells(last), t.Cells(fields))
    ensures PaddingClean(t, history, fields)
  {
    hide After, KeyType.Cells;
  }

  /** What the handle of a key of fixed layout is, with no state behind it. */
  function FixedHandle(t: KeyType, fields: seq<Field>, force: bool): seq<byte>
  {
    var key := Fill(t.Cells(fields));
    if force || t.MaxWalk().pos > HANDLE_SIZE || |key| > HANDLE_SIZE then t.md5(key) else key + Zeros(HANDLE_SIZE - |key|)
  }

  lemma FixedKeyFits(t: KeyType, fields: seq<Field>)
    requires FixedLayout(t) && Typed(t.members.list, fields)
    ensures t.Value(fields) && !t.MaxWalk().keyUnbounded
    ensures Sized(true, t.members.hasAnyKeyMember, t.members.list)
    ensures |t.Cells(fields)| <= t.MaxWalk().pos
  {
    var ms := t.members;
    FlatFits(t.lang, true, ms.hasAnyKeyMember, ms.list, fields);
    MembersFlags(true, ms, t.WalkBefore());
    Kinds(true, ms.hasAnyKeyMember, ms.list);
    BoundedKeyFits(t, fields);
  }

  /** In every reachable state, a key of fixed layout gets the handle its fields determine. */
  lemma HandleIsOfTheKey(t: KeyType, history: seq<Computation>, fields: seq<Field>, force: bool)
    requires FixedLayout(t) && Typed(t.members.list, fields)
    ensures var r := Handle(t, After(t, history), fields, force);
      r.Some? && r.value.1 == FixedHandle(t, fields, force)
  {
    hide After, Fill, Overlay;
    FixedKeyFits(t, fields);
    KeyAlwaysFits(t, history, fields, force);
    FixedPaddingClean(t, history, fields);
    KeyOctetsExactly(t, history, fields);
    SizeNeverFalls(t, history, 0);
  }

  /** The same key has the same handle, whatever the other fields and the runs before. */
  lemma SameKeySameHandle(t: KeyType, history: seq<Computation>, a: seq<Field>, history': seq<Computation>, b: seq<Field>, force: bool)
    requires FixedLayout(t) && Typed(t.members.list, a) && Typed(t.members.list, b) && t.Key(a) == t.Key(b)
    ensures var r, r' := Handle(t, After(t, history), a, force), Handle(t, After(t, history'), b, force);
      r.Some? && r'.Some? && r.value.1 == r'.value.1
  {
    HandleIsOfTheKey(t, history, a, force);
    HandleIsOfTheKey(t, history', b, force);
    KeyEncoding(t.endian, t.members.hasAnyKeyMember, t.members.list, a, 0);
    KeyEncoding(t.endian, t.members.hasAnyKeyMember, t.members.list, b, 0);
    hide Handle, After;
  }

  lemma PaddingIsInjective(x: seq<byte>, y: seq<byte>)
    requires |x| == |y| <= HANDLE_SIZE
    requires x + Zeros(HANDLE_SIZE - |x|) == y + Zeros(HANDLE_SIZE - |y|)
    ensures x == y
  {
    assert x == (x + Zeros(HANDLE_SIZE - |x|))[..|x|];
    assert y == (y + Zeros(HANDLE_SIZE - |y|))[..|y|];
  }

  /**
   Raw handles of two messages are equal exactly when their key fields are: for keys of scalars
   and fixed arrays of at most 16 octets, handles identify instances.
   */
  lemma HandleIdentifiesKey(t: KeyType, history: seq<Computation>, a: seq<Field>, history': seq<Computation>, b: seq<Field>)
    requires FixedLayout(t) && Inhabited(KeyList(t.members.hasAnyKeyMember, t.members.list))
    requires Typed(t.members.list, a) && Typed(t.members.list, b)
    requires t.MaxWalk().pos <= HANDLE_SIZE
    ensures var r, r' := Handle(t, After(t, history), a, false), Handle(t, After(t, history'), b, false);
      r.Some? && r'.Some? && (r.value.1 == r'.value.1 <==> t.Key(a) == t.Key(b))
  {
    HandleIsOfTheKey(t, history, a, false);
    HandleIsOfTheKey(t, history', b, false);
    hide After, Handle, FixedHandle;
    if t.Key(a) == t.Key(b) {
      SameKeySameHandle(t, history, a, history', b, false);
    }
    if FixedHandle(t, a, false) == FixedHandle(t, b, false) {
      FixedHandleInjective(t, a, b);
    }
  }

  lemma FixedHandleInjective(t: KeyType, a: seq<Field>, b: seq<Field>)
    requires FixedLayout(t) && Inhabited(KeyList(t.members.hasAnyKeyMember, t.members.list))
    requires Typed(t.members.list, a) && Typed(t.members.list, b)
    requires t.MaxWalk().pos <= HANDLE_SIZE
    requires FixedHandle(t, a, false) == FixedHandle(t, b, false)
    ensures t.Key(a) == t.Key(b)
  {
    var ms := t.members;
    FixedKeyFits(t, a);
    FixedKeyFits(t, b);
    FieldsSameShape(t.endian, ms.hasAnyKeyMember, ms.list, a, b, 0);
    PaddingIsInjective(Fill(t.Cells(a)), Fill(t.Cells(b)));
    KeyEncoding(t.endian, ms.hasAnyKeyMember, ms.list, a, 0);
    KeyEncoding(t.endian, ms.hasAnyKeyMember, ms.list, b, 0);
    KeyFieldsTyped(t.lang, ms.hasAnyKeyMember, ms.list, a);
    KeyFieldsTyped(t.lang, ms.hasAnyKeyMember, ms.list, b);
    hide Fill;
    OneBufferOneValue(t.endian, t.lang, KeyList(ms.hasAnyKeyMember, ms.list), t.Key(a), t.Key(b), Fill(t.Cells(a)), 0);
  }

  // ---------------------------------------------------------------------------------------
  // Keys with strings, and keys the walk does not report
  // ---------------------------------------------------------------------------------------

  function KeyOf(ty: MemberType): Member
  {
    Member(ty, false, 0, false, 0, true, false, 0)
  }

  /** A key of a string and a 32-bit number. */
  function NamedType(e: Endian, lang: Lang, md5: seq<byte> -> seq<byte>): KeyType
  {
    KeyType(e, lang, md5, Members([KeyOf(Text), KeyOf(Number(Bits32))], true))
  }

  function Named(name: seq<byte>, n: nat): seq<Field>
  {
    [[Chars(name)], [Bits(n)]]
  }

  lemma NamedCells(t: KeyType, e: Endian, lang: Lang, md5: seq<byte> -> seq<byte>, name: seq<byte>, n: nat)
    requires t == NamedType(e, lang, md5)
    ensures t.Cells(Named(name, n)) == StringCells(e, name, 0) + NumberCells(e, 4, n, |name| + 5)
  {
    hide StringCells, NumberCells, AlignUp, EncodeField;
    var list := t.members.list;
    var v := Named(name, n);
    assert list[1..] == [list[1]] && v[1..] == [v[1]];
    StringLength(e, name);
    NamedField(e, list[0], v[0][0], 0);
    NamedField(e, list[1], v[1][0], |name| + 5);
    EncodeKeyStep(e, true, list, v, 0);
    EncodeKeyStep(e, true, [list[1]], [v[1]], |name| + 5);
    assert [list[1]][1..] == [];
    assert EncodeFields(e, true, true, [], [v[1]][1..], |name| + 9 + AlignUp(|name| + 5, 4) - (|name| + 5)) == [];
    hide EncodeFields;
    NothingBehind(NumberCells(e, 4, n, |name| + 5));
  }

  lemma NothingBehind(cells: seq<Cell>)
    ensures cells + [] == cells
  {
  }

  lemma NamedField(e: Endian, m: Member, v: Element, pos: nat)
    requires m == KeyOf(m.ty)
    ensures EncodeField(e, true, m, [v], pos) == EncodeElement(e, true, m.ty, v, pos)
  {
    hide EncodeElement;
    var c := EncodeElement(e, true, m.ty, v, pos);
    assert EncodeElements(e, true, m.ty, [v], pos) == c + [] == c;
    assert [] + c == c;
  }

  lemma NamedEstimate(t: KeyType, e: Endian, lang: Lang, md5: seq<byte> -> seq<byte>, name: seq<byte>, n: nat)
    requires t == NamedType(e, lang, md5)
    ensures t.Estimate(Named(name, n)) == AlignUp(|name| + 5, 4) + 4
  {
    hide AlignUp;
    FirstWord();
    var list := t.members.list;
    var v := Named(name, n);
    assert list[1..] == [list[1]] && v[1..] == [v[1]];
    assert EstimateField(lang, true, list[0], v[0], 0) == |name| + 5;
  }

  lemma FirstWord()
    ensures AfterWord(0) == 4 && AlignUp(0, 4) == 0
  {
  }

  lemma StringLength(e: Endian, name: seq<byte>)
    ensures |StringCells(e, name, 0)| == |name| + 5
  {
  }

  lemma NamedStart(t: KeyType, e: Endian, lang: Lang, md5: seq<byte> -> seq<byte>)
    requires t == NamedType(e, lang, md5)
    ensures t.Start() == KeyState(Zeros(12), 12, true)
  {
    var list := t.members.list;
    assert list[1..] == [list[1]];
    var w := t.WalkBefore();
    assert MaxText(false, 0, 1, 0) == MaxText(false, 0, 0, 5) == 5;
    assert MaxMember(true, list[0], w) == (Walk(5, false, false, true), 0);
    assert MaxMember(true, list[1], Walk(5, false, false, true)) == (Walk(12, false, false, true), 4);
  }

  /**
   With a string in the key, the handle also depends on the keys hashed before it: the padding
   behind the empty name still holds the characters of the longer one.
   */
  lemma StringKeyRemembersOthers(e: Endian, lang: Lang, md5: seq<byte> -> seq<byte>, n: nat)
    requires n < TWO_TO_THE_32
    ensures var t := NamedType(e, lang, md5);
      var longer := Computation(Named([97, 98, 99], n), false, 12);
      var first, again := Handle(t, After(t, []), Named([], n), false), Handle(t, After(t, [longer]), Named([], n), false);
      && Possible(t, After(t, []), longer)
      && first.Some? && again.Some? && again.value.1 != first.value.1
  {
    hide Handle;
    var t := NamedType(e, lang, md5);
    var longer := Computation(Named([97, 98, 99], n), false, 12);
    NamedStart(t, e, lang, md5);
    NamedTyped(t, e, lang, md5, [97, 98, 99], n);
    NamedTyped(t, e, lang, md5, [], n);
    var short, long := StringCells(e, [], 0) + NumberCells(e, 4, n, 5), StringCells(e, [97, 98, 99], 0) + NumberCells(e, 4, n, 8);
    NamedGap(e, n);
    NamedLetter(e, n);
    hide StringCells, NumberCells;
    var zeros := Zeros(12);
    var after := Overlay(zeros, 0, long);
    NamedHandle(t, e, lang, md5, zeros, [], n);
    NamedHandle(t, e, lang, md5, zeros, [97, 98, 99], n);
    NamedHandle(t, e, lang, md5, after, [], n);
    NamedCells(t, e, lang, md5, [97, 98, 99], n);
    assert Possible(t, t.Start(), longer) by {
      hide KeyType.Cells, KeyType.Start;
    }
    HandleIsAStep(t, t.Start(), longer);
    assert After(t, [longer]) == KeyState(after, 12, true) by {
      assert [longer][..0] == [];
      hide KeyType.Cells, KeyType.Start, Possible, Succeeds;
    }
    OverlayAt(zeros, long, 5);
    OverlayAt(zeros, short, 5);
    OverlayAt(after, short, 5);
    assert (Overlay(zeros, 0, short) + Zeros(4))[5] == 0;
    assert (Overlay(after, 0, short) + Zeros(4))[5] == 98;
  }

  lemma NamedTyped(t: KeyType, e: Endian, lang: Lang, md5: seq<byte> -> seq<byte>, name: seq<byte>, n: nat)
    requires t == NamedType(e, lang, md5) && NoNul(name) && n < TWO_TO_THE_32
    ensures Typed(t.members.list, Named(name, n)) && t.Accepted(Named(name, n))
  {
    PowersOf256();
    var list, v := t.members.list, Named(name, n);
    assert list[1..] == [list[1]] && v[1..] == [v[1]] && [list[1]][1..] == [] && [v[1]][1..] == [];
    assert v[0][1..] == [] && v[1][1..] == [];
    assert TypedElements(Text, []) && TypedElements(Number(Bits32), []);
    assert TypedElements(Text, v[0]) && TypedElements(Number(Bits32), v[1]);
    assert Typed(list[1..], v[1..]);
    assert Accepts(lang, true, true, list[1..], v[1..]);
  }

  lemma NamedHandle(t: KeyType, e: Endian, lang: Lang, md5: seq<byte> -> seq<byte>, buf: seq<byte>, name: seq<byte>, n: nat)
    requires t == NamedType(e, lang, md5) && |buf| == 12 && |name| <= 3
    requires |StringCells(e, name, 0) + NumberCells(e, 4, n, |name| + 5)| == 12
    requires t.Accepted(Named(name, n))
    ensures var r := Handle(t, KeyState(buf, 12, true), Named(name, n), false);
      var after := Overlay(buf, 0, StringCells(e, name, 0) + NumberCells(e, 4, n, |name| + 5));
      r.Some? && r.value.0 == KeyState(after, 12, true) && r.value.1 == after + Zeros(4)
  {
    hide KeyType.Cells, KeyType.Estimate, StringCells, NumberCells;
    NamedCells(t, e, lang, md5, name, n);
    NamedEstimate(t, e, lang, md5, name, n);
  }

  lemma OverlayAt(buf: seq<byte>, cells: seq<Cell>, i: nat)
    requires i < |cells| <= |buf|
    ensures Overlay(buf, 0, cells)[i] == if cells[i].Octet? then cells[i].b else buf[i]
  {
  }

  lemma NamedGap(e: Endian, n: nat)
    ensures |StringCells(e, [], 0) + NumberCells(e, 4, n, 5)| == 12
    ensures (StringCells(e, [], 0) + NumberCells(e, 4, n, 5))[5] == Gap
  {
  }

  lemma NamedLetter(e: Endian, n: nat)
    ensures |StringCells(e, [97, 98, 99], 0) + NumberCells(e, 4, n, 8)| == 12
    ensures (StringCells(e, [97, 98, 99], 0) + NumberCells(e, 4, n, 8))[5] == Octet(98)
  {
  }

  /**
   After a key estimated at more than 16 octets, even one whose computation failed, every later
   handle of the run is a digest, however short its key.
   */
  lemma LongKeySwitchesForEver(t: KeyType, history: seq<Computation>, i: nat, fields: seq<Field>, force: bool)
    requires i < |history| && Possible(t, After(t, history[..i]), history[i])
    requires t.MaxWalk().keyUnbounded && t.Estimate(history[i].fields) > HANDLE_SIZE
    requires Succeeds(t, After(t, history), fields)
    ensures var s := After(t, history);
      Handle(t, s, fields, force).value.1 == t.md5(Hashed(t, s, fields))
  {
    SizeNeverFalls(t, history[..i], 0);
    SizeAfter(t, history, i, |history|);
    assert history[..|history|] == history;
    hide After, KeyType.Estimate, KeyType.Cells, Hashed;
  }

  /** Every computation of the row happened, successful or not. */
  ghost predicate Happened(t: KeyType, history: seq<Computation>)
  {
    forall i :: 0 <= i < |history| ==> Possible(t, After(t, history[..i]), history[i])
  }

  /** Some key so far was computed or estimated longer than 16 octets. */
  ghost predicate LongSeen(t: KeyType, history: seq<Computation>)
  {
    || t.MaxWalk().pos > 16
    || (t.MaxWalk().keyUnbounded && exists i :: 0 <= i < |history| && t.Estimate(history[i].fields) > 16)
  }

  lemma HappenedBefore(t: KeyType, history: seq<Computation>, n: nat)
    requires Happened(t, history) && n < |history|
    ensures Happened(t, history[..n])
  {
    hide Possible, After;
    forall i | 0 <= i < n
      ensures Possible(t, After(t, history[..n][..i]), history[..n][i])
    {
      assert history[..n][..i] == history[..i];
    }
  }

  lemma LongSeenStep(t: KeyType, history: seq<Computation>)
    requires history != []
    ensures var n := |history| - 1;
      LongSeen(t, history) <==> LongSeen(t, history[..n]) || (t.MaxWalk().keyUnbounded && t.Estimate(history[n].fields) > 16)
  {
    hide KeyType.Estimate, KeyType.MaxWalk;
    var n := |history| - 1;
    if i :| 0 <= i < n && t.Estimate(history[i].fields) > 16 {
      assert history[..n][i] == history[i];
    }
  }

  /** The buffer is beyond 16 octets exactly when a key that long was seen. */
  lemma {:induction false} SizeTells(t: KeyType, history: seq<Computation>)
    requires Happened(t, history)
    ensures After(t, history).maxSize > 16 <==> LongSeen(t, history)
    decreases |history|
  {
    hide KeyType.Cells, KeyType.Estimate, KeyType.MaxWalk, KeyType.Accepted;
    if history != [] {
      var n := |history| - 1;
      HappenedBefore(t, history, n);
      SizeTells(t, history[..n]);
      SizeNeverFalls(t, history[..n], 0);
      LongSeenStep(t, history);
      hide LongSeen, Happened, Possible;
      assert Possible(t, After(t, history[..n]), history[n]);
    }
  }

  lemma GrowTells(t: KeyType, s: KeyState, fields: seq<Field>)
    ensures Grow(t, s, fields).maxSize > 16 <==> s.maxSize > 16 || (s.unbounded && t.Estimate(fields) > 16)
  {
    hide KeyType.Estimate, Resize;
  }

  lemma ChoiceMade(t: KeyType, s: KeyState, fields: seq<Field>, force: bool)
    requires |s.buffer| == s.maxSize && Succeeds(t, s, fields)
    ensures var octets, long := Hashed(t, s, fields), Grow(t, s, fields).maxSize > 16;
      && (long || |octets| <= 16)
      && Handle(t, s, fields, force).value.1 == if force || long then t.md5(octets) else octets + Zeros(16 - |octets|)
  {
    hide KeyType.Cells, KeyType.Accepted, Grow, Hashed;
  }

  /**
   Which handle a key gets: the digest of its octets when it is forced, or when any key of the
   run so far, or this one, was computed or estimated longer than 16 octets; and otherwise the
   octets themselves with zeros behind them.
   */
  lemma DigestExactly(t: KeyType, history: seq<Computation>, fields: seq<Field>, force: bool)
    requires Happened(t, history) && Succeeds(t, After(t, history), fields)
    ensures var octets := Hashed(t, After(t, history), fields);
      var long := LongSeen(t, history) || (t.MaxWalk().keyUnbounded && t.Estimate(fields) > 16);
      && (long || |octets| <= 16)
      && Handle(t, After(t, history), fields, force).value.1 == if force || long then t.md5(octets) else octets + Zeros(16 - |octets|)
  {
    hide After, Happened, LongSeen, Grow, Handle, Succeeds, KeyType.Cells, KeyType.Estimate, KeyType.MaxWalk, Hashed;
    SizeTells(t, history);
    SizeNeverFalls(t, history, 0);
    GrowTells(t, After(t, history), fields);
    ChoiceMade(t, After(t, history), fields, force);
  }

  /** An unbounded sequence of numbers in the key is not reported: its elements do not fit. */
  lemma UnreportedKeyOverflows(e: Endian, lang: Lang, md5: seq<byte> -> seq<byte>, n: nat)
    ensures var t := KeyType(e, lang, md5, Members([KeyOf(Number(Bits64)).(isArray := true)], true));
      Handle(t, After(t, []), [[Bits(n)]], false).None?
  {
    var m := KeyOf(Number(Bits64)).(isArray := true);
    var t := KeyType(e, lang, md5, Members([m], true));
    var w := t.WalkBefore();
    assert MaxMember(true, m, w) == (Walk(8, false, false, false), 0);
    assert [m][1..] == [];
    assert MaxFields(true, true, [m], w, 0) == MaxFields(true, true, [], Walk(8, false, false, false), 0);
    assert t.Start() == KeyState(Zeros(8), 8, false);
    assert EncodeElements(e, true, m.ty, [Bits(n)], 4) == NumberCells(e, 8, n, 4) + [];
    assert |EncodeField(e, true, m, [Bits(n)], 0)| == 16;
  }
}
