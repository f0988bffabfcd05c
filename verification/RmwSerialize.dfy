/**
 Serialized messages: rmw_serialize into a caller's growable buffer, and rmw_deserialize.
 */
module RmwSerialize {
  import opened Wire
  import opened Schema
  import opened Encoding
  import opened SizeEstimate
  import opened MaxSize
  import opened CdrStream
  import opened TypeSupports

  // ---------------------------------------------------------------------------------------
  // What the serializer accepts
  // ---------------------------------------------------------------------------------------

  /**
   The bound of a lone C string is enforced one character late: the test allows the bound plus
   one for a length that does not count the NUL.
   */
  lemma BoundIsOneTooWide(bound: nat, s: seq<byte>)
    requires bound > 0
    ensures var m := Plainly(Text).(stringUpperBound := bound);
      && (Accepts(C, false, false, [m], [[Chars(s)]]) <==> |s| <= bound + 1)
      && (Within(false, false, [m], [[Chars(s)]]) <==> |s| <= bound)
  {
    var m := Plainly(Text).(stringUpperBound := bound);
    assert [[Chars(s)]][1..] == [] && [m][1..] == [];
    assert AcceptsField(C, false, m, [Chars(s)]) <==> |s| <= bound + 1;
    assert Accepts(C, false, false, [m], [[Chars(s)]]) == AcceptsField(C, false, m, [Chars(s)]);
    assert [Chars(s)][1..] == [];
    assert WithinElements(false, m, [Chars(s)]) == WithinElement(false, m, Chars(s));
  }

  /**
   A null C string is sized as nothing but written: rmw_serialize asks for the header alone, and
   the cursor throws behind it.
   */
  lemma NullStringDoesNotFit(e: Endian)
    ensures var ms, fields := Members([Plainly(Text)], false), [[NullChars]];
      && Typed(ms.list, fields) && Accepts(C, false, ms.hasAnyKeyMember, ms.list, fields)
      && SizeFor(C, ms, fields) == 4
      && |MessageCells(e, ms, fields)| == 9
  {
    var m := Plainly(Text);
    var ms := Members([m], false);
    NullStringUnderestimated(e);
    assert [m][1..] == [] && [[NullChars]][1..] == [];
    assert Accepts(C, false, false, [], []);
    var w := Walk(0, true, true, false);
    assert MaxMember(false, m, w).0.plain == false;
    assert MaxFields(false, false, [m], w, 0) == MaxFields(false, false, [], MaxMember(false, m, w).0, 0);
    assert !FactsOf(ms).plain;
  }

  // ---------------------------------------------------------------------------------------
  // End to end
  // ---------------------------------------------------------------------------------------

  /**
   A buffer of the size asked for takes the message, and reading that whole buffer gives the
   message back: on the plain path, where the size is the rounded maximum, for C members, whose
   estimate may exceed what is written, and for the dummy octet of an empty message alike.
   */
  lemma EndToEnd(e: Endian, lang: Lang, ms: Members, fields: seq<Field>, before: seq<byte>)
    requires Typed(ms.list, fields) && Measured(lang, false, ms.hasAnyKeyMember, ms.list, fields) && Inhabited(ms.list)
    requires |before| == SizeFor(lang, ms, fields)
    ensures |MessageCells(e, ms, fields)| <= |before|
    ensures DecodeMessage(lang, ms, Overlay(before, 0, MessageCells(e, ms, fields))) == Some(fields)
  {
    hide MessageCells, SizeFor, DecodeMessage, Overlay, Holds;
    SizeForSuffices(e, lang, ms, fields);
    MessageSurvives(e, lang, ms, fields, Overlay(before, 0, MessageCells(e, ms, fields)));
  }

  // ---------------------------------------------------------------------------------------
  // The two calls
  // ---------------------------------------------------------------------------------------

  /** `Threw` is an exception of the cursor or of the C string bound that leaves the call. */
  datatype ReturnCode = Ok | Error | Threw

  class SerializedMessage {
    var buffer: array<byte>
    var length: nat
    var capacity: nat

    ghost predicate Valid()
      reads this
    {
      length <= capacity <= buffer.Length
    }

    constructor (capacity: nat)
      ensures Valid() && fresh(buffer) && this.capacity == capacity && length == 0
    {
      this.buffer := new byte[capacity];
      this.length := 0;
      this.capacity := capacity;
    }

    /** Reallocation keeps what the buffer held; what is new may be anything. */
    method Resize(size: nat, canGrow: bool) returns (ok: bool)
      requires Valid() && capacity < size
      modifies this
      ensures Valid() && ok == canGrow && length == old(length)
      ensures ok ==> fresh(buffer) && capacity == size && buffer[..length] == old(buffer[..length])
      ensures !ok ==> buffer == old(buffer) && capacity == old(capacity)
    {
      ok := canGrow;
      if ok {
        var current, grown := buffer, new byte[size];
        forall i | 0 <= i < capacity {
          grown[i] := current[i];
        }
        buffer := grown;
        capacity := size;
      }
    }
  }

  /** `canGrow` is the allocator's answer, should it be asked. */
  method Serialize(ts: TypeSupport, fields: seq<Field>, message: SerializedMessage, canGrow: bool) returns (r: ReturnCode)
    requires ts.Valid() && Typed(ts.members.list, fields)
    requires message.Valid()
    modifies message, message.buffer
    ensures message.Valid() && (message.buffer == old(message.buffer) || fresh(message.buffer))
    ensures r.Error? <==> old(message.capacity) < SizeFor(ts.lang, ts.members, fields) && !canGrow
    ensures r.Threw? <==>
      && !r.Error?
      && !(Accepts(ts.lang, false, ts.members.hasAnyKeyMember, ts.members.list, fields)
           && |MessageCells(ts.endian, ts.members, fields)| <= SizeFor(ts.lang, ts.members, fields))
    ensures r.Ok? ==>
      && message.length == message.capacity == SizeFor(ts.lang, ts.members, fields)
      && Holds(message.buffer[..message.length], 0, MessageCells(ts.endian, ts.members, fields))
    ensures !r.Ok? ==> message.length == old(message.length)
    ensures r.Error? ==> message.buffer[..] == old(message.buffer[..]) && message.capacity == old(message.capacity)
  {
    hide SizeFor, MessageCells, Accepts, Typed;
    var dataLength := ts.GetEstimatedSerializedSize(fields);
    if message.capacity < dataLength {
      var resized := message.Resize(dataLength, canGrow);
      if !resized {
        return Error;
      }
    }
    var ser := new Cdr(message.buffer, dataLength, ts.endian);
    var ok := ts.SerializeRosMessage(ser, fields);
    if !ok {
      return Threw;
    }
    message.length := dataLength;
    message.capacity := dataLength;
    r := Ok;
  }

  method Deserialize(ts: TypeSupport, message: SerializedMessage) returns (r: ReturnCode, fields: seq<Field>)
    requires message.Valid()
    ensures DecodeMessage(ts.lang, ts.members, message.buffer[..message.length]) == if r.Ok? then Some(fields) else None
    ensures !r.Threw?
  {
    var deser := new Cdr(message.buffer, message.length, ts.endian);
    var ok;
    ok, fields := ts.DeserializeRosMessage(deser);
    r := if ok then Ok else Error;
  }

  /** From any capacity on, a message the serializer takes comes back from rmw_deserialize. */
  method SerializeAndRestore(ts: TypeSupport, fields: seq<Field>, message: SerializedMessage) returns (r: ReturnCode, restored: seq<Field>)
    requires ts.Valid() && message.Valid()
    requires Typed(ts.members.list, fields) && Measured(ts.lang, false, ts.members.hasAnyKeyMember, ts.members.list, fields) && Inhabited(ts.members.list)
    modifies message, message.buffer
    ensures r.Ok? <==> Accepts(ts.lang, false, ts.members.hasAnyKeyMember, ts.members.list, fields)
    ensures r.Ok? ==> restored == fields
  {
    hide SizeFor, MessageCells, DecodeMessage, Typed, Measured, Inhabited, Holds, Accepts;
    restored := [];
    SizeForSuffices(ts.endian, ts.lang, ts.members, fields);
    r := Serialize(ts, fields, message, true);
    if r.Ok? {
      MessageSurvives(ts.endian, ts.lang, ts.members, fields, message.buffer[..message.length]);
      r, restored := Deserialize(ts, message);
    }
  }
}
