# Verification of the RMW implementation over Fast DDS

A Dafny model of the hardest parts of this repository, with proofs. `dafny verify dfyconfig.toml`
checks all of it.

## What is modelled

**The introspection codec** (`rmw_fastrtps_dynamic_cpp`). `Schema` has run-time message
descriptions and the values they describe. `Encoding` says what the serializer writes and what the
deserializer reads, as functions of the running position; `RoundTrip` proves them inverse, and
`WireForm` says in numerals what the octets are.
`SizeEstimate` and `MaxSize` are the per-message and the per-type size walks, `PlainLayout` the
promise behind `is_plain_`, `KeyView` and `KeyHandle` the instance handles over runs. `CdrStream`,
`Serializer`, `Deserializer`, `TypeSupport` and `RmwSerialize` are the code itself: a cursor over an
octet array, loops over members, a type support object with its flags and key buffer, and the two
serialization calls, each proved against those functions.

**The buffer-aware channel protocol** (`rmw_fastrtps_cpp`). `EndpointRegistry` is the discovery
registry, `BufferPublisher` and `BufferSubscription` the two endpoints' records. `BufferProtocol`
composes registry and publisher as a machine of locked sections, four of them to a publication, with
calls, creations and publications in flight.
`ChannelSelection` and `UserData` cover what an endpoint advertises and what its peer makes of it,
`Wakeup` the guard condition between listener, wait and take.

**Request/reply correlation** (`rmw_fastrtps_shared_cpp`), in `RequestReply`.

## What the proofs turned up

- The cursor leaves padding unwritten, and the key buffer keeps what earlier keys left there. Keys of
  scalars and fixed arrays have their padding at fixed places, so it stays zero; with a string in
  the key the handle of a message depends on the keys hashed before it
  (`KeyHandle.StringKeyRemembersOthers`; the exact condition, over the run, is `KeyOctetsExactly`).
- Only strings report a key as unbounded, so an unbounded sequence of numbers in the key overflows
  its buffer (`KeyHandle.UnreportedKeyOverflows`, exact condition `KeyFitsExactly`).
- The bound of a lone C string is enforced one character late (`RmwSerialize.BoundIsOneTooWide`).
- A null C string is sized as nothing and written as an empty string, so serializing a message of one
  throws (`SizeEstimate.NullStringUnderestimated`, `RmwSerialize.NullStringDoesNotFit`).
- The plain flag compares only the last member, so trailing padding of a nested type can hide a moved
  member (`PlainLayout.TrailingPaddingHidesAMove`; `PlainIsMemoryImage` says exactly of which types).
- The key walk lowers the plain flag as well, comparing with the last member of the whole type: a type
  that is plain by its own walk may lose the flag to its key (`TypeSupports.KeyCostsPlain`).
- With "any" requested and only "cpu" installed, publisher and subscriber choose different channels
  (`ChannelSelection.ChannelsMeet`).
- A sample that is invalid or does not deserialize is taken without setting the guard again
  (`Wakeup.StepKeepsWakeup`; exactly the rows of arrivals with a bad sample before the last can lose
  a wakeup, `RowsThatKeepWakeup`).
- A publication that counts a subscriber another publication then moves out to make its writer
  reaches it by no channel, and reports success (`BufferProtocol.OverlapSkips`; `CountedAreReached`
  says exactly who is missed). Overlapping publications may also append in another order
  (`OverlapReorders`, exact condition `OrderKeptExactly`).
- A publication that overlaps destruction appends endpoints to a destroyed publisher
  (`BufferProtocol.QuiescentUnlessPublishing`), and a subscriber that left stays on record
  (`BufferPublishers.DepartedSubscriberHidesLegacy`).

Two comments say something else than the code, which the model follows. The one at
`rmw_fastrtps_shared_cpp/src/qos.cpp:159-165` keeps ':' out of a backend's aux; the parser splits at
the first ':' and accepts it, so `UserData.BackendsReadBack` allows it. The one at
`rmw_fastrtps_cpp/src/rmw_publish.cpp:134-138` says the buffer route is only taken without legacy
subscribers; the code compares two counts (`BufferPublishers.RouteCompares`).

## Assumptions

Fast-CDR is not part of this repository. The model takes from its documented behaviour: padding is
stepped over and not stored; a write that does not fit throws; vectors and strings are length words
followed by their items; a vector's length is compared with the octets that remain; a trailing NUL
is not part of a string; a boolean other than 0 and 1 is refused. MD5 is an arbitrary function with
16 octets. `parse_key_value` is not part of this model beyond the grammar stated in the comment at
`rmw_fastrtps_shared_cpp/src/qos.cpp:159-165`. GIDs and GUIDs are compared only for equality, and
printing a GID in hexadecimal is injective. Fast DDS answers, as a choice made elsewhere, whether a
topic and a writer could be created, which subscriptions are matched, and which samples arrive. In
`RequestReply` a writer numbers its samples 1, 2, 3 and the clients' endpoints have distinct GUIDs.

A well-formed value has C strings initialised, no NUL inside strings, and lengths below 2^32 (below
2^31 where the length word is read as a signed number); a nested message type has a member.

## Model

| member | source | states |
|---|---|---|
| RoundTrip.MessageReadBack | rmw_fastrtps_dynamic_cpp/src/TypeSupport_impl.hpp:880-1027 | decoding any buffer that holds the encoding of a well-formed value at any position gives back that value and stops where the writer stopped, whatever the padding and the following octets hold |
| RoundTrip.FieldReadBack | rmw_fastrtps_dynamic_cpp/src/TypeSupport_impl.hpp:744-879 | the same for one member: single, fixed array, bounded or unbounded sequence, of any element type, C and C++ |
| RoundTrip.WideStringReadBack | rmw_fastrtps_dynamic_cpp/src/serialization_helpers.hpp:41-96 | words of any size are read back cut to 16 bits, so every string of 16-bit units round-trips |
| RoundTrip.StringReadBack | rmw_fastrtps_dynamic_cpp/src/TypeSupport_impl.hpp:165-202 | a string without NULs round-trips through its length word and terminating NUL |
| RoundTrip.ElementsNotShort | rmw_fastrtps_dynamic_cpp/src/TypeSupport_impl.hpp:54-65 | every element takes at least one octet, so the sequence-length test never rejects what the serializer wrote |
| RoundTrip.FieldsNotEmpty | rmw_fastrtps_dynamic_cpp/src/TypeSupport_impl.hpp:54-65 | a message type with a member never encodes to nothing, which the length test relies on for sequences of messages |
| WireForm.ScalarForm | rmw_fastrtps_dynamic_cpp/src/TypeSupport_impl.hpp:264-326 | one value of each scalar, in numerals: padding up to the next multiple of 1, 1, 1, 2, 4 or 8, then that many octets, the base-256 digits of the value in the byte order |
| WireForm.StringForm | rmw_fastrtps_dynamic_cpp/src/TypeSupport_impl.hpp:165-202 | the length with the terminator as a word at a multiple of 4, the characters, a 0; a null C string as an empty one |
| WireForm.WideStringForm | rmw_fastrtps_dynamic_cpp/src/serialization_helpers.hpp:41-63 | the number of characters, then four octets to each |
| WireForm.MemberForm | rmw_fastrtps_dynamic_cpp/src/TypeSupport_impl.hpp:105-163 | a length word in front of the elements exactly when the member is an array of size 0 or with an upper bound; otherwise the elements alone, as many as declared |
| WireForm.ElementsInOrder | rmw_fastrtps_dynamic_cpp/src/TypeSupport_impl.hpp:333-364 | elements are written in order, each from where the one before it ends |
| WireForm.MembersInOrder | rmw_fastrtps_dynamic_cpp/src/TypeSupport_impl.hpp:245-371 | and so are members, over all of them or over the key |
| WireForm.MessageForm | rmw_fastrtps_dynamic_cpp/src/TypeSupport_impl.hpp:1185-1204 | the four octets of the header, octet by octet, and the body aligned from behind it; a single 0 for a message without members |
| WireForm.OtherHeadersRefused | rmw_fastrtps_dynamic_cpp/src/TypeSupport_impl.hpp:1206-1238 | a message is read only behind a header that begins with 0 and then 0 or 1, in the byte order that this says |
| WireForm.BooleanRead | rmw_fastrtps_dynamic_cpp/src/TypeSupport_impl.hpp:744-757 | a boolean is read from one octet, and only from 0 and 1 |
| WireForm.UnterminatedRead | rmw_fastrtps_dynamic_cpp/src/TypeSupport_impl.hpp:759-776 | a string sent without its terminator is taken whole |
| WireForm.LongStringRefused | rmw_fastrtps_dynamic_cpp/src/TypeSupport_impl.hpp:759-776 | a string that announces more characters than there are octets left is not read |
| WireForm.SequenceRead | rmw_fastrtps_dynamic_cpp/src/TypeSupport_impl.hpp:801-820 | what becomes of any length word: refused from 2^31 on where it is read as a signed number, refused when it exceeds the octets left, except for C wide strings, and else the number of elements read |
| WireForm.FixedRead | rmw_fastrtps_dynamic_cpp/src/TypeSupport_impl.hpp:744-757 | a member that is no sequence has as many elements read as declared, without a length word |
| WireForm.OnlyLoneStringsRefused | rmw_fastrtps_dynamic_cpp/src/TypeSupport_impl.hpp:165-202 | C++ values, and C values without a bounded string outside arrays, are never refused |
| WireForm.RefusedByOne | rmw_fastrtps_dynamic_cpp/src/TypeSupport_impl.hpp:245-371 | one member that is refused refuses the message |
| SizeEstimate.FieldsCovered | rmw_fastrtps_dynamic_cpp/src/TypeSupport_impl.hpp:606-742 | from any position, the estimate is exactly what is written for C++ members, and for C members unless a sequence of 64-bit numbers is empty, and never less, in full and in key mode, even when the estimating cursor already runs ahead of the writer |
| SizeEstimate.FieldCovered | rmw_fastrtps_dynamic_cpp/src/TypeSupport_impl.hpp:426-588 | the same agreement for one member |
| SizeEstimate.NumbersLength | rmw_fastrtps_dynamic_cpp/src/TypeSupport_impl.hpp:426-451 | a non-empty row of numbers is its padding plus item size times count, written element by element or sized at once |
| SizeEstimate.EmptySequenceOverestimated | rmw_fastrtps_dynamic_cpp/src/TypeSupport_impl.hpp:503-511 | why the C bound is not exact: an empty sequence of 64-bit numbers is sized 8 and written in 4 octets; the C++ estimate is 4 |
| SizeEstimate.NullStringUnderestimated | rmw_fastrtps_dynamic_cpp/src/TypeSupport.hpp:64-80 | a C string with a null pointer is sized 0 but written in 5 octets |
| MaxSize.MembersCover | rmw_fastrtps_dynamic_cpp/src/TypeSupport_impl.hpp:1044-1160 | when every sequence and string met declares a bound, the maximum covers the estimate of every value within its bounds, from every position, in both modes |
| MaxSize.MembersFlags | rmw_fastrtps_dynamic_cpp/src/TypeSupport_impl.hpp:1058-1121 | max_size_bound_ survives the walk exactly when it meets no string and no unbounded sequence; is_plain_ only if it meets no string and no sequence; a key walk without unbounded sequences that reports nothing met no string |
| MaxSize.MemberCovers | rmw_fastrtps_dynamic_cpp/src/TypeSupport_impl.hpp:1061-1149 | the same bound for one member, sequences entered from any position up to the walk's own |
| MaxSize.FullestReaches | rmw_fastrtps_dynamic_cpp/src/TypeSupport_impl.hpp:1044-1160 | the maximum is reached: from every position the estimate of a value as long as its bounds equals it, for C members always, for C++ members when every sequence and string met declares a bound |
| MaxSize.LargestFits | rmw_fastrtps_dynamic_cpp/src/TypeSupport_impl.hpp:1044-1160 | every type has such a value, within its bounds |
| MaxSize.KeyReports | rmw_fastrtps_dynamic_cpp/src/TypeSupport_impl.hpp:1113-1121 | a walk reports an unbounded key exactly when it is a key walk and meets a string, not looking into unbounded sequences of messages |
| PlainLayout.PlainIsMemoryImage | rmw_fastrtps_dynamic_cpp/src/TypeSupport_impl.hpp:1151-1157 | a type in the natural ABI that is still plain after the walk writes every value to its memory image exactly when every leaf behind trailing padding is aligned past it, at every nesting level: a condition on the type alone |
| PlainLayout.ImageInPlace | rmw_fastrtps_dynamic_cpp/src/TypeSupport_impl.hpp:245-371 | plain or not, a fixed-size type in the natural ABI is written to its memory image exactly when, between any two leaves that follow each other, aligning the end of the one for the other gives its offset |
| PlainLayout.TightIsMemoryImage | rmw_fastrtps_dynamic_cpp/src/TypeSupport_impl.hpp:1151-1157 | without trailing padding in nested types, body and memory image of a plain type are the same to the last cell |
| PlainLayout.EndsDifferByAlignment | rmw_fastrtps_dynamic_cpp/src/TypeSupport_impl.hpp:1139-1148 | laying the same members out from two positions, the ends differ by a multiple of the type's alignment |
| PlainLayout.MembersPlain | rmw_fastrtps_dynamic_cpp/src/TypeSupport_impl.hpp:1139-1157 | a nested plain type whose trailing padding is absorbed was entered aligned, the walk leaves it behind where its last leaf ends, and its own leaves follow each other as in memory |
| PlainLayout.TrailingPaddingHidesAMove | rmw_fastrtps_dynamic_cpp/src/TypeSupport_impl.hpp:1151-1157 | a type that fails the condition: {struct{u64; u8}; u8[8]; u64} stays plain although its middle array is written at 9 and lies at 16 |
| PlainLayout.TrailingPaddingMayBeAbsorbed | rmw_fastrtps_dynamic_cpp/src/TypeSupport_impl.hpp:1151-1157 | a padded type that meets it: {struct{u64; u8}; u64} is plain and is written to its memory image |
| PlainLayout.PlainExactly | rmw_fastrtps_dynamic_cpp/src/TypeSupport_impl.hpp:1058-1157 | among the natural types whose padding is absorbed, exactly those stay plain in which no padding lies in front of a nested element |
| PlainLayout.NumbersAreEntered | rmw_fastrtps_dynamic_cpp/src/TypeSupport_impl.hpp:1058-1157 | which holds for every type of numbers and arrays of numbers |
| KeyView.KeyEncoding | rmw_fastrtps_dynamic_cpp/src/TypeSupport_impl.hpp:253-258 | the key walk writes the plain encoding of the message projected to its key members, at every nesting level |
| KeyView.EncodingDelimitsItself | rmw_fastrtps_dynamic_cpp/src/TypeSupport_impl.hpp:245-371 | no encoding of a value is a proper prefix of the encoding of another value of the type |
| KeyView.OneBufferOneValue | rmw_fastrtps_dynamic_cpp/src/TypeSupport_impl.hpp:880-1027 | no buffer holds two different values of one type at one place |
| KeyView.FieldsSameShape | rmw_fastrtps_dynamic_cpp/src/TypeSupport_impl.hpp:245-371 | in a key of scalars and fixed arrays, the positions of padding do not depend on the value |
| KeyView.KeyOfAnnotated | rmw_fastrtps_dynamic_cpp/src/TypeSupport_impl.hpp:260-262 | of a type with annotated members, the key is the fields of exactly these, in their order |
| KeyView.AnnotatedAre | rmw_fastrtps_dynamic_cpp/src/TypeSupport_impl.hpp:260-262 | the places that lemma speaks of are those of the annotated members |
| KeyView.AnnotatedRise | rmw_fastrtps_dynamic_cpp/src/TypeSupport_impl.hpp:260-262 | each once, in order |
| KeyView.KeyWithin | rmw_fastrtps_dynamic_cpp/src/TypeSupport_impl.hpp:253-262 | and so on within nested types that have annotations |
| KeyView.WholeKey | rmw_fastrtps_dynamic_cpp/src/TypeSupport_impl.hpp:260-262 | a type without annotations at any level is its own key |
| KeyView.WholeWritten | rmw_fastrtps_dynamic_cpp/src/TypeSupport_impl.hpp:260-262 | and its key walk writes all of it |
| KeyView.DifferentKeys | rmw_fastrtps_dynamic_cpp/src/TypeSupport_impl.hpp:260-262 | values that differ anywhere inside a key member of an unannotated nested type have different keys |
| KeyHandle.SizeNeverFalls | rmw_fastrtps_dynamic_cpp/src/TypeSupport_impl.hpp:384-392 | along every run of handle computations, those that throw included, key_max_serialized_size_ never falls, is at least its first value, and equal to it unless the key is unbounded |
| KeyHandle.KeyFitsExactly | rmw_fastrtps_dynamic_cpp/src/TypeSupport_impl.hpp:384-404 | in every reachable state, exceptions before it included, a key is hashed without an exception exactly when the serializer accepts it and it is reported unbounded or is no longer than the computed maximum |
| KeyHandle.KeyAlwaysFits | rmw_fastrtps_dynamic_cpp/src/TypeSupport_impl.hpp:384-404 | so in every reachable state every key within its bounds is hashed, if the key is reported unbounded or has no unbounded sequence |
| KeyHandle.UnreportedKeyOverflows | rmw_fastrtps_dynamic_cpp/src/TypeSupport_impl.hpp:1113-1121 | the other case: a key with an unbounded sequence of 64-bit numbers is not reported unbounded, and its first element does not fit |
| KeyHandle.SwitchesAtMostOnce | rmw_fastrtps_dynamic_cpp/src/TypeSupport_impl.hpp:405-421 | along every run, exceptions included, the unforced choice between raw key and digest switches at most once, to the digest |
| KeyHandle.LongKeySwitchesForEver | rmw_fastrtps_dynamic_cpp/src/TypeSupport_impl.hpp:384-421 | after one key estimated above 16 octets, even one that threw, every later handle of the run is a digest, however short its key |
| KeyHandle.DigestExactly | rmw_fastrtps_dynamic_cpp/src/TypeSupport_impl.hpp:384-421 | over every run: a handle is the digest of the key octets exactly when it is forced or when a key so far, or this one, was computed or estimated longer than 16 octets, and else the octets with zeros behind them |
| KeyHandle.HandleIsOfTheKey | rmw_fastrtps_dynamic_cpp/src/TypeSupport_impl.hpp:373-424 | for keys of scalars and fixed arrays the handle is, in every reachable state, a function of the key octets with zero padding |
| KeyHandle.SameKeySameHandle | rmw_fastrtps_dynamic_cpp/src/TypeSupport_impl.hpp:373-424 | equal key fields have equal handles, whatever the other fields and whatever was hashed before |
| KeyHandle.HandleIdentifiesKey | rmw_fastrtps_dynamic_cpp/src/TypeSupport_impl.hpp:373-424 | with a maximum of at most 16 octets, and no forced digest, two handles are equal exactly when the key fields are |
| KeyHandle.KeyOctetsExactly | rmw_fastrtps_dynamic_cpp/src/TypeSupport_impl.hpp:399-421 | for every type and every run, the octets handed on, raw or to the digest, are the zero-padded key exactly when at each of its padding positions the last earlier key that wrote an octet there wrote 0 |
| KeyHandle.StringKeyRemembersOthers | rmw_fastrtps_dynamic_cpp/src/TypeSupport_impl.hpp:399-421 | with a string in the key the handle of one message changes after a longer key was hashed |
| CdrStream.Cdr.PutNumber | rmw_fastrtps_dynamic_cpp/src/TypeSupport_impl.hpp:105-119 | the cursor steps over padding without writing it, stores the number, and fails exactly when the raw buffer is too short |
| CdrStream.Cdr.PutWideString | rmw_fastrtps_dynamic_cpp/src/serialization_helpers.hpp:41-63 | writes the length and one word per unit, or fails exactly when they do not fit |
| CdrStream.Cdr.GetWideString | rmw_fastrtps_dynamic_cpp/src/serialization_helpers.hpp:65-96 | reads what the specification of the wire form reads, filling the string unit by unit |
| CdrStream.Cdr.CheckSequenceSize | rmw_fastrtps_dynamic_cpp/src/TypeSupport_impl.hpp:54-65 | answers whether so many octets remain in front of the limit, and leaves the cursor where it was |
| CdrStream.Cdr.ReadEncapsulation | rmw_fastrtps_dynamic_cpp/src/TypeSupport_impl.hpp:1207-1222 | takes the byte order from the header and makes the octet behind it the alignment origin |
| Serializer.SerializeElement | rmw_fastrtps_dynamic_cpp/src/TypeSupport_impl.hpp:245-371 | writes one element as the wire form says, or fails |
| Serializer.SerializeElements | rmw_fastrtps_dynamic_cpp/src/TypeSupport_impl.hpp:333-364 | the loop over array and sequence elements writes their concatenation from the running position |
| Serializer.SerializeMember | rmw_fastrtps_dynamic_cpp/src/TypeSupport_impl.hpp:148-228 | one member: the C string bound test, the length word of a sequence, the elements |
| Serializer.SerializeMembers | rmw_fastrtps_dynamic_cpp/src/TypeSupport_impl.hpp:245-371 | the loop over members writes exactly the specified cells and succeeds exactly when the value is accepted and fits; a failed call changes nothing before its start or behind the limit |
| Deserializer.ReadSequenceLength | rmw_fastrtps_dynamic_cpp/src/TypeSupport_impl.hpp:54-65 | takes the length word, as a signed number where the code does, and accepts it exactly when so many octets remain, which C wide strings are not asked |
| Deserializer.DeserializeMember | rmw_fastrtps_dynamic_cpp/src/TypeSupport_impl.hpp:744-879 | one member read as specified |
| Deserializer.DeserializeMembers | rmw_fastrtps_dynamic_cpp/src/TypeSupport_impl.hpp:880-1027 | the loop over members reads exactly what the specification of decoding reads, failures included |
| TypeSupports.TypeSupport.constructor | rmw_fastrtps_dynamic_cpp/src/MessageTypeSupport_impl.hpp:31-73 | fixes size, flags and key buffer to the results of the two walks, the maximum rounded up to 4 |
| TypeSupports.TypeSupport.CalculateMaxSerializedSize | rmw_fastrtps_dynamic_cpp/src/TypeSupport_impl.hpp:1044-1160 | the loop over members returns the size and lowers the flags as the walk's specification does |
| TypeSupports.TypeSupport.MaxOfMember | rmw_fastrtps_dynamic_cpp/src/TypeSupport_impl.hpp:1061-1149 | one member of that walk |
| TypeSupports.TypeSupport.EstimateMessage | rmw_fastrtps_dynamic_cpp/src/TypeSupport_impl.hpp:606-742 | the estimating loop reaches the specified position |
| TypeSupports.TypeSupport.EstimateMember | rmw_fastrtps_dynamic_cpp/src/TypeSupport_impl.hpp:426-588 | one member of that estimate, numbers in one step, strings and messages one by one |
| TypeSupports.TypeSupport.GetEstimatedSerializedSize | rmw_fastrtps_dynamic_cpp/src/TypeSupport_impl.hpp:1162-1183 | the maximum for plain types, else 4 plus the estimate, or plus 1 for a message without members |
| TypeSupports.TypeSupport.SerializeRosMessage | rmw_fastrtps_dynamic_cpp/src/TypeSupport_impl.hpp:1185-1204 | header, alignment reset, body; succeeds exactly when the value is accepted and fits |
| TypeSupports.TypeSupport.DeserializeRosMessage | rmw_fastrtps_dynamic_cpp/src/TypeSupport_impl.hpp:1206-1238 | reads header and body as specified, every failure of the cursor turned into a failed call |
| TypeSupports.TypeSupport.GrowKeyBuffer | rmw_fastrtps_dynamic_cpp/src/TypeSupport_impl.hpp:383-392 | an unbounded key resizes the buffer to the larger of old size and estimate, keeping its octets |
| TypeSupports.TypeSupport.GetKeyHash | rmw_fastrtps_dynamic_cpp/src/TypeSupport_impl.hpp:373-424 | new key state and handle are those of the pure model; no handle for a message without members; the exception cases are exactly an over-long C string and a key that does not fit |
| TypeSupports.TypeSupport.CopyInto | rmw_fastrtps_dynamic_cpp/src/TypeSupport_impl.hpp:405-421 | clearing 16 octets and copying with an 8-bit counter gives the octets padded with zeros |
| TypeSupports.MessageSurvives | rmw_fastrtps_dynamic_cpp/src/TypeSupport_impl.hpp:1185-1238 | a whole message, header included, is read back from any buffer that begins with it |
| TypeSupports.SizeForSuffices | rmw_fastrtps_dynamic_cpp/src/TypeSupport_impl.hpp:1162-1204 | a raw buffer of the size asked for is never overrun, for plain, C++ and C messages and messages without members |
| TypeSupports.PlainSizeAsked | rmw_fastrtps_dynamic_cpp/src/MessageTypeSupport_impl.hpp:71-72 | for a plain type the size asked for is that of the message rounded up to a multiple of 4, for every value |
| TypeSupports.EstimatedSizeAsked | rmw_fastrtps_dynamic_cpp/src/TypeSupport_impl.hpp:1162-1183 | for any other type it is exactly that of the message, for C++ members and for C members unless a sequence of 64-bit numbers is empty |
| TypeSupports.MaximumIsReached | rmw_fastrtps_dynamic_cpp/src/MessageTypeSupport_impl.hpp:53-72 | when every sequence and string declares a bound, max_serialized_type_size is the size of the longest message rounded up to a multiple of 4 |
| TypeSupports.FlagsLeft | rmw_fastrtps_dynamic_cpp/src/MessageTypeSupport_impl.hpp:50-69 | after both walks, max_size_bound_ stands exactly when no string and no unbounded sequence is in the type, and the key is unbounded exactly when its walk meets a string |
| TypeSupports.KeyCostsPlain | rmw_fastrtps_dynamic_cpp/src/MessageTypeSupport_impl.hpp:65-69 | the key walk lowers the plain flag too: {key u32; u32} is plain by its own walk and not after the key walk |
| TypeSupports.BoundedTypeCoversMessages | rmw_fastrtps_dynamic_cpp/src/MessageTypeSupport_impl.hpp:53-72 | when max_size_bound_ is true the rounded maximum covers header and body of every value within its bounds |
| RmwSerialize.Serialize | rmw_fastrtps_dynamic_cpp/src/rmw_serialize.cpp:43-66 | which of success, error and exception happens, exactly; on success length and capacity are the size asked for and the buffer holds the message |
| RmwSerialize.Deserialize | rmw_fastrtps_dynamic_cpp/src/rmw_serialize.cpp:86-94 | decodes the first buffer_length octets, failing exactly when they do not decode |
| RmwSerialize.EndToEnd | rmw_fastrtps_dynamic_cpp/src/rmw_serialize.cpp:43-94 | a message written over any buffer of the size asked for fits and is restored, on the plain path, the C path and the dummy-octet path alike |
| RmwSerialize.SerializeAndRestore | rmw_fastrtps_dynamic_cpp/src/rmw_serialize.cpp:43-94 | from any starting capacity the two calls restore every value that is accepted |
| MaxSize.WithinAccepted | rmw_fastrtps_dynamic_cpp/src/TypeSupport_impl.hpp:173-178 | a value within the bounds of its type is never refused |
| RmwSerialize.BoundIsOneTooWide | rmw_fastrtps_dynamic_cpp/src/TypeSupport_impl.hpp:173-178 | the bound of a lone C string is enforced one character late: accepted exactly up to the bound plus one |
| RmwSerialize.NullStringDoesNotFit | rmw_fastrtps_dynamic_cpp/src/rmw_serialize.cpp:43-66 | a message of one null C string is asked 4 octets for and takes 9, so the cursor throws |
| EndpointRegistry.ExactlyOnce | rmw_fastrtps_cpp/src/buffer_endpoint_registry.cpp:26-195 | over every order of critical sections a callback is scheduled for an endpoint exactly once if registration and first news are on one topic and not separated by removal, whichever came first, and otherwise never |
| EndpointRegistry.KnownIsFirstNews | rmw_fastrtps_cpp/src/buffer_endpoint_registry.cpp:103-139 | the known list never holds a GID twice and holds exactly the first news of every GID |
| EndpointRegistry.KnownInOrder | rmw_fastrtps_cpp/src/buffer_endpoint_registry.cpp:103-139 | and it is in the order of these first news |
| EndpointRegistry.EntriesStand | rmw_fastrtps_cpp/src/buffer_endpoint_registry.cpp:75-101 | the entries on a topic are exactly the registrations that were not unregistered since |
| EndpointRegistry.EntriesInOrder | rmw_fastrtps_cpp/src/buffer_endpoint_registry.cpp:26-101 | and they are in the order in which they were registered |
| EndpointRegistry.ScheduledIsNewlyDue | rmw_fastrtps_cpp/src/buffer_endpoint_registry.cpp:26-195 | each critical section schedules exactly the calls it makes due; repeated news schedules nothing |
| EndpointRegistry.OneInfoPerGid | rmw_fastrtps_cpp/src/buffer_endpoint_registry.cpp:103-139 | no callback is scheduled for two infos that carry one GID |
| EndpointRegistry.BufferEndpointRegistry.RegisterSubscriberDiscoveryCallback | rmw_fastrtps_cpp/src/buffer_endpoint_registry.cpp:26-49 | appends the entry and returns the calls for the known subscribers on the topic, in order |
| EndpointRegistry.BufferEndpointRegistry.RegisterPublisherDiscoveryCallback | rmw_fastrtps_cpp/src/buffer_endpoint_registry.cpp:51-73 | the same for publishers |
| EndpointRegistry.BufferEndpointRegistry.UnregisterCallbacks | rmw_fastrtps_cpp/src/buffer_endpoint_registry.cpp:75-101 | removes the GID's entries on every topic of both halves and nothing else |
| EndpointRegistry.BufferEndpointRegistry.NotifySubscriberDiscovered | rmw_fastrtps_cpp/src/buffer_endpoint_registry.cpp:103-148 | records a new GID and returns the calls for the topic's entries; a known GID changes and returns nothing |
| EndpointRegistry.BufferEndpointRegistry.NotifyPublisherDiscovered | rmw_fastrtps_cpp/src/buffer_endpoint_registry.cpp:150-195 | the same for publishers |
| BufferPublishers.BufferPublisher.OnSubscriberDiscovered | rmw_fastrtps_cpp/src/rmw_publisher.cpp:155-263 | the callback under its lock: nothing when destroyed or already recorded, else CPU-only or pending |
| BufferPublishers.BufferPublisher.CreatePendingBufferWriters | rmw_fastrtps_cpp/src/rmw_publish.cpp:44-132 | undisturbed between its two locked sections, the call moves the pending list out and appends an endpoint for each creation that succeeds, in order |
| BufferPublishers.BufferPublisher.PublishToBufferEndpoints | rmw_fastrtps_cpp/src/rmw_publish.cpp:139-228 | undisturbed, the call makes the pending endpoints and then writes once to the shared channel, when there are CPU-only subscribers, and once per endpoint; a write that fails is passed over |
| BufferPublishers.BufferPublisher.Publish | rmw_fastrtps_cpp/src/rmw_publish.cpp:252-273 | undisturbed, the call takes the buffer route exactly when no more are matched than recorded |
| BufferPublishers.BufferPublisher.Destroy | rmw_fastrtps_cpp/src/rmw_publisher.cpp:361-372 | not alive, all collections empty, the endpoints handed back for deletion |
| BufferPublishers.DiscoverExactly | rmw_fastrtps_cpp/src/rmw_publisher.cpp:166-263 | the callback changes nothing exactly when the publisher is gone or serves the subscriber already; else it records it once, as CPU-only exactly when no other backend is advertised; a second call changes nothing |
| BufferPublishers.OnlyCpuMeans | rmw_fastrtps_cpp/src/rmw_publisher.cpp:159-163 | the test for CPU-only holds exactly when no backend but "cpu" is advertised |
| BufferPublishers.AllCreated | rmw_fastrtps_cpp/src/rmw_publish.cpp:61-124 | with every creation successful the pending list becomes endpoints whole and in order |
| BufferPublishers.CreatedCount | rmw_fastrtps_cpp/src/rmw_publish.cpp:61-124 | whatever fails, exactly the subscribers whose creation did not fail get a writer |
| BufferPublishers.EachReachedOnce | rmw_fastrtps_cpp/src/rmw_publish.cpp:153-227 | when nobody is recorded twice a buffer-route publication reaches each recorded subscriber by exactly one write and nobody else |
| BufferPublishers.FailuresStayApart | rmw_fastrtps_cpp/src/rmw_publish.cpp:153-227 | whichever writes fail, a recorded subscriber is reached by exactly one write when its own channel does not fail and by none when it does |
| BufferPublishers.RouteCompares | rmw_fastrtps_cpp/src/rmw_publish.cpp:252-265 | the buffer route is taken exactly when no more subscribers are matched without being recorded than recorded without being matched |
| BufferPublishers.RouteIsSafe | rmw_fastrtps_cpp/src/rmw_publish.cpp:252-265 | when everybody recorded is matched, that is exactly when the matched are the recorded |
| BufferPublishers.DepartedSubscriberHidesLegacy | rmw_fastrtps_cpp/src/rmw_publish.cpp:252-265 | the hypothesis is needed: nobody is struck off the record, so one departed subscriber lets the buffer route skip one legacy subscriber |
| BufferProtocol.NoSubscriberTwice | rmw_fastrtps_cpp/src/rmw_publisher.cpp:166-263 | over every interleaving a GID is at most once among the calls in flight, CPU-only, pending, in creation and endpoints together |
| BufferProtocol.CirculatingWasHanded | rmw_fastrtps_cpp/src/rmw_publish.cpp:49-131 | no step of registry, callback, publishing threads or destruction makes a GID circulate more often than the registry handed it over |
| BufferProtocol.HandedOnce | rmw_fastrtps_cpp/src/buffer_endpoint_registry.cpp:103-139 | the registry hands a publisher each GID at most once |
| BufferProtocol.EveryDeliveryRecords | rmw_fastrtps_cpp/src/rmw_publisher.cpp:171-263 | a call delivered to a live publisher always records its subscriber: its own duplicate tests never fire |
| BufferProtocol.LocalTestsMissCreation | rmw_fastrtps_cpp/src/rmw_publish.cpp:49-59 | the callback's own tests would not be enough: a second delivery during creation is recorded again |
| BufferProtocol.CpuOnlyArrivalMissesPending | rmw_fastrtps_cpp/src/rmw_publisher.cpp:200-226 | nor is a CPU-only arrival compared with the pending list |
| BufferProtocol.NoneLost | rmw_fastrtps_cpp/src/rmw_publish.cpp:44-132 | with successful creations and no destruction, every subscriber handed over for a channel of its own is pending, in creation or an endpoint, however publications overlap |
| BufferProtocol.OrderIsKept | rmw_fastrtps_cpp/src/rmw_publish.cpp:44-132 | with one publication at a time, endpoints, then those in creation, then pending, are the subscribers in the order of discovery |
| BufferProtocol.OrderKeptExactly | rmw_fastrtps_cpp/src/rmw_publish.cpp:44-132 | in every lossless run the endpoints are in the order of discovery exactly when no publication appended subscribers while one that had moved the pending list out earlier still held some |
| BufferProtocol.OverlapReorders | rmw_fastrtps_cpp/src/rmw_publish.cpp:126-131 | a run from the initial state in which two publications overlap and append in the other order |
| BufferProtocol.CallIsItsSteps | rmw_fastrtps_cpp/src/rmw_publish.cpp:44-132 | the machine's steps of one undisturbed publication, up to its write, are what the method does to the state |
| BufferProtocol.CountedAreReached | rmw_fastrtps_cpp/src/rmw_publish.cpp:44-228 | with successful creations and no destruction, however discovery and other publications interleave, a buffer-route publication reaches each subscriber it counted by exactly one write, unless another publication has moved that one out and not appended it yet, which it misses |
| BufferProtocol.OverlapSkips | rmw_fastrtps_cpp/src/rmw_publish.cpp:252-273 | a run from the initial state in which one publication counts a matched subscriber, another moves it out, and the first then writes to nobody |
| BufferProtocol.NobodyReachedTwice | rmw_fastrtps_cpp/src/rmw_publish.cpp:139-228 | whenever a publication writes, in any run, nobody is reached by two of its writes |
| BufferProtocol.PublishReachesEach | rmw_fastrtps_cpp/src/rmw_publish.cpp:252-273 | in such runs with one publication at a time, discovery interleaving, each reaches every subscriber it counted by exactly one write |
| BufferProtocol.RouteIsForMatched | rmw_fastrtps_cpp/src/rmw_publish.cpp:252-265 | in every reachable state in which the recorded are matched, the buffer route is taken exactly when matched and recorded coincide |
| BufferProtocol.RouteReachesMatched | rmw_fastrtps_cpp/src/rmw_publish.cpp:252-273 | in such runs, when those counted were matched, every subscriber matched when the route was chosen gets exactly one write, unless another publication holds it, and then none |
| BufferProtocol.QuiescentUnlessPublishing | rmw_fastrtps_cpp/src/rmw_publisher.cpp:361-378 | after destruction the collections stay empty for ever, whatever is in flight, exactly when no publication holds a subscriber it moved out |
| BufferProtocol.NoNewCalls | rmw_fastrtps_cpp/src/buffer_endpoint_registry.cpp:75-101 | once unregistered, a registrant only sees calls that were already in flight |
| BufferSubscriptions.BufferSubscription.OnPublisherDiscovered | rmw_fastrtps_cpp/src/rmw_subscription.cpp:151-198 | records the metadata of a new publisher and wakes the waiting thread exactly then |
| BufferSubscriptions.BufferSubscription.Destroy | rmw_fastrtps_cpp/src/rmw_subscription.cpp:300-305 | not alive, no metadata |
| BufferSubscriptions.FirstReportStands | rmw_fastrtps_cpp/src/rmw_subscription.cpp:160-193 | after any row of calls exactly the reported publishers are on record, each with what was reported first |
| BufferSubscriptions.GoneStaysEmpty | rmw_fastrtps_cpp/src/rmw_subscription.cpp:300-313 | after destruction whatever calls are in flight leave the metadata empty |
| UserData.BackendsReadBack | rmw_fastrtps_shared_cpp/src/qos.cpp:168-217 | parsing an encoded backend map returns the map, for every iteration order, behind entries of other keys and before anything that brings no backends |
| UserData.EmptyWritesNothing | rmw_fastrtps_shared_cpp/src/qos.cpp:285-287 | an empty advertisement, and only that, writes no entry |
| UserData.BackendsExample | rmw_fastrtps_shared_cpp/src/qos.cpp:168-187 | the text of one backend and of two, literally |
| UserData.BareNameRead | rmw_fastrtps_shared_cpp/src/qos.cpp:200-216 | a name without a colon is read with an empty aux |
| UserData.NamelessPassed | rmw_fastrtps_shared_cpp/src/qos.cpp:206-215 | an entry without a name, and an empty one, is passed over |
| UserData.GidBringsNoBackends | rmw_fastrtps_cpp/src/rmw_publish.cpp:98-104 | the GID of the main writer, appended to the user data, brings no backends |
| UserData.GidReadBack | rmw_fastrtps_shared_cpp/src/qos.cpp:219-255 | for every 16 octets: parsing behind any text without the tag, and before any text, returns the GID, for every tag without a border |
| UserData.HexTextForm | rmw_fastrtps_shared_cpp/src/qos.cpp:219-229 | two lower-case digits to an octet, upper half first, by their character codes |
| UserData.OddPairs | rmw_fastrtps_shared_cpp/src/qos.cpp:248-253 | what pairs of upper-case digits, blanks, signs and other characters are read as |
| UserData.GidNeedsAllDigits | rmw_fastrtps_shared_cpp/src/qos.cpp:231-246 | a GID is read exactly when 32 characters follow the first tag |
| UserData.PgidBorderless | rmw_fastrtps_cpp/src/rmw_publish.cpp:98-104 | the tag in use has no border |
| UserData.EncodeBufferBackends | rmw_fastrtps_shared_cpp/src/qos.cpp:168-187 | the loop with its first-flag writes the specified entry |
| UserData.ParseBufferBackends | rmw_fastrtps_shared_cpp/src/qos.cpp:200-216 | the getline loop returns the map the value stands for, later entries replacing earlier ones |
| UserData.EncodeEndpointGid | rmw_fastrtps_shared_cpp/src/qos.cpp:219-229 | writes the tag and two lower-case digits per octet |
| UserData.ParseEndpointGid | rmw_fastrtps_shared_cpp/src/qos.cpp:231-255 | fills the GID in place exactly when 32 characters follow the first tag, else leaves it; malformed pairs give what a hexadecimal stream read gives |
| ChannelSelection.SelectBackends | rmw_fastrtps_cpp/src/subscription.cpp:698-767 | the selection loops compute CPU-only, the advertised map and the backend types as specified |
| ChannelSelection.AdvertisedExactly | rmw_fastrtps_cpp/src/subscription.cpp:711-767 | for every list of words: only "cpu" without metadata when nothing else is listed, all that is installed with "any", and otherwise exactly the listed words that are installed and not "cpu", with their metadata |
| ChannelSelection.OptionExample | rmw_fastrtps_cpp/src/subscription.cpp:711-725 | commas part the words, and spaces and tabs are dropped around them |
| ChannelSelection.ParseRequested | rmw_fastrtps_cpp/src/subscription.cpp:711-725 | the split-and-trim loop yields the words of the option |
| ChannelSelection.WordsReadBack | rmw_fastrtps_cpp/src/subscription.cpp:711-725 | the words of a comma-separated option come out whatever blanks surround them, and what is nothing but blanks is dropped |
| ChannelSelection.ChannelsMeet | rmw_fastrtps_cpp/src/rmw_publisher.cpp:159-163 | publisher and subscriber choose the same channel exactly unless "any" was requested with exactly {"cpu"} installed |
| ChannelSelection.SharedExactly | rmw_fastrtps_cpp/src/rmw_publisher.cpp:159-163 | the shared channel is opened exactly when nothing but "cpu" is listed, and picked exactly when nothing but "cpu" is advertised |
| ChannelSelection.ChannelsMeetThroughUserData | rmw_fastrtps_cpp/src/subscription.cpp:858-924 | the same after the advertisement went through user data; an empty selection writes nothing and is read as nothing |
| ChannelSelection.OwnTopicsAreOwn | rmw_fastrtps_cpp/src/subscription.cpp:891-894 | distinct subscribers have distinct channel topics, none of them the shared CPU topic |
| Wakeup.NeverLost | rmw_fastrtps_cpp/src/rmw_take.cpp:61-190 | over every interleaving of arrivals, listener, waits and takes of good samples: while samples are left the guard is set, or someone is about to set it, or the application was told and has not taken |
| Wakeup.StepKeepsWakeup | rmw_fastrtps_cpp/src/rmw_take.cpp:105-163 | exactly which step may lose the wakeup: a take of a sample that is invalid or does not deserialize, with samples behind it and nobody else attending |
| Wakeup.AtRestTheGuardIsSet | rmw_fastrtps_shared_cpp/src/rmw_wait.cpp:88-92 | when every thread is at rest, samples that are left have the guard set |
| Wakeup.BadSampleLosesWakeup | rmw_fastrtps_cpp/src/rmw_take.cpp:116-118 | for every row of arrivals with a bad sample before another: a run over that row, from the start, that leaves the other in the reader with the guard not set and nobody attending |
| Wakeup.RowsThatKeepWakeup | rmw_fastrtps_cpp/src/rmw_take.cpp:105-163 | every schedule of a row of arrivals keeps the wakeup exactly when no sample but the last is bad |
| Wakeup.TakeBufferAware | rmw_fastrtps_cpp/src/rmw_take.cpp:48-191 | which reader loses a sample, whether a message is taken, and exactly when the guard is set again |
| Wakeup.TakeIsItsSteps | rmw_fastrtps_cpp/src/rmw_take.cpp:78-90 | the machine's three steps of an undisturbed take add up to what the method does |
| Wakeup.HasTriggeredCondition | rmw_fastrtps_shared_cpp/src/rmw_wait.cpp:44-122 | true exactly when some condition is triggered or some reader or buffer guard has data |
| Wakeup.MarkSubscriptions | rmw_fastrtps_shared_cpp/src/rmw_wait.cpp:236-259 | the slots left are exactly those ready, also when one subscription appears twice, and exactly the guards that made a slot ready are cleared |
| Wakeup.SlotsTell | rmw_fastrtps_shared_cpp/src/rmw_wait.cpp:236-259 | a slot is left ready exactly when some subscription has data or a triggered guard, and a triggered guard is only cleared for a slot that is left ready |
| RequestReply.JoinSplit | rmw_fastrtps_shared_cpp/src/rmw_response.cpp:134-137 | joining the two words of a split number gives the number, for all 64-bit values |
| RequestReply.SplitJoin | rmw_fastrtps_shared_cpp/src/rmw_request.cpp:134-136 | splitting a joined pair gives the pair, for all words |
| RequestReply.WordsOfNumber | rmw_fastrtps_shared_cpp/src/rmw_response.cpp:134-137 | the upper word times 2^32 and the lower word add up to the number |
| RequestReply.ResponsesReachTheirRequests | rmw_fastrtps_shared_cpp/src/rmw_response.cpp:71-97 | over every run with loss, repetition and reordering, a client accepts a response exactly when it was sent for its own request, and reports the number its call returned for that very request |
| RequestReply.IdsAreUnique | rmw_fastrtps_shared_cpp/src/rmw_request.cpp:58-68 | no client gets one id for two requests |
| RequestReply.CallsCorrelate | rmw_fastrtps_shared_cpp/src/rmw_response.cpp:71-137 | for every id and whether or not the request names the response reader, the header a service takes carries the id, and the response it sends for that header is one the client accepts, under that id |
| RequestReply.HeadersNameTheClient | rmw_fastrtps_shared_cpp/src/rmw_request.cpp:117-152 | over every run: each header taken, and each response sent for it, carries the GUID of the client's response reader if its requests name one, else of its request writer, and the number its call returned |
| RequestReply.NetworkKeeps | rmw_fastrtps_shared_cpp/src/rmw_request.cpp:117-152 | in every run identities are copied unchanged from request to header to response, and a client's ids rise |
| RequestReply.Client.SendRequest | rmw_fastrtps_shared_cpp/src/rmw_request.cpp:58-68 | the id returned is the number the writer gave, and the request names the response reader |

## Left out

- TypeSupports.TypeSupport.DeserializeRosMessage: returns the value read, where the code fills the message in place; what a failed call leaves in the message is not modelled.
- EndpointRegistry.BufferEndpointRegistry.NotifySubscriberDiscovered: returns the scheduled calls; that they are made outside the lock, in any order and after any delay, is modelled by the machine in BufferProtocol.
- BufferPublishers.BufferPublisher.CreatePendingBufferWriters: a call no other locked section comes between; how the sections of several calls interleave is modelled by the machine in BufferProtocol.
- BufferPublishers.BufferPublisher.PublishToBufferEndpoints: likewise, and why a write fails (no context, the endpoint codec, the writer) is one answer per channel.
- BufferPublishers.BufferPublisher.Publish: likewise.
- Wakeup.HasTriggeredCondition: events, clients and services enter as the answers of their conditions, and the passes that zero their slots are not modelled.
- Machine overflow of sizes and cursors: positions are unbounded; only the 32-bit length words, the 8-bit copy counter and the 64-bit sequence numbers have their widths.
- NULs inside `std::string` values, encapsulations other than PLAIN_CDR, and the DDS-RPC header.
- Null size and get functions of a member, and type identifiers outside the list: error strings of malformed type supports.
- The generated callbacks of the static type support, the backends' own descriptors, dynamic messages, and type-object registration.
- Creation of Fast DDS entities, QoS profiles, environment, security, logging and tracing.
- Reference counts of type supports and topics, loans, event counters, name demangling, and argument checks of the rmw functions.
- Waiting for the client's response reader before a response is sent: a response that is not sent is a step the machine does not take.
- MD5 collisions: digests say nothing about keys.
