/**
 A buffer-aware publisher's record of its subscribers: those served by the shared CPU channel,
 those that wait for a writer of their own, and those that have one.
 */
module BufferPublishers {
  import opened EndpointRegistry

  /** A subscriber with a peer-to-peer channel, made or still to be made. */
  datatype Peer = Peer(target: Gid, backends: map<string, string>)

  datatype State = State(alive: bool, cpuOnly: seq<Gid>, pending: seq<Peer>, endpoints: seq<Peer>)

  const NEW_PUBLISHER := State(true, [], [], [])
  const DESTROYED := State(false, [], [], [])

  function Targets(peers: seq<Peer>): (gids: seq<Gid>)
    ensures |gids| == |peers|
    ensures forall k :: 0 <= k < |peers| ==> gids[k] == peers[k].target
  {
    seq(|peers|, k requires 0 <= k < |peers| => peers[k].target)
  }

  /** The GIDs a publisher has on record, each as often as it is recorded. */
  function Recorded(s: State): multiset<Gid>
  {
    multiset(s.cpuOnly) + multiset(Targets(s.pending)) + multiset(Targets(s.endpoints))
  }

  predicate OnlyCpu(backends: map<string, string>)
  {
    (|backends| == 1 && "cpu" in backends) || |backends| == 0
  }

  /** No backend but "cpu" is advertised. */
  lemma OnlyCpuMeans(backends: map<string, string>)
    ensures OnlyCpu(backends) <==> forall name :: name in backends ==> name == "cpu"
  {
    assert |backends| == |backends.Keys|;
    if "cpu" in backends {
      assert backends.Keys == {"cpu"} + (backends.Keys - {"cpu"});
    } else if backends != map[] {
      var name :| name in backends;
      assert backends.Keys == {name} + (backends.Keys - {name});
    }
  }

  /** The discovery callback's critical section. */
  function Discover(s: State, info: Info): State
  {
    if !s.alive || info.gid in Targets(s.endpoints) || info.gid in s.cpuOnly then s
    else if OnlyCpu(info.backends) then s.(cpuOnly := s.cpuOnly + [info.gid])
    else if info.gid in Targets(s.pending) then s
    else s.(pending := s.pending + [Peer(info.gid, info.backends)])
  }

  /** Where the callback finds a subscriber that it need not record again. */
  ghost predicate Served(s: State, info: Info)
  {
    || info.gid in Targets(s.endpoints) || info.gid in s.cpuOnly
    || (info.gid in Targets(s.pending) && exists name :: name in info.backends && name != "cpu")
  }

  /**
   The callback leaves alone exactly a publisher that is gone or serves the subscriber; any other
   subscriber it records once, as CPU-only exactly when no other backend is advertised. A second
   call changes nothing.
   */
  lemma DiscoverExactly(s: State, info: Info)
    ensures var s' := Discover(s, info);
      && (s' == s <==> !s.alive || Served(s, info))
      && (s' != s ==>
            && Recorded(s') == Recorded(s) + multiset{info.gid}
            && s'.alive && s'.endpoints == s.endpoints && s.cpuOnly <= s'.cpuOnly && s.pending <= s'.pending
            && (|s'.cpuOnly| > |s.cpuOnly| <==> forall name :: name in info.backends ==> name == "cpu"))
      && Discover(s', info) == s'
  {
    OnlyCpuMeans(info.backends);
    var p := Peer(info.gid, info.backends);
    assert Targets(s.pending + [p]) == Targets(s.pending) + [info.gid];
    hide OnlyCpu, Targets;
  }

  /** The peers whose topic and writer could be made. */
  function Created(peers: seq<Peer>, creates: Gid -> bool): seq<Peer>
  {
    if peers == [] then []
    else (if creates(peers[0].target) then [peers[0]] else []) + Created(peers[1..], creates)
  }

  function WithWriters(s: State, creates: Gid -> bool): State
  {
    s.(pending := [], endpoints := s.endpoints + Created(s.pending, creates))
  }

  /** With every creation successful no pending subscriber is lost, and their order is kept. */
  lemma {:induction false} AllCreated(peers: seq<Peer>, creates: Gid -> bool)
    requires forall k :: 0 <= k < |peers| ==> creates(peers[k].target)
    ensures Created(peers, creates) == peers
  {
    if peers != [] {
      AllCreated(peers[1..], creates);
    }
  }

  lemma TargetsCount(peers: seq<Peer>, more: seq<Peer>)
    ensures multiset(Targets(peers + more)) == multiset(Targets(peers)) + multiset(Targets(more))
  {
    assert Targets(peers + more) == Targets(peers) + Targets(more);
  }

  lemma CreatedStep(peers: seq<Peer>, creates: Gid -> bool, i: nat)
    requires i < |peers|
    ensures Created(peers[i..], creates) == (if creates(peers[i].target) then [peers[i]] else []) + Created(peers[i + 1..], creates)
  {
    assert peers[i..][1..] == peers[i + 1..];
  }

  /** Whatever fails, exactly the pending subscribers that did not fail get a writer. */
  lemma {:induction false} CreatedCount(peers: seq<Peer>, creates: Gid -> bool, gid: Gid)
    ensures multiset(Targets(Created(peers, creates)))[gid] == if creates(gid) then multiset(Targets(peers))[gid] else 0
  {
    if peers == [] {
      assert Targets([]) == [];
    } else {
      var first, rest := if creates(peers[0].target) then [peers[0]] else [], Created(peers[1..], creates);
      CreatedCount(peers[1..], creates, gid);
      hide Created, Targets;
      TargetsCount(first, rest);
      TargetsCount([peers[0]], peers[1..]);
      assert peers == [peers[0]] + peers[1..];
      assert Targets([peers[0]]) == [peers[0].target];
      if first == [] {
        assert Targets([]) == [];
        assert multiset(Targets(first))[gid] == 0;
      }
    }
  }

  // ---------------------------------------------------------------------------------------
  // One publication
  // ---------------------------------------------------------------------------------------

  /** A write to the shared CPU channel, or to the channel of one subscriber. */
  datatype Write = Shared | Own(target: Gid)

  function OwnWrites(endpoints: seq<Peer>): (writes: seq<Write>)
    ensures |writes| == |endpoints|
    ensures forall k :: 0 <= k < |endpoints| ==> writes[k] == Own(endpoints[k].target)
  {
    seq(|endpoints|, k requires 0 <= k < |endpoints| => Own(endpoints[k].target))
  }

  function Writes(s: State): seq<Write>
  {
    (if s.cpuOnly != [] then [Shared] else []) + OwnWrites(s.endpoints)
  }

  /** The shared channel reaches every CPU-only subscriber, its own channel only its target. */
  predicate Reaches(s: State, w: Write, gid: Gid)
  {
    match w
    case Shared => gid in s.cpuOnly
    case Own(target) => gid == target
  }

  /** By how many of the writes a subscriber is reached. */
  function Copies(s: State, writes: seq<Write>, gid: Gid): nat
  {
    if writes == [] then 0
    else (if Reaches(s, writes[0], gid) then 1 else 0) + Copies(s, writes[1..], gid)
  }

  lemma {:induction false} OwnCopies(s: State, endpoints: seq<Peer>, gid: Gid)
    ensures Copies(s, OwnWrites(endpoints), gid) == multiset(Targets(endpoints))[gid]
  {
    if endpoints != [] {
      OwnCopies(s, endpoints[1..], gid);
      assert OwnWrites(endpoints)[1..] == OwnWrites(endpoints[1..]);
      assert Targets(endpoints) == [endpoints[0].target] + Targets(endpoints[1..]);
    }
  }

  lemma CopiesAre(s: State, gid: Gid)
    ensures Copies(s, Writes(s), gid) == (if gid in s.cpuOnly then 1 else 0) + multiset(Targets(s.endpoints))[gid]
  {
    OwnCopies(s, s.endpoints, gid);
    if s.cpuOnly != [] {
      assert Writes(s)[1..] == OwnWrites(s.endpoints);
    } else {
      assert Writes(s) == OwnWrites(s.endpoints);
    }
  }

  /**
   On the buffer route each recorded subscriber is reached by exactly one write, and nobody
   else by any, once every pending writer could be made.
   */
  lemma EachReachedOnce(s: State, creates: Gid -> bool, gid: Gid)
    requires forall k :: 0 <= k < |s.pending| ==> creates(s.pending[k].target)
    requires Recorded(s)[gid] <= 1
    ensures var s' := WithWriters(s, creates);
      Copies(s', Writes(s'), gid) == Recorded(s)[gid]
  {
    hide Created, Copies, Writes, Reaches;
    var s' := WithWriters(s, creates);
    AllCreated(s.pending, creates);
    CopiesAre(s', gid);
    TargetsCount(s.endpoints, s.pending);
    hide Targets;
    assert gid in s.cpuOnly <==> multiset(s.cpuOnly)[gid] > 0;
  }

  /** The writes that do not fail. */
  function Delivered(writes: seq<Write>, delivers: Write -> bool): seq<Write>
  {
    if writes == [] then []
    else (if delivers(writes[0]) then [writes[0]] else []) + Delivered(writes[1..], delivers)
  }

  lemma {:induction false} DeliveredAppend(a: seq<Write>, b: seq<Write>, delivers: Write -> bool)
    ensures Delivered(a + b, delivers) == Delivered(a, delivers) + Delivered(b, delivers)
  {
    if a == [] {
      assert a + b == b;
    } else {
      var first := if delivers(a[0]) then [a[0]] else [];
      assert (a + b)[1..] == a[1..] + b;
      assert Delivered(a + b, delivers) == first + Delivered(a[1..] + b, delivers) && Delivered(a, delivers) == first + Delivered(a[1..], delivers);
      hide Delivered;
      DeliveredAppend(a[1..], b, delivers);
      assert first + (Delivered(a[1..], delivers) + Delivered(b, delivers)) == first + Delivered(a[1..], delivers) + Delivered(b, delivers);
    }
  }

  /** A subscriber only depends on the writes that reach it. */
  lemma {:induction false} OthersFail(s: State, writes: seq<Write>, delivers: Write -> bool, gid: Gid, ok: bool)
    requires forall w :: w in writes && Reaches(s, w, gid) ==> delivers(w) == ok
    ensures Copies(s, Delivered(writes, delivers), gid) == if ok then Copies(s, writes, gid) else 0
  {
    if writes != [] {
      assert forall w :: w in writes[1..] ==> w in writes;
      OthersFail(s, writes[1..], delivers, gid, ok);
      hide Reaches;
      if delivers(writes[0]) {
        assert ([writes[0]] + Delivered(writes[1..], delivers))[1..] == Delivered(writes[1..], delivers);
      } else {
        assert [] + Delivered(writes[1..], delivers) == Delivered(writes[1..], delivers);
      }
    }
  }

  /** Where a publication reaches a subscriber, if it is on record. */
  function Channel(s: State, gid: Gid): Write
  {
    if gid in s.cpuOnly then Shared else Own(gid)
  }

  lemma OwnIsEndpoint(s: State, gid: Gid)
    requires Own(gid) in Writes(s)
    ensures multiset(Targets(s.endpoints))[gid] > 0
  {
    var k :| 0 <= k < |s.endpoints| && OwnWrites(s.endpoints)[k] == Own(gid);
    assert Targets(s.endpoints)[k] == gid;
  }

  lemma OneChannel(s: State, w: Write, gid: Gid)
    requires Recorded(s)[gid] <= 1 && w in Writes(s) && Reaches(s, w, gid)
    ensures w == Channel(s, gid)
  {
    assert gid in s.cpuOnly ==> multiset(s.cpuOnly)[gid] > 0;
    if w != Shared {
      hide Writes, Targets;
      OwnIsEndpoint(s, gid);
    }
  }

  /** A write that fails costs the subscribers of that channel their message, and nobody else. */
  lemma FailuresStayApart(s: State, creates: Gid -> bool, delivers: Write -> bool, gid: Gid)
    requires forall k :: 0 <= k < |s.pending| ==> creates(s.pending[k].target)
    requires Recorded(s)[gid] <= 1
    ensures var s' := WithWriters(s, creates);
      Copies(s', Delivered(Writes(s'), delivers), gid) == if delivers(Channel(s', gid)) then Recorded(s)[gid] else 0
  {
    var s' := WithWriters(s, creates);
    EachReachedOnce(s, creates, gid);
    AllCreated(s.pending, creates);
    TargetsCount(s.endpoints, s.pending);
    assert Targets([]) == [];
    hide Created, Copies, Writes, Reaches, Targets;
    assert Recorded(s')[gid] <= 1;
    forall w | w in Writes(s') && Reaches(s', w, gid)
      ensures w == Channel(s', gid)
    {
      OneChannel(s', w, gid);
    }
    OthersFail(s', Writes(s'), delivers, gid, delivers(Channel(s', gid)));
  }

  /** Everybody a publisher has on record. */
  function Everybody(s: State): seq<Gid>
  {
    s.cpuOnly + Targets(s.pending) + Targets(s.endpoints)
  }

  /** The number of subscribers rmw_publish takes for buffer-aware. */
  function RecordedCount(s: State): nat
  {
    |s.endpoints| + |s.pending| + |s.cpuOnly|
  }

  lemma OwnWritesStep(endpoints: seq<Peer>, i: nat, delivers: Write -> bool)
    requires i < |endpoints|
    ensures Delivered(OwnWrites(endpoints[..i + 1]), delivers)
      == Delivered(OwnWrites(endpoints[..i]), delivers) + (if delivers(Own(endpoints[i].target)) then [Own(endpoints[i].target)] else [])
  {
    var own := Own(endpoints[i].target);
    assert OwnWrites(endpoints[..i + 1]) == OwnWrites(endpoints[..i]) + [own];
    DeliveredAppend(OwnWrites(endpoints[..i]), [own], delivers);
    assert Delivered([own], delivers) == if delivers(own) then [own] else [] by {
      assert [own][1..] == [];
    }
  }

  // ---------------------------------------------------------------------------------------
  // The publisher
  // ---------------------------------------------------------------------------------------

  class BufferPublisher {
    var alive: bool
    var cpuOnlySubscribers: seq<Gid>
    var pending: seq<Peer>
    var endpoints: seq<Peer>

    ghost function Value(): State
      reads this
    {
      State(alive, cpuOnlySubscribers, pending, endpoints)
    }

    constructor ()
      ensures Value() == NEW_PUBLISHER
    {
      alive := true;
      cpuOnlySubscribers, pending, endpoints := [], [], [];
    }

    method HasTarget(peers: seq<Peer>, gid: Gid) returns (found: bool)
      ensures found <==> gid in Targets(peers)
    {
      for i := 0 to |peers|
        invariant gid !in Targets(peers)[..i]
      {
        if peers[i].target == gid {
          assert Targets(peers)[i] == gid;
          return true;
        }
        assert Targets(peers)[..i + 1] == Targets(peers)[..i] + [peers[i].target];
      }
      assert Targets(peers)[..|peers|] == Targets(peers);
      found := false;
    }

    method HasGid(gids: seq<Gid>, gid: Gid) returns (found: bool)
      ensures found <==> gid in gids
    {
      for i := 0 to |gids|
        invariant gid !in gids[..i]
      {
        if gids[i] == gid {
          return true;
        }
      }
      found := false;
    }

    method OnSubscriberDiscovered(info: Info)
      modifies this
      ensures Value() == Discover(old(Value()), info)
    {
      if !alive {
        return;
      }
      var duplicate := HasTarget(endpoints, info.gid);
      if duplicate {
        return;
      }
      duplicate := HasGid(cpuOnlySubscribers, info.gid);
      if duplicate {
        return;
      }
      if (|info.backends| == 1 && "cpu" in info.backends) || |info.backends| == 0 {
        cpuOnlySubscribers := cpuOnlySubscribers + [info.gid];
        return;
      }
      duplicate := HasTarget(pending, info.gid);
      if duplicate {
        return;
      }
      pending := pending + [Peer(info.gid, info.backends)];
    }

    // The sections under the lock, of which rmw_publish runs four, releasing it in between.

    method CountRecorded() returns (count: nat)
      ensures count == |Everybody(Value())|
    {
      count := |endpoints| + |pending| + |cpuOnlySubscribers|;
    }

    method TakePending() returns (taken: seq<Peer>)
      modifies this`pending
      ensures taken == old(pending) && Value() == old(Value()).(pending := [])
    {
      taken := pending;
      pending := [];
    }

    method AppendEndpoints(newEndpoints: seq<Peer>)
      modifies this`endpoints
      ensures Value() == old(Value()).(endpoints := old(endpoints) + newEndpoints)
    {
      endpoints := endpoints + newEndpoints;
    }

    /** `delivers` says which channel has a writer, takes the serialized message and writes it. */
    method WriteToChannels(delivers: Write -> bool) returns (writes: seq<Write>)
      ensures writes == Delivered(Writes(Value()), delivers)
    {
      writes := [];
      if |cpuOnlySubscribers| != 0 && delivers(Shared) {
        writes := writes + [Shared];
      }
      var first := writes;
      assert Delivered([], delivers) == [];
      ghost var shared := if cpuOnlySubscribers != [] then [Shared] else [];
      assert Delivered(shared, delivers) == first;
      hide Delivered;
      for i := 0 to |endpoints|
        invariant writes == first + Delivered(OwnWrites(endpoints[..i]), delivers)
      {
        var own := Own(endpoints[i].target);
        OwnWritesStep(endpoints, i, delivers);
        if !delivers(own) {
          continue;
        }
        assert first + (Delivered(OwnWrites(endpoints[..i]), delivers) + [own]) == writes + [own];
        writes := writes + [own];
      }
      assert endpoints[..|endpoints|] == endpoints;
      DeliveredAppend(shared, OwnWrites(endpoints), delivers);
    }

    /** What happens without the lock: `creates` says for which subscribers a topic and a writer come about. */
    method MakeWriters(taken: seq<Peer>, creates: Gid -> bool) returns (newEndpoints: seq<Peer>)
      ensures newEndpoints == Created(taken, creates)
    {
      newEndpoints := [];
      assert taken[0..] == taken && taken[|taken|..] == [];
      assert Created([], creates) == [];
      hide Created;
      for i := 0 to |taken|
        invariant Created(taken, creates) == newEndpoints + Created(taken[i..], creates)
      {
        CreatedStep(taken, creates, i);
        ghost var rest := Created(taken[i + 1..], creates);
        if !creates(taken[i].target) {
          assert [] + rest == rest;
          continue;
        }
        assert newEndpoints + ([taken[i]] + rest) == (newEndpoints + [taken[i]]) + rest;
        newEndpoints := newEndpoints + [taken[i]];
      }
    }

    // The calls, as they go when no other section comes in between.

    method CreatePendingBufferWriters(creates: Gid -> bool)
      modifies this`pending, this`endpoints
      ensures Value() == WithWriters(old(Value()), creates)
    {
      if |pending| == 0 {
        assert endpoints + Created(pending, creates) == endpoints;
        return;
      }
      var taken := TakePending();
      var newEndpoints := MakeWriters(taken, creates);
      AppendEndpoints(newEndpoints);
    }

    method PublishToBufferEndpoints(creates: Gid -> bool, delivers: Write -> bool) returns (writes: seq<Write>)
      modifies this`pending, this`endpoints
      ensures Value() == WithWriters(old(Value()), creates)
      ensures writes == Delivered(Writes(Value()), delivers)
    {
      CreatePendingBufferWriters(creates);
      writes := WriteToChannels(delivers);
    }

    /**
     The route of rmw_publish, given the number of matched subscriptions: the writes of the
     buffer route, or none of them when the main writer is to publish.
     */
    method Publish(totalMatched: nat, creates: Gid -> bool, delivers: Write -> bool) returns (bufferRoute: bool, writes: seq<Write>)
      modifies this`pending, this`endpoints
      ensures bufferRoute <==> totalMatched <= RecordedCount(old(Value()))
      ensures bufferRoute ==> Value() == WithWriters(old(Value()), creates) && writes == Delivered(Writes(Value()), delivers)
      ensures !bufferRoute ==> Value() == old(Value()) && writes == []
    {
      var bufferAwareCount := CountRecorded();
      bufferRoute, writes := totalMatched <= bufferAwareCount, [];
      if bufferRoute {
        writes := PublishToBufferEndpoints(creates, delivers);
      }
    }

    method Destroy() returns (destroyed: seq<Peer>)
      modifies this
      ensures Value() == DESTROYED
      ensures destroyed == old(endpoints)
    {
      alive := false;
      destroyed := endpoints;
      endpoints, pending, cpuOnlySubscribers := [], [], [];
    }
  }

  // ---------------------------------------------------------------------------------------
  // Route safety
  // ---------------------------------------------------------------------------------------

  ghost predicate NoneTwice(gids: multiset<Gid>)
  {
    forall gid :: gids[gid] <= 1
  }

  function SetOf(gids: seq<Gid>): set<Gid>
  {
    set gid | gid in gids
  }

  lemma {:induction false} SizeOfSet(gids: seq<Gid>)
    requires NoneTwice(multiset(gids))
    ensures |SetOf(gids)| == |gids|
  {
    if gids != [] {
      var n := |gids| - 1;
      var rest := gids[..n];
      assert gids == rest + [gids[n]];
      assert multiset(gids) == multiset(rest) + multiset{gids[n]};
      forall gid
        ensures multiset(rest)[gid] <= 1
      {
        assert multiset(gids)[gid] <= 1;
      }
      SizeOfSet(rest);
      assert multiset(gids)[gids[n]] <= 1;
      assert gids[n] !in rest;
      assert SetOf(gids) == SetOf(rest) + {gids[n]};
    }
  }

  /**
   rmw_publish compares two numbers. When nobody is on record twice, it takes the buffer route
   exactly when no more subscribers are matched without being on record than are on record
   without being matched.
   */
  lemma RouteCompares(s: State, matched: set<Gid>)
    requires NoneTwice(Recorded(s))
    ensures var recorded := SetOf(Everybody(s));
      |matched| <= RecordedCount(s) <==> |matched - recorded| <= |recorded - matched|
  {
    var recorded := SetOf(Everybody(s));
    assert multiset(Everybody(s)) == Recorded(s);
    SizeOfSet(Everybody(s));
    assert matched == (matched - recorded) + (matched * recorded);
    assert recorded == (recorded - matched) + (matched * recorded);
  }

  /**
   As long as everybody on record is matched, the buffer route is taken exactly when the
   matched are the recorded, so no legacy subscriber is ever skipped.
   */
  lemma RouteIsSafe(s: State, matched: set<Gid>)
    requires NoneTwice(Recorded(s))
    requires SetOf(Everybody(s)) <= matched
    ensures |matched| <= RecordedCount(s) <==> matched == SetOf(Everybody(s))
  {
    var recorded := SetOf(Everybody(s));
    RouteCompares(s, matched);
    assert recorded - matched == {};
    if matched - recorded == {} {
      assert matched == recorded;
    } else {
      var x :| x in matched - recorded;
      assert matched != recorded;
    }
  }

  /** Whoever is matched when the buffer route is taken is reached by exactly one write. */
  lemma MatchedReachedOnce(s: State, creates: Gid -> bool, matched: set<Gid>, gid: Gid)
    requires NoneTwice(Recorded(s)) && SetOf(Everybody(s)) <= matched
    requires forall k :: 0 <= k < |s.pending| ==> creates(s.pending[k].target)
    requires |matched| <= RecordedCount(s)
    ensures var s' := WithWriters(s, creates);
      Copies(s', Writes(s'), gid) == if gid in matched then 1 else 0
  {
    RouteIsSafe(s, matched);
    EachReachedOnce(s, creates, gid);
    assert multiset(Everybody(s)) == Recorded(s);
    assert gid in Everybody(s) <==> multiset(Everybody(s))[gid] > 0;
  }

  /**
   The hypothesis matters, since nobody is ever struck off the record: for every legacy
   subscriber that takes the place of one that left, the buffer route skips it.
   */
  lemma DepartedSubscriberHidesLegacy(departed: Gid, legacy: Gid, creates: Gid -> bool)
    requires departed != legacy
    ensures var s := Discover(NEW_PUBLISHER, Info(departed, "t", map[]));
      && |{legacy}| <= RecordedCount(s)
      && Copies(WithWriters(s, creates), Writes(WithWriters(s, creates)), legacy) == 0
  {
    var s := WithWriters(Discover(NEW_PUBLISHER, Info(departed, "t", map[])), creates);
    assert s.cpuOnly == [departed] && s.endpoints == [];
    CopiesAre(s, legacy);
  }
}
