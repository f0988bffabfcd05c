/**
 The per-context registry of buffer-aware endpoints: discovery callbacks are kept per topic,
 endpoints once and for all, and every critical section schedules the calls that its caller
 makes after it has left the lock.
 */
module EndpointRegistry {

  /** Endpoint GIDs are only compared for equality. */
  type Gid = nat

  /** Identifies a callback object; registering copies it, and no two objects are the same. */
  type Callback = nat

  datatype Info = Info(gid: Gid, topic: string, backends: map<string, string>)

  datatype Entry = Entry(registrant: Gid, callback: Callback)

  datatype Call = Call(callback: Callback, info: Info)

  /** One of the two symmetric halves of the registry. */
  datatype Side = Side(callbacks: map<string, seq<Entry>>, known: seq<Info>) {

    function On(topic: string): seq<Entry> {
      if topic in callbacks then callbacks[topic] else []
    }
  }

  const EMPTY_SIDE := Side(map[], [])

  predicate IsKnown(known: seq<Info>, gid: Gid)
  {
    exists k :: 0 <= k < |known| && known[k].gid == gid
  }

  /** The calls of one callback for the known endpoints on a topic. */
  function CallsFor(cb: Callback, topic: string, known: seq<Info>): seq<Call>
  {
    if known == [] then []
    else (if known[0].topic == topic then [Call(cb, known[0])] else []) + CallsFor(cb, topic, known[1..])
  }

  /** The calls of the registered callbacks for one endpoint. */
  function CallsOf(entries: seq<Entry>, info: Info): (calls: seq<Call>)
    ensures |calls| == |entries|
    ensures forall k :: 0 <= k < |entries| ==> calls[k] == Call(entries[k].callback, info)
  {
    seq(|entries|, k requires 0 <= k < |entries| => Call(entries[k].callback, info))
  }

  function Without(entries: seq<Entry>, gid: Gid): seq<Entry>
  {
    if entries == [] then []
    else (if entries[0].registrant == gid then [] else [entries[0]]) + Without(entries[1..], gid)
  }

  datatype Event =
    | Register(topic: string, registrant: Gid, callback: Callback)
    | Notify(info: Info)
    | Unregister(gid: Gid)

  /** The half of the registry behind one critical section. */
  function After(s: Side, e: Event): Side
  {
    match e
    case Register(topic, registrant, cb) => s.(callbacks := s.callbacks[topic := s.On(topic) + [Entry(registrant, cb)]])
    case Notify(info) => if IsKnown(s.known, info.gid) then s else s.(known := s.known + [info])
    case Unregister(gid) => s.(callbacks := map topic | topic in s.callbacks :: Without(s.callbacks[topic], gid))
  }

  /** The calls one critical section schedules. */
  function Scheduled(s: Side, e: Event): seq<Call>
  {
    match e
    case Register(topic, _, cb) => CallsFor(cb, topic, s.known)
    case Notify(info) => if IsKnown(s.known, info.gid) then [] else CallsOf(s.On(info.topic), info)
    case Unregister(_) => []
  }

  /** A row of critical sections, in the order in which they held the lock. */
  function Run(events: seq<Event>): Side
  {
    if events == [] then EMPTY_SIDE else After(Run(events[..|events| - 1]), events[|events| - 1])
  }

  function Calls(events: seq<Event>): seq<Call>
  {
    if events == [] then []
    else Calls(events[..|events| - 1]) + Scheduled(Run(events[..|events| - 1]), events[|events| - 1])
  }

  /** Every registration brings a callback object of its own. */
  predicate OwnCallbacks(events: seq<Event>)
  {
    forall i, j :: 0 <= i < j < |events| && events[i].Register? && events[j].Register? ==> events[i].callback != events[j].callback
  }

  // ---------------------------------------------------------------------------------------
  // When a call is due, in terms of the events alone
  // ---------------------------------------------------------------------------------------

  /** Event `j` is the first news of the endpoint's GID. */
  ghost predicate FirstNews(events: seq<Event>, j: nat, info: Info)
  {
    && j < |events| && events[j] == Notify(info)
    && forall k :: 0 <= k < j && events[k].Notify? ==> events[k].info.gid != info.gid
  }

  /** Registered by event `i`, and not unregistered before event `j`. */
  ghost predicate Stands(events: seq<Event>, i: nat, j: nat, topic: string, registrant: Gid, cb: Callback)
  {
    && i < j <= |events| && events[i] == Register(topic, registrant, cb)
    && forall k :: i < k < j ==> events[k] != Unregister(registrant)
  }

  ghost predicate Due(events: seq<Event>, cb: Callback, info: Info)
  {
    exists i: nat, j: nat, registrant ::
      && FirstNews(events, j, info)
      && i < |events| && events[i] == Register(info.topic, registrant, cb)
      && (j < i || Stands(events, i, j, info.topic, registrant, cb))
  }

  // ---------------------------------------------------------------------------------------
  // What the state remembers of the events
  // ---------------------------------------------------------------------------------------

  ghost predicate DistinctGids(known: seq<Info>)
  {
    forall i, j :: 0 <= i < j < |known| ==> known[i].gid != known[j].gid
  }

  lemma KnownStep(s: Side, e: Event, gid: Gid)
    ensures IsKnown(After(s, e).known, gid) <==> IsKnown(s.known, gid) || (e.Notify? && e.info.gid == gid)
  {
    if e.Notify? && !IsKnown(s.known, e.info.gid) {
      assert After(s, e).known[|s.known|] == e.info;
      forall k | 0 <= k < |s.known|
        ensures After(s, e).known[k] == s.known[k]
      {
      }
    }
  }

  /** The known list never holds a GID twice, and holds the first news of every GID. */
  lemma {:induction false} KnownIsFirstNews(events: seq<Event>)
    ensures DistinctGids(Run(events).known)
    ensures forall info :: info in Run(events).known <==> exists j: nat :: FirstNews(events, j, info)
    ensures forall gid :: IsKnown(Run(events).known, gid) <==> exists k :: 0 <= k < |events| && events[k].Notify? && events[k].info.gid == gid
  {
    if events != [] {
      var n := |events| - 1;
      var before, e := events[..n], events[n];
      KnownIsFirstNews(before);
      var known, known' := Run(before).known, Run(events).known;
      forall info
        ensures info in known' <==> exists j: nat :: FirstNews(events, j, info)
      {
        if j: nat :| FirstNews(before, j, info) {
          assert FirstNews(events, j, info);
        }
        if j: nat :| FirstNews(events, j, info) {
          if j < n {
            assert FirstNews(before, j, info);
          } else {
            assert !IsKnown(known, info.gid);
          }
        }
        if e == Notify(info) && !IsKnown(known, info.gid) {
          assert FirstNews(events, n, info);
        }
      }
      forall gid
        ensures IsKnown(known', gid) <==> exists k :: 0 <= k < |events| && events[k].Notify? && events[k].info.gid == gid
      {
        KnownStep(Run(before), e, gid);
      }
    }
  }

  lemma WithoutMember(entries: seq<Entry>, gid: Gid, x: Entry)
    ensures x in Without(entries, gid) <==> x in entries && x.registrant != gid
  {
    if entries != [] {
      WithoutMember(entries[1..], gid, x);
      assert entries == [entries[0]] + entries[1..];
    }
  }

  ghost predicate DistinctCallbacks(entries: seq<Entry>)
  {
    forall i, j :: 0 <= i < j < |entries| ==> entries[i].callback != entries[j].callback
  }

  ghost predicate HasCallback(entries: seq<Entry>, cb: Callback)
  {
    exists k :: 0 <= k < |entries| && entries[k].callback == cb
  }

  lemma {:induction false} WithoutDistinct(entries: seq<Entry>, gid: Gid)
    requires DistinctCallbacks(entries)
    ensures DistinctCallbacks(Without(entries, gid))
  {
    if entries != [] {
      var rest := Without(entries[1..], gid);
      WithoutDistinct(entries[1..], gid);
      forall k | 0 <= k < |rest|
        ensures rest[k].callback != entries[0].callback
      {
        WithoutMember(entries[1..], gid, rest[k]);
      }
    }
  }

  lemma OnStep(s: Side, e: Event, topic: string, x: Entry)
    ensures x in After(s, e).On(topic) <==>
      (x in s.On(topic) && e != Unregister(x.registrant)) || e == Register(topic, x.registrant, x.callback)
  {
    if e.Unregister? {
      WithoutMember(s.On(topic), e.gid, x);
    }
  }

  lemma StandsStep(events: seq<Event>, i: nat, topic: string, x: Entry)
    requires events != []
    ensures var n, e := |events| - 1, events[|events| - 1];
      Stands(events, i, n + 1, topic, x.registrant, x.callback) <==>
        || (Stands(events[..n], i, n, topic, x.registrant, x.callback) && e != Unregister(x.registrant))
        || (i == n && e == Register(topic, x.registrant, x.callback))
  {
    var n := |events| - 1;
    assert forall k :: 0 <= k < n ==> events[..n][k] == events[k];
  }

  /** The entries on a topic are the registrations that stand. */
  lemma {:induction false} EntriesStand(events: seq<Event>, topic: string, x: Entry)
    ensures x in Run(events).On(topic) <==> exists i: nat :: Stands(events, i, |events|, topic, x.registrant, x.callback)
  {
    if events != [] {
      var n := |events| - 1;
      var before, e := events[..n], events[n];
      EntriesStand(before, topic, x);
      OnStep(Run(before), e, topic, x);
      forall i: nat
        ensures Stands(events, i, n + 1, topic, x.registrant, x.callback) <==>
          || (Stands(before, i, n, topic, x.registrant, x.callback) && e != Unregister(x.registrant))
          || (i == n && e == Register(topic, x.registrant, x.callback))
      {
        StandsStep(events, i, topic, x);
      }
      hide Stands, After;
      if e == Register(topic, x.registrant, x.callback) {
        assert Stands(events, n, n + 1, topic, x.registrant, x.callback);
      } else if x in Run(before).On(topic) && e != Unregister(x.registrant) {
        var i: nat :| Stands(before, i, n, topic, x.registrant, x.callback);
        assert Stands(events, i, n + 1, topic, x.registrant, x.callback);
      }
      if i: nat :| Stands(events, i, |events|, topic, x.registrant, x.callback) {
        if i != n {
          assert Stands(before, i, |before|, topic, x.registrant, x.callback);
        }
      }
    }
  }

  /** The registration of event `i` on a topic, if it still stands at the end. */
  ghost function StandingOf(events: seq<Event>, topic: string, i: nat): seq<Entry>
    requires i < |events|
  {
    var e := events[i];
    if e.Register? && e.topic == topic && Unregister(e.registrant) !in events[i + 1..] then [Entry(e.registrant, e.callback)] else []
  }

  /** Of the first `n` events, the registrations on a topic that stand at the end, in order. */
  ghost function Standing(events: seq<Event>, topic: string, n: nat): seq<Entry>
    requires n <= |events|
  {
    if n == 0 then [] else Standing(events, topic, n - 1) + StandingOf(events, topic, n - 1)
  }

  lemma {:induction false} WithoutAppend(a: seq<Entry>, b: seq<Entry>, gid: Gid)
    ensures Without(a + b, gid) == Without(a, gid) + Without(b, gid)
  {
    if a == [] {
      assert a + b == b;
    } else {
      var first := if a[0].registrant == gid then [] else [a[0]];
      assert (a + b)[1..] == a[1..] + b;
      assert Without(a + b, gid) == first + Without(a[1..] + b, gid) && Without(a, gid) == first + Without(a[1..], gid);
      hide Without;
      WithoutAppend(a[1..], b, gid);
      assert first + (Without(a[1..], gid) + Without(b, gid)) == first + Without(a[1..], gid) + Without(b, gid);
    }
  }

  lemma WithoutOne(x: Entry, gid: Gid)
    ensures Without([x], gid) == if x.registrant == gid then [] else [x]
    ensures Without([], gid) == []
  {
    assert [x][1..] == [];
  }

  ghost function Struck(entries: seq<Entry>, e: Event): seq<Entry>
  {
    if e.Unregister? then Without(entries, e.gid) else entries
  }

  lemma StandingOfStep(events: seq<Event>, e: Event, topic: string, i: nat)
    requires i < |events|
    ensures StandingOf(events + [e], topic, i) == Struck(StandingOf(events, topic, i), e)
  {
    var x := events[i];
    assert (events + [e])[i] == x && (events + [e])[i + 1..] == events[i + 1..] + [e];
    WithoutOne(if x.Register? then Entry(x.registrant, x.callback) else Entry(0, 0), if e.Unregister? then e.gid else 0);
  }

  /** One more event strikes out what it unregisters. */
  lemma {:induction false} StandingStep(events: seq<Event>, e: Event, topic: string, n: nat)
    requires n <= |events|
    ensures Standing(events + [e], topic, n) == Struck(Standing(events, topic, n), e)
    decreases n
  {
    if n == 0 {
      WithoutOne(Entry(0, 0), if e.Unregister? then e.gid else 0);
    } else {
      hide StandingOf, Without;
      StandingStep(events, e, topic, n - 1);
      StandingOfStep(events, e, topic, n - 1);
      if e.Unregister? {
        WithoutAppend(Standing(events, topic, n - 1), StandingOf(events, topic, n - 1), e.gid);
      }
    }
  }

  /** The entries on a topic are in the order in which they were registered. */
  lemma {:induction false} EntriesInOrder(events: seq<Event>, topic: string)
    ensures Run(events).On(topic) == Standing(events, topic, |events|)
  {
    if events != [] {
      var n := |events| - 1;
      var before, e := events[..n], events[n];
      assert events == before + [e] && events[|events|..] == [];
      EntriesInOrder(before, topic);
      StandingStep(before, e, topic, n);
      assert Run(events) == After(Run(before), e);
      WithoutOne(Entry(0, 0), if e.Unregister? then e.gid else 0);
    }
  }

  /** The first news of each endpoint among the first `n` events, in order. */
  ghost function News(events: seq<Event>, n: nat): seq<Info>
    requires n <= |events|
  {
    if n == 0 then []
    else
      var e := events[n - 1];
      News(events, n - 1)
      + if e.Notify? && forall k :: 0 <= k < n - 1 && events[k].Notify? ==> events[k].info.gid != e.info.gid then [e.info] else []
  }

  lemma {:induction false} NewsStep(events: seq<Event>, e: Event, n: nat)
    requires n <= |events|
    ensures News(events + [e], n) == News(events, n)
    decreases n
  {
    if n > 0 {
      NewsStep(events, e, n - 1);
      assert forall k :: 0 <= k < n ==> (events + [e])[k] == events[k];
    }
  }

  /** The known endpoints are in the order of their first news. */
  lemma {:induction false} KnownInOrder(events: seq<Event>)
    ensures Run(events).known == News(events, |events|)
  {
    if events != [] {
      var n := |events| - 1;
      var before, e := events[..n], events[n];
      assert events == before + [e];
      KnownInOrder(before);
      NewsStep(before, e, n);
      KnownIsFirstNews(before);
      assert Run(events) == After(Run(before), e);
      assert forall k :: 0 <= k < n ==> before[k] == events[k];
    }
  }

  lemma {:induction false} EntriesDistinct(events: seq<Event>, topic: string)
    requires OwnCallbacks(events)
    ensures DistinctCallbacks(Run(events).On(topic))
  {
    if events != [] {
      var n := |events| - 1;
      var before, e := events[..n], events[n];
      EntriesDistinct(before, topic);
      var old_ := Run(before).On(topic);
      match e
      case Register(_, _, cb) =>
        forall k | 0 <= k < |old_|
          ensures old_[k].callback != cb
        {
          EntriesStand(before, topic, old_[k]);
        }
      case Notify(_) =>
      case Unregister(gid) => WithoutDistinct(old_, gid);
    }
  }

  // ---------------------------------------------------------------------------------------
  // Exactly once
  // ---------------------------------------------------------------------------------------

  lemma {:induction false} CallsForCount(cb: Callback, topic: string, known: seq<Info>, c: Call)
    requires DistinctGids(known)
    ensures multiset(CallsFor(cb, topic, known))[c] == if c.callback == cb && c.info in known && c.info.topic == topic then 1 else 0
  {
    if known != [] {
      CallsForCount(cb, topic, known[1..], c);
      assert known == [known[0]] + known[1..];
      assert forall k :: 0 <= k < |known[1..]| ==> known[1..][k] == known[k + 1];
    }
  }

  lemma {:induction false} CallsOfCount(entries: seq<Entry>, info: Info, c: Call)
    requires DistinctCallbacks(entries)
    ensures multiset(CallsOf(entries, info))[c] ==
      if c.info == info && HasCallback(entries, c.callback) then 1 else 0
    decreases |entries|
  {
    if entries != [] {
      var n := |entries| - 1;
      CallsOfCount(entries[..n], info, c);
      assert CallsOf(entries, info) == CallsOf(entries[..n], info) + [Call(entries[n].callback, info)];
    }
  }

  /** What one critical section schedules is what it makes due. */
  lemma ScheduledIsNewlyDue(events: seq<Event>, c: Call)
    requires events != [] && OwnCallbacks(events)
    ensures var before := events[..|events| - 1];
      multiset(Scheduled(Run(before), events[|events| - 1]))[c] ==
        if Due(events, c.callback, c.info) && !Due(before, c.callback, c.info) then 1 else 0
  {
    var n := |events| - 1;
    var before, e, s := events[..n], events[n], Run(events[..n]);
    KnownIsFirstNews(before);
    match e
    case Unregister(_) => NothingNewlyDue(events, c);
    case Register(topic, registrant, cb) =>
      CallsForCount(cb, topic, s.known, c);
      RegisterMakesDue(events, c);
    case Notify(info) =>
      if IsKnown(s.known, info.gid) {
        NothingNewlyDue(events, c);
      } else {
        EntriesDistinct(before, info.topic);
        CallsOfCount(s.On(info.topic), info, c);
        var entries := s.On(info.topic);
        if c.info == info && HasCallback(entries, c.callback) {
          RegisteredIsNewlyDue(events, c.callback);
        }
        if Due(events, c.callback, c.info) && !Due(before, c.callback, c.info) {
          NewlyDueIsRegistered(events, c);
        }
      }
  }

  lemma DueBefore(events: seq<Event>, c: Call, i: nat, j: nat, registrant: Gid)
    requires i < |events| - 1 && j < |events| - 1 && FirstNews(events, j, c.info)
    requires events[i] == Register(c.info.topic, registrant, c.callback)
    requires j < i || Stands(events, i, j, c.info.topic, registrant, c.callback)
    ensures Due(events[..|events| - 1], c.callback, c.info)
  {
    var before := events[..|events| - 1];
    assert FirstNews(before, j, c.info) && before[i] == events[i];
    assert j < i || Stands(before, i, j, c.info.topic, registrant, c.callback);
  }

  lemma StillDue(events: seq<Event>, c: Call)
    requires events != [] && Due(events[..|events| - 1], c.callback, c.info)
    ensures Due(events, c.callback, c.info)
  {
    var n := |events| - 1;
    var before := events[..n];
    var i: nat, j: nat, registrant :| FirstNews(before, j, c.info) && i < n
      && before[i] == Register(c.info.topic, registrant, c.callback)
      && (j < i || Stands(before, i, j, c.info.topic, registrant, c.callback));
    assert FirstNews(events, j, c.info);
    assert events[i] == Register(c.info.topic, registrant, c.callback);
    if j >= i {
      assert Stands(events, i, j, c.info.topic, registrant, c.callback);
    }
  }

  lemma NothingNewlyDue(events: seq<Event>, c: Call)
    requires events != []
    requires var e := events[|events| - 1];
      e.Unregister? || (e.Notify? && IsKnown(Run(events[..|events| - 1]).known, e.info.gid))
    ensures Due(events, c.callback, c.info) <==> Due(events[..|events| - 1], c.callback, c.info)
  {
    var n := |events| - 1;
    var before := events[..n];
    KnownIsFirstNews(before);
    if Due(before, c.callback, c.info) {
      StillDue(events, c);
    }
    if Due(events, c.callback, c.info) {
      var i: nat, j: nat, registrant :| FirstNews(events, j, c.info) && i < |events|
        && events[i] == Register(c.info.topic, registrant, c.callback)
        && (j < i || Stands(events, i, j, c.info.topic, registrant, c.callback));
      assert j < n;
      DueBefore(events, c, i, j, registrant);
    }
  }

  lemma RegisterMakesDue(events: seq<Event>, c: Call)
    requires events != [] && OwnCallbacks(events) && events[|events| - 1].Register?
    ensures var before, e := events[..|events| - 1], events[|events| - 1];
      (Due(events, c.callback, c.info) && !Due(before, c.callback, c.info))
      <==> c.callback == e.callback && c.info in Run(before).known && c.info.topic == e.topic
  {
    var n := |events| - 1;
    var before, e := events[..n], events[n];
    KnownIsFirstNews(before);
    if Due(events, c.callback, c.info) && !Due(before, c.callback, c.info) {
      var i: nat, j: nat, registrant :| FirstNews(events, j, c.info) && i < |events|
        && events[i] == Register(c.info.topic, registrant, c.callback)
        && (j < i || Stands(events, i, j, c.info.topic, registrant, c.callback));
      assert FirstNews(before, j, c.info);
      if i < n {
        DueBefore(events, c, i, j, registrant);
      }
    }
    if c.callback == e.callback && c.info in Run(before).known && c.info.topic == e.topic {
      var j: nat :| FirstNews(before, j, c.info);
      assert FirstNews(events, j, c.info) && events[n] == Register(c.info.topic, e.registrant, c.callback);
    }
  }

  lemma NewlyDueIsRegistered(events: seq<Event>, c: Call)
    requires events != [] && events[|events| - 1].Notify?
    requires Due(events, c.callback, c.info) && !Due(events[..|events| - 1], c.callback, c.info)
    ensures c.info == events[|events| - 1].info
    ensures HasCallback(Run(events[..|events| - 1]).On(c.info.topic), c.callback)
  {
    var n := |events| - 1;
    var before, topic := events[..n], c.info.topic;
    var i: nat, j: nat, registrant :| FirstNews(events, j, c.info) && i < |events|
      && events[i] == Register(topic, registrant, c.callback)
      && (j < i || Stands(events, i, j, topic, registrant, c.callback));
    if j < n {
      DueBefore(events, c, i, j, registrant);
    } else {
      assert Stands(before, i, n, topic, registrant, c.callback);
      hide Run;
      EntriesStand(before, topic, Entry(registrant, c.callback));
    }
  }

  lemma RegisteredIsNewlyDue(events: seq<Event>, cb: Callback)
    requires events != [] && events[|events| - 1].Notify?
    requires !IsKnown(Run(events[..|events| - 1]).known, events[|events| - 1].info.gid)
    requires HasCallback(Run(events[..|events| - 1]).On(events[|events| - 1].info.topic), cb)
    ensures Due(events, cb, events[|events| - 1].info) && !Due(events[..|events| - 1], cb, events[|events| - 1].info)
  {
    var n := |events| - 1;
    var before, info := events[..n], events[n].info;
    var entries := Run(before).On(info.topic);
    KnownIsFirstNews(before);
    hide Run;
    var k :| 0 <= k < |entries| && entries[k].callback == cb;
    EntriesStand(before, info.topic, entries[k]);
    var i: nat :| Stands(before, i, n, info.topic, entries[k].registrant, cb);
    assert Stands(events, i, n, info.topic, entries[k].registrant, cb);
    assert FirstNews(events, n, info);
  }

  /**
   Over every order of critical sections, a callback is scheduled for an endpoint exactly once
   when its registration and the first news of the endpoint's GID are on one topic and were not
   separated by its removal, whichever of the two came first, and otherwise never.
   */
  lemma {:induction false} ExactlyOnce(events: seq<Event>, c: Call)
    requires OwnCallbacks(events)
    ensures multiset(Calls(events))[c] == if Due(events, c.callback, c.info) then 1 else 0
  {
    if events != [] {
      ExactlyOnce(events[..|events| - 1], c);
      ScheduledIsNewlyDue(events, c);
      if Due(events[..|events| - 1], c.callback, c.info) {
        StillDue(events, c);
      }
    }
  }

  lemma FirstNewsIsUnique(events: seq<Event>, j: nat, x: Info, k: nat, y: Info)
    requires FirstNews(events, j, x) && FirstNews(events, k, y) && x.gid == y.gid
    ensures x == y
  {
  }

  /** No callback is ever scheduled for two infos that carry one GID. */
  lemma OneInfoPerGid(events: seq<Event>, c: Call, d: Call)
    requires OwnCallbacks(events)
    requires c in Calls(events) && d in Calls(events)
    requires c.info.gid == d.info.gid
    ensures c.info == d.info
  {
    hide Calls, FirstNews, Stands, OwnCallbacks;
    ExactlyOnce(events, c);
    ExactlyOnce(events, d);
    assert multiset(Calls(events))[c] > 0 && multiset(Calls(events))[d] > 0;
    var j: nat :| FirstNews(events, j, c.info);
    var k: nat :| FirstNews(events, k, d.info);
    FirstNewsIsUnique(events, j, c.info, k, d.info);
  }

  // ---------------------------------------------------------------------------------------
  // The critical sections themselves
  // ---------------------------------------------------------------------------------------

  lemma CallsForStep(cb: Callback, topic: string, known: seq<Info>, i: nat)
    requires i < |known|
    ensures CallsFor(cb, topic, known[i..]) == (if known[i].topic == topic then [Call(cb, known[i])] else []) + CallsFor(cb, topic, known[i + 1..])
  {
    assert known[i..][1..] == known[i + 1..];
  }

  lemma WithoutStep(entries: seq<Entry>, gid: Gid, i: nat)
    requires i < |entries|
    ensures Without(entries[i..], gid) == (if entries[i].registrant == gid then [] else [entries[i]]) + Without(entries[i + 1..], gid)
  {
    assert entries[i..][1..] == entries[i + 1..];
  }

  class BufferEndpointRegistry {
    var subscriberCallbacks: map<string, seq<Entry>>
    var publisherCallbacks: map<string, seq<Entry>>
    var knownSubscribers: seq<Info>
    var knownPublishers: seq<Info>

    ghost function Subscribers(): Side
      reads this
    {
      Side(subscriberCallbacks, knownSubscribers)
    }

    ghost function Publishers(): Side
      reads this
    {
      Side(publisherCallbacks, knownPublishers)
    }

    constructor ()
      ensures Subscribers() == EMPTY_SIDE && Publishers() == EMPTY_SIDE
    {
      subscriberCallbacks, publisherCallbacks := map[], map[];
      knownSubscribers, knownPublishers := [], [];
    }

    method RegisterSubscriberDiscoveryCallback(topic: string, publisherGid: Gid, callback: Callback) returns (toFire: seq<Call>)
      modifies this`subscriberCallbacks
      ensures Subscribers() == After(old(Subscribers()), Register(topic, publisherGid, callback))
      ensures toFire == Scheduled(old(Subscribers()), Register(topic, publisherGid, callback))
    {
      var entries := if topic in subscriberCallbacks then subscriberCallbacks[topic] else [];
      subscriberCallbacks := subscriberCallbacks[topic := entries + [Entry(publisherGid, callback)]];
      toFire := MatchingCalls(callback, topic, knownSubscribers);
    }

    method RegisterPublisherDiscoveryCallback(topic: string, subscriberGid: Gid, callback: Callback) returns (toFire: seq<Call>)
      modifies this`publisherCallbacks
      ensures Publishers() == After(old(Publishers()), Register(topic, subscriberGid, callback))
      ensures toFire == Scheduled(old(Publishers()), Register(topic, subscriberGid, callback))
    {
      var entries := if topic in publisherCallbacks then publisherCallbacks[topic] else [];
      publisherCallbacks := publisherCallbacks[topic := entries + [Entry(subscriberGid, callback)]];
      toFire := MatchingCalls(callback, topic, knownPublishers);
    }

    method MatchingCalls(callback: Callback, topic: string, known: seq<Info>) returns (toFire: seq<Call>)
      ensures toFire == CallsFor(callback, topic, known)
    {
      toFire := [];
      assert known[0..] == known;
      for i := 0 to |known|
        invariant toFire + CallsFor(callback, topic, known[i..]) == CallsFor(callback, topic, known)
      {
        CallsForStep(callback, topic, known, i);
        if known[i].topic == topic {
          toFire := toFire + [Call(callback, known[i])];
        }
      }
      assert known[|known|..] == [];
    }

    /** Both halves lose the entries of the GID. */
    method UnregisterCallbacks(gid: Gid)
      modifies this`subscriberCallbacks, this`publisherCallbacks
      ensures Subscribers() == After(old(Subscribers()), Unregister(gid))
      ensures Publishers() == After(old(Publishers()), Unregister(gid))
    {
      subscriberCallbacks := RemoveFrom(subscriberCallbacks, gid);
      publisherCallbacks := RemoveFrom(publisherCallbacks, gid);
    }

    method RemoveFrom(callbacks: map<string, seq<Entry>>, gid: Gid) returns (left: map<string, seq<Entry>>)
      ensures left == map topic | topic in callbacks :: Without(callbacks[topic], gid)
    {
      left := callbacks;
      var topics := callbacks.Keys;
      while topics != {}
        invariant topics <= left.Keys == callbacks.Keys
        invariant forall topic :: topic in topics ==> left[topic] == callbacks[topic]
        invariant forall topic :: topic in callbacks && topic !in topics ==> left[topic] == Without(callbacks[topic], gid)
        decreases topics
      {
        var topic :| topic in topics;
        var entries := RemoveIf(left[topic], gid);
        left := left[topic := entries];
        topics := topics - {topic};
      }
    }

    method RemoveIf(entries: seq<Entry>, gid: Gid) returns (kept: seq<Entry>)
      ensures kept == Without(entries, gid)
    {
      kept := [];
      assert entries[0..] == entries;
      for i := 0 to |entries|
        invariant kept + Without(entries[i..], gid) == Without(entries, gid)
      {
        WithoutStep(entries, gid, i);
        if entries[i].registrant != gid {
          kept := kept + [entries[i]];
        }
      }
      assert entries[|entries|..] == [];
    }

    method NotifySubscriberDiscovered(info: Info) returns (callbacks: seq<Call>)
      modifies this`knownSubscribers
      ensures Subscribers() == After(old(Subscribers()), Notify(info))
      ensures callbacks == Scheduled(old(Subscribers()), Notify(info))
    {
      var existing := AlreadyKnown(knownSubscribers, info.gid);
      if existing {
        return [];
      }
      knownSubscribers := knownSubscribers + [info];
      if info.topic !in subscriberCallbacks {
        return [];
      }
      callbacks := CollectCallbacks(subscriberCallbacks[info.topic], info);
    }

    method NotifyPublisherDiscovered(info: Info) returns (callbacks: seq<Call>)
      modifies this`knownPublishers
      ensures Publishers() == After(old(Publishers()), Notify(info))
      ensures callbacks == Scheduled(old(Publishers()), Notify(info))
    {
      var existing := AlreadyKnown(knownPublishers, info.gid);
      if existing {
        return [];
      }
      knownPublishers := knownPublishers + [info];
      if info.topic !in publisherCallbacks {
        return [];
      }
      callbacks := CollectCallbacks(publisherCallbacks[info.topic], info);
    }

    method AlreadyKnown(known: seq<Info>, gid: Gid) returns (found: bool)
      ensures found <==> IsKnown(known, gid)
    {
      for i := 0 to |known|
        invariant forall k :: 0 <= k < i ==> known[k].gid != gid
      {
        if known[i].gid == gid {
          return true;
        }
      }
      found := false;
    }

    method CollectCallbacks(entries: seq<Entry>, info: Info) returns (callbacks: seq<Call>)
      ensures callbacks == CallsOf(entries, info)
    {
      callbacks := [];
      for i := 0 to |entries|
        invariant callbacks == CallsOf(entries[..i], info)
      {
        callbacks := callbacks + [Call(entries[i].callback, info)];
      }
      assert entries[..|entries|] == entries;
    }
  }
}
