/**
 One buffer-aware publisher beside its context's registry, as a machine whose steps are the
 sections its code runs under a lock; what happens between them is in flight. Any number of
 other registrants, discovery threads and publishing threads interleave.
 */
module BufferProtocol {
  import opened EndpointRegistry
  import opened BufferPublishers

  /** The publisher's own callback object and GID. */
  datatype Identity = Identity(callback: Callback, gid: Gid)

  /** How far a publication on the buffer route has come. */
  datatype Stage =
    | Chosen                                                // it has counted, and chosen the route
    | Making(upTo: nat, made: seq<Peer>, todo: seq<Peer>)   // it has moved the pending list out
    | Ready                                                 // it has appended what it made

  /**
   One call of rmw_publish that chose the buffer route. `matched` and `counted` are the
   subscribers matched and on record when it counted; `upTo` is how many had been handed over
   when it moved the pending list out.
   */
  datatype Publication = Publication(matched: set<Gid>, counted: seq<Gid>, stage: Stage)

  /**
   `events` are the registry's critical sections so far, so the registry is `Run(events)`;
   `flight` the calls scheduled for the publisher that have not run yet; `log` the subscribers
   the callback was handed for a channel of their own while the publisher was alive.
   */
  datatype Machine = Machine(events: seq<Event>, flight: seq<Info>, pub: State, publications: seq<Publication>, log: seq<Gid>)

  const INITIAL := Machine([], [], NEW_PUBLISHER, [], [])

  datatype Step =
    | Critical(e: Event)              // of the registry; its calls go in flight
    | Deliver(k: nat)                 // a call in flight runs the callback's critical section
    | Choose(matched: set<Gid>)       // rmw_publish counts who is on record, and takes a route
    | Take(b: nat)                    // a publication on the buffer route moves the pending list out,
    | Make(b: nat, ok: bool)          // tries the next topic and writer,
    | Commit(b: nat)                  // appends the endpoints it made,
    | Write(b: nat)                   // and writes to the shared channel and to every endpoint
    | Destroy

  /** The infos of the calls for one callback. */
  function Mine(calls: seq<Call>, cb: Callback): seq<Info>
  {
    if calls == [] then []
    else (if calls[0].callback == cb then [calls[0].info] else []) + Mine(calls[1..], cb)
  }

  /** Callback objects are used once, and the publisher registers under its own GID. */
  predicate Proper(who: Identity, events: seq<Event>, e: Event)
  {
    e.Register? ==>
      && (e.callback == who.callback ==> e.registrant == who.gid)
      && forall i :: 0 <= i < |events| && events[i].Register? ==> events[i].callback != e.callback
  }

  function RemoveAt<T>(s: seq<T>, k: nat): seq<T>
    requires k < |s|
  {
    s[..k] + s[k + 1..]
  }

  function At(m: Machine, b: nat, stage: Stage): seq<Publication>
    requires b < |m.publications|
  {
    m.publications[b := m.publications[b].(stage := stage)]
  }

  /** A step that is not possible changes nothing; nor does here a publication by the main writer. */
  function Next(who: Identity, m: Machine, step: Step): Machine
  {
    match step
    case Critical(e) =>
      if !Proper(who, m.events, e) then m
      else m.(events := m.events + [e], flight := m.flight + Mine(Scheduled(Run(m.events), e), who.callback))
    case Deliver(k) =>
      if k >= |m.flight| then m
      else
        var info := m.flight[k];
        m.(flight := RemoveAt(m.flight, k),
           pub := Discover(m.pub, info),
           log := if m.pub.alive && !OnlyCpu(info.backends) then m.log + [info.gid] else m.log)
    case Choose(matched) =>
      if |matched| > RecordedCount(m.pub) then m
      else m.(publications := m.publications + [Publication(matched, Everybody(m.pub), Chosen)])
    case Take(b) =>
      if !(b < |m.publications| && m.publications[b].stage.Chosen?) then m
      else if m.pub.pending == [] then m.(publications := At(m, b, Ready))
      else m.(pub := m.pub.(pending := []), publications := At(m, b, Making(|m.log|, [], m.pub.pending)))
    case Make(b, ok) =>
      if !(b < |m.publications| && m.publications[b].stage.Making? && m.publications[b].stage.todo != []) then m
      else
        var Making(upTo, made, todo) := m.publications[b].stage;
        m.(publications := At(m, b, Making(upTo, if ok then made + [todo[0]] else made, todo[1..])))
    case Commit(b) =>
      if !(b < |m.publications| && m.publications[b].stage.Making? && m.publications[b].stage.todo == []) then m
      else m.(pub := m.pub.(endpoints := m.pub.endpoints + m.publications[b].stage.made), publications := At(m, b, Ready))
    case Write(b) =>
      if !(b < |m.publications| && m.publications[b].stage.Ready?) then m
      else m.(publications := RemoveAt(m.publications, b))
    case Destroy => m.(pub := DESTROYED)
  }

  function RunOf(who: Identity, steps: seq<Step>): Machine
  {
    if steps == [] then INITIAL else Next(who, RunOf(who, steps[..|steps| - 1]), steps[|steps| - 1])
  }

  // ---------------------------------------------------------------------------------------
  // Where a GID is
  // ---------------------------------------------------------------------------------------

  function GidsOf(infos: seq<Info>): (gids: seq<Gid>)
    ensures |gids| == |infos|
    ensures forall k :: 0 <= k < |infos| ==> gids[k] == infos[k].gid
  {
    seq(|infos|, k requires 0 <= k < |infos| => infos[k].gid)
  }

  /** The subscribers a publication has moved out and not appended yet. */
  function Held(p: Publication): seq<Peer>
  {
    if p.stage.Making? then p.stage.made + p.stage.todo else []
  }

  function Holding(p: Publication, gid: Gid): nat
  {
    multiset(Targets(Held(p)))[gid]
  }

  function InCreation(publications: seq<Publication>, gid: Gid): nat
  {
    if publications == [] then 0 else Holding(publications[0], gid) + InCreation(publications[1..], gid)
  }

  function InFlight(m: Machine, gid: Gid): nat
  {
    multiset(GidsOf(m.flight))[gid]
  }

  /** How often a GID is on record or in creation. */
  function OnHand(m: Machine, gid: Gid): nat
  {
    Recorded(m.pub)[gid] + InCreation(m.publications, gid)
  }

  /** How often a GID is in flight, on record, or in creation. */
  function Circulating(m: Machine, gid: Gid): nat
  {
    InFlight(m, gid) + OnHand(m, gid)
  }

  /** How often the registry has scheduled the publisher's callback for a GID. */
  function Handed(who: Identity, events: seq<Event>, gid: Gid): nat
  {
    multiset(GidsOf(Mine(Calls(events), who.callback)))[gid]
  }

  lemma {:induction false} MineAppend(a: seq<Call>, b: seq<Call>, cb: Callback)
    ensures Mine(a + b, cb) == Mine(a, cb) + Mine(b, cb)
  {
    if a == [] {
      assert a + b == b;
    } else {
      var first := if a[0].callback == cb then [a[0].info] else [];
      assert (a + b)[1..] == a[1..] + b;
      assert Mine(a + b, cb) == first + Mine(a[1..] + b, cb) && Mine(a, cb) == first + Mine(a[1..], cb);
      hide Mine;
      MineAppend(a[1..], b, cb);
      assert first + (Mine(a[1..], cb) + Mine(b, cb)) == first + Mine(a[1..], cb) + Mine(b, cb);
    }
  }

  lemma {:induction false} MineCount(calls: seq<Call>, cb: Callback, info: Info)
    ensures multiset(Mine(calls, cb))[info] == multiset(calls)[Call(cb, info)]
  {
    if calls != [] {
      MineCount(calls[1..], cb, info);
      assert calls == [calls[0]] + calls[1..];
    }
  }

  lemma {:induction false} GidsNoneTwice(infos: seq<Info>, gid: Gid)
    requires forall i, j :: 0 <= i < j < |infos| ==> infos[i].gid != infos[j].gid
    ensures multiset(GidsOf(infos))[gid] <= 1
  {
    if infos != [] {
      var n := |infos| - 1;
      GidsNoneTwice(infos[..n], gid);
      assert GidsOf(infos) == GidsOf(infos[..n]) + [infos[n].gid];
      assert infos[n].gid !in GidsOf(infos[..n]);
    }
  }

  /** The registry never hands the publisher a GID twice. */
  lemma HandedOnce(who: Identity, events: seq<Event>, gid: Gid)
    requires OwnCallbacks(events)
    ensures Handed(who, events, gid) <= 1
  {
    hide Calls, OwnCallbacks, Due;
    var infos := Mine(Calls(events), who.callback);
    forall i, j | 0 <= i < j < |infos|
      ensures infos[i].gid != infos[j].gid
    {
      if infos[i].gid == infos[j].gid {
        var c, d := Call(who.callback, infos[i]), Call(who.callback, infos[j]);
        MineCount(Calls(events), who.callback, infos[i]);
        MineCount(Calls(events), who.callback, infos[j]);
        assert multiset(infos)[infos[i]] > 0 && multiset(infos)[infos[j]] > 0;
        OneInfoPerGid(events, c, d);
        TwicePresent(infos, i, j);
        ExactlyOnce(events, c);
      }
    }
    GidsNoneTwice(infos, gid);
  }

  lemma TwicePresent<T>(s: seq<T>, i: nat, j: nat)
    requires i < j < |s| && s[i] == s[j]
    ensures multiset(s)[s[i]] >= 2
  {
    assert s == s[..j] + s[j..];
    assert s[..j][i] == s[i] && s[j..][0] == s[j];
  }

  lemma AppendedGids(a: seq<Info>, b: seq<Info>, gid: Gid)
    ensures multiset(GidsOf(a + b))[gid] == multiset(GidsOf(a))[gid] + multiset(GidsOf(b))[gid]
  {
    assert GidsOf(a + b) == GidsOf(a) + GidsOf(b);
  }

  lemma RemovedGid(infos: seq<Info>, k: nat, gid: Gid)
    requires k < |infos|
    ensures multiset(GidsOf(infos))[gid] == multiset(GidsOf(RemoveAt(infos, k)))[gid] + (if infos[k].gid == gid then 1 else 0)
  {
    var gids := GidsOf(infos);
    assert GidsOf(RemoveAt(infos, k)) == gids[..k] + gids[k + 1..];
    assert gids == gids[..k] + [gids[k]] + gids[k + 1..];
  }

  lemma {:induction false} PublicationRemoved(publications: seq<Publication>, b: nat, gid: Gid)
    requires b < |publications|
    ensures InCreation(publications, gid) == InCreation(RemoveAt(publications, b), gid) + Holding(publications[b], gid)
  {
    hide Holding;
    if b == 0 {
      assert RemoveAt(publications, 0) == publications[1..];
    } else {
      PublicationRemoved(publications[1..], b - 1, gid);
      assert RemoveAt(publications, b)[1..] == RemoveAt(publications[1..], b - 1);
    }
  }

  lemma PublicationReplaced(publications: seq<Publication>, b: nat, x: Publication, gid: Gid)
    requires b < |publications|
    ensures InCreation(publications[b := x], gid) + Holding(publications[b], gid) == InCreation(publications, gid) + Holding(x, gid)
  {
    hide Holding, InCreation;
    PublicationRemoved(publications, b, gid);
    PublicationRemoved(publications[b := x], b, gid);
    assert RemoveAt(publications, b) == RemoveAt(publications[b := x], b);
  }

  lemma {:induction false} PublicationAdded(publications: seq<Publication>, x: Publication, gid: Gid)
    ensures InCreation(publications + [x], gid) == InCreation(publications, gid) + Holding(x, gid)
  {
    hide Holding;
    if publications == [] {
      assert publications + [x] == [x];
    } else {
      assert (publications + [x])[1..] == publications[1..] + [x];
      PublicationAdded(publications[1..], x, gid);
    }
  }

  lemma AppendedPeers(a: seq<Peer>, b: seq<Peer>, gid: Gid)
    ensures multiset(Targets(a + b))[gid] == multiset(Targets(a))[gid] + multiset(Targets(b))[gid]
  {
    TargetsCount(a, b);
  }

  lemma OnePeer(p: Peer, gid: Gid)
    ensures multiset(Targets([p]))[gid] == if p.target == gid then 1 else 0
    ensures multiset(Targets([]))[gid] == 0
  {
    assert Targets([p]) == [p.target];
    assert Targets([]) == [];
  }

  // ---------------------------------------------------------------------------------------
  // No subscriber is recorded twice
  // ---------------------------------------------------------------------------------------

  /** The callback puts a GID on record, or drops it. */
  lemma DiscoverRecords(s: State, info: Info, gid: Gid)
    ensures Recorded(s)[gid] <= Recorded(Discover(s, info))[gid] <= Recorded(s)[gid] + (if info.gid == gid then 1 else 0)
    ensures s.alive && Recorded(s)[info.gid] == 0 ==>
      Recorded(Discover(s, info))[gid] == Recorded(s)[gid] + (if info.gid == gid then 1 else 0)
  {
    var p := Peer(info.gid, info.backends);
    AppendedPeers(s.pending, [p], gid);
    OnePeer(p, gid);
    assert info.gid in s.cpuOnly ==> multiset(s.cpuOnly)[info.gid] > 0;
    assert info.gid in Targets(s.pending) ==> multiset(Targets(s.pending))[info.gid] > 0;
    assert info.gid in Targets(s.endpoints) ==> multiset(Targets(s.endpoints))[info.gid] > 0;
  }

  lemma ChooseKeeps(who: Identity, m: Machine, matched: set<Gid>, gid: Gid)
    ensures OnHand(Next(who, m, Choose(matched)), gid) == OnHand(m, gid)
  {
    hide Recorded;
    var p := Publication(matched, Everybody(m.pub), Chosen);
    PublicationAdded(m.publications, p, gid);
    OnePeer(Peer(0, map[]), gid);
    assert Holding(p, gid) == 0;
  }

  lemma TakeKeeps(who: Identity, m: Machine, b: nat, gid: Gid)
    ensures OnHand(Next(who, m, Take(b)), gid) == OnHand(m, gid)
  {
    hide InCreation;
    if b < |m.publications| && m.publications[b].stage.Chosen? {
      var p := m.publications[b];
      var moved := p.(stage := if m.pub.pending == [] then Ready else Making(|m.log|, [], m.pub.pending));
      PublicationReplaced(m.publications, b, moved, gid);
      OnePeer(Peer(0, map[]), gid);
      assert [] + m.pub.pending == m.pub.pending;
    }
  }

  lemma HeldAfterMake(made: seq<Peer>, todo: seq<Peer>, ok: bool, gid: Gid)
    requires todo != []
    ensures var before := multiset(Targets(made + todo))[gid];
      var after := multiset(Targets((if ok then made + [todo[0]] else made) + todo[1..]))[gid];
      after <= before && (ok ==> after == before)
  {
    AppendedPeers(made, todo, gid);
    AppendedPeers(made, todo[1..], gid);
    AppendedPeers([todo[0]], todo[1..], gid);
    assert [todo[0]] + todo[1..] == todo;
    assert (made + [todo[0]]) + todo[1..] == made + todo;
  }

  lemma MakeKeeps(who: Identity, m: Machine, b: nat, ok: bool, gid: Gid)
    ensures OnHand(Next(who, m, Make(b, ok)), gid) <= OnHand(m, gid)
    ensures ok ==> OnHand(Next(who, m, Make(b, ok)), gid) == OnHand(m, gid)
  {
    hide InCreation, Recorded, Targets;
    if b < |m.publications| && m.publications[b].stage.Making? && m.publications[b].stage.todo != [] {
      var Making(upTo, made, todo) := m.publications[b].stage;
      PublicationReplaced(m.publications, b, m.publications[b].(stage := Making(upTo, if ok then made + [todo[0]] else made, todo[1..])), gid);
      HeldAfterMake(made, todo, ok, gid);
    }
  }

  lemma CommitKeeps(who: Identity, m: Machine, b: nat, gid: Gid)
    ensures OnHand(Next(who, m, Commit(b)), gid) == OnHand(m, gid)
  {
    hide InCreation;
    if b < |m.publications| && m.publications[b].stage.Making? && m.publications[b].stage.todo == [] {
      var made := m.publications[b].stage.made;
      PublicationReplaced(m.publications, b, m.publications[b].(stage := Ready), gid);
      AppendedPeers(m.pub.endpoints, made, gid);
      OnePeer(Peer(0, map[]), gid);
      assert made + [] == made;
    }
  }

  lemma WriteKeeps(who: Identity, m: Machine, b: nat, gid: Gid)
    ensures OnHand(Next(who, m, Write(b)), gid) == OnHand(m, gid)
  {
    hide Recorded, InCreation;
    if b < |m.publications| && m.publications[b].stage.Ready? {
      PublicationRemoved(m.publications, b, gid);
      OnePeer(Peer(0, map[]), gid);
    }
  }

  lemma DeliverKeeps(who: Identity, m: Machine, k: nat, gid: Gid)
    ensures Circulating(Next(who, m, Deliver(k)), gid) <= Circulating(m, gid)
  {
    if k < |m.flight| {
      RemovedGid(m.flight, k, gid);
      DiscoverRecords(m.pub, m.flight[k], gid);
    }
  }

  lemma CriticalAdds(who: Identity, m: Machine, e: Event, gid: Gid)
    requires Proper(who, m.events, e)
    ensures var m' := Next(who, m, Critical(e));
      Circulating(m', gid) - Circulating(m, gid) == Handed(who, m'.events, gid) - Handed(who, m.events, gid)
  {
    hide InCreation, Recorded, Scheduled, Run;
    var scheduled := Scheduled(Run(m.events), e);
    assert (m.events + [e])[..|m.events|] == m.events;
    assert Calls(m.events + [e]) == Calls(m.events) + scheduled;
    MineAppend(Calls(m.events), scheduled, who.callback);
    hide Calls, Mine, GidsOf;
    AppendedGids(Mine(Calls(m.events), who.callback), Mine(scheduled, who.callback), gid);
    AppendedGids(m.flight, Mine(scheduled, who.callback), gid);
  }

  lemma HandedStep(who: Identity, m: Machine, step: Step, gid: Gid)
    requires Circulating(m, gid) <= Handed(who, m.events, gid)
    ensures Circulating(Next(who, m, step), gid) <= Handed(who, Next(who, m, step).events, gid)
  {
    hide OnHand, Handed;
    match step
    case Critical(e) =>
      if Proper(who, m.events, e) {
        CriticalAdds(who, m, e, gid);
      }
    case Deliver(k) => DeliverKeeps(who, m, k, gid);
    case Choose(matched) => ChooseKeeps(who, m, matched, gid);
    case Take(b) => TakeKeeps(who, m, b, gid);
    case Make(b, ok) => MakeKeeps(who, m, b, ok, gid);
    case Commit(b) => CommitKeeps(who, m, b, gid);
    case Write(b) => WriteKeeps(who, m, b, gid);
    case Destroy => DestroyKeeps(who, m, gid);
  }

  lemma DestroyKeeps(who: Identity, m: Machine, gid: Gid)
    ensures OnHand(Next(who, m, Destroy), gid) <= OnHand(m, gid)
    ensures Recorded(DESTROYED)[gid] == 0
  {
    OnePeer(Peer(0, map[]), gid);
  }

  lemma CallbacksStayOwn(who: Identity, m: Machine, step: Step)
    requires OwnCallbacks(m.events)
    ensures OwnCallbacks(Next(who, m, step).events)
  {
  }

  /** Nothing circulates that the registry did not hand over. */
  lemma {:induction false} CirculatingWasHanded(who: Identity, steps: seq<Step>, gid: Gid)
    ensures Circulating(RunOf(who, steps), gid) <= Handed(who, RunOf(who, steps).events, gid)
    ensures OwnCallbacks(RunOf(who, steps).events)
  {
    if steps == [] {
      OnePeer(Peer(0, map[]), gid);
      assert GidsOf([]) == [];
    } else {
      hide Circulating, Handed, Next, OwnCallbacks;
      var n := |steps| - 1;
      CirculatingWasHanded(who, steps[..n], gid);
      HandedStep(who, RunOf(who, steps[..n]), steps[n], gid);
      CallbacksStayOwn(who, RunOf(who, steps[..n]), steps[n]);
    }
  }

  /**
   Over every interleaving a GID is in at most one place, and there at most once: in flight,
   CPU-only, pending, in creation, or an endpoint.
   */
  lemma NoSubscriberTwice(who: Identity, steps: seq<Step>, gid: Gid)
    ensures Circulating(RunOf(who, steps), gid) <= 1
  {
    hide Circulating, Handed, RunOf, OwnCallbacks;
    CirculatingWasHanded(who, steps, gid);
    HandedOnce(who, RunOf(who, steps).events, gid);
  }

  /**
   A call delivered to a live publisher always records its subscriber: thanks to the registry
   the callback's own duplicate tests never fire.
   */
  lemma EveryDeliveryRecords(who: Identity, steps: seq<Step>, k: nat)
    requires k < |RunOf(who, steps).flight| && RunOf(who, steps).pub.alive
    ensures var m := RunOf(who, steps);
      var info := m.flight[k];
      Discover(m.pub, info) ==
        if OnlyCpu(info.backends) then m.pub.(cpuOnly := m.pub.cpuOnly + [info.gid])
        else m.pub.(pending := m.pub.pending + [Peer(info.gid, info.backends)])
  {
    var m := RunOf(who, steps);
    var gid := m.flight[k].gid;
    NoSubscriberTwice(who, steps, gid);
    hide RunOf;
    RemovedGid(m.flight, k, gid);
    assert Recorded(m.pub)[gid] == 0;
    assert gid in m.pub.cpuOnly ==> multiset(m.pub.cpuOnly)[gid] > 0;
    assert gid in Targets(m.pub.pending) ==> multiset(Targets(m.pub.pending))[gid] > 0;
    assert gid in Targets(m.pub.endpoints) ==> multiset(Targets(m.pub.endpoints))[gid] > 0;
  }

  /** The local tests alone do not see what a publishing thread holds. */
  lemma LocalTestsMissCreation(who: Identity, info: Info)
    requires !OnlyCpu(info.backends)
    ensures var p := Peer(info.gid, info.backends);
      var m1 := Next(who, INITIAL.(flight := [info, info]), Deliver(0));
      var m2 := Next(who, Next(who, m1, Choose({})), Take(0));
      var m3 := Next(who, m2, Deliver(0));
      m3.pub.pending == [p] && m3.publications == [Publication({}, [info.gid], Making(1, [], [p]))]
  {
    var p := Peer(info.gid, info.backends);
    var m1 := Next(who, INITIAL.(flight := [info, info]), Deliver(0));
    assert Targets([]) == [] && Targets([p]) == [info.gid];
    assert m1 == INITIAL.(flight := [info], pub := NEW_PUBLISHER.(pending := [p]), log := [info.gid]);
    var m2 := Next(who, m1, Choose({}));
    assert Everybody(m1.pub) == [info.gid];
    assert m2 == m1.(publications := [Publication({}, [info.gid], Chosen)]);
    var m3 := Next(who, m2, Take(0));
    assert m3 == m2.(pub := NEW_PUBLISHER, publications := [Publication({}, [info.gid], Making(1, [], [p]))]);
  }

  /** Nor is a CPU-only arrival compared with the pending list. */
  lemma CpuOnlyArrivalMissesPending(gid: Gid, topic: string, backends: map<string, string>)
    requires !OnlyCpu(backends)
    ensures var s := Discover(Discover(NEW_PUBLISHER, Info(gid, topic, backends)), Info(gid, topic, map[]));
      s.pending == [Peer(gid, backends)] && s.cpuOnly == [gid]
  {
    assert Targets([]) == [];
  }

  // ---------------------------------------------------------------------------------------
  // Conservation
  // ---------------------------------------------------------------------------------------

  /** Fast DDS makes every topic and writer, and the publisher is not destroyed. */
  predicate LosslessStep(step: Step)
  {
    step != Destroy && (step.Make? ==> step.ok)
  }

  predicate Lossless(steps: seq<Step>)
  {
    forall i :: 0 <= i < |steps| ==> LosslessStep(steps[i])
  }

  lemma {:induction false} StaysAlive(who: Identity, steps: seq<Step>)
    requires Lossless(steps)
    ensures RunOf(who, steps).pub.alive
  {
    if steps != [] {
      StaysAlive(who, steps[..|steps| - 1]);
    }
  }

  /** How often a GID waits for its writer, is in creation, or has its endpoint. */
  function InChannels(m: Machine, gid: Gid): nat
  {
    multiset(Targets(m.pub.pending))[gid] + InCreation(m.publications, gid) + multiset(Targets(m.pub.endpoints))[gid]
  }

  lemma PendingAdded(m: Machine, p: Peer, m': Machine, gid: Gid)
    requires m'.pub.pending == m.pub.pending + [p] && m'.pub.endpoints == m.pub.endpoints && m'.publications == m.publications
    ensures InChannels(m', gid) == InChannels(m, gid) + (if p.target == gid then 1 else 0)
  {
    AppendedPeers(m.pub.pending, [p], gid);
    OnePeer(p, gid);
  }

  /** A step of a publication that makes what it tries leaves everybody on hand. */
  lemma PublicationKeeps(who: Identity, m: Machine, step: Step, gid: Gid)
    requires !step.Critical? && !step.Deliver? && LosslessStep(step)
    ensures OnHand(Next(who, m, step), gid) == OnHand(m, gid)
  {
    hide OnHand;
    match step
    case Choose(matched) => ChooseKeeps(who, m, matched, gid);
    case Take(b) => TakeKeeps(who, m, b, gid);
    case Make(b, ok) => MakeKeeps(who, m, b, ok, gid);
    case Commit(b) => CommitKeeps(who, m, b, gid);
    case Write(b) => WriteKeeps(who, m, b, gid);
  }

  lemma PublicationKeepsChannels(who: Identity, m: Machine, step: Step, gid: Gid)
    requires !step.Critical? && !step.Deliver? && LosslessStep(step)
    ensures InChannels(Next(who, m, step), gid) == InChannels(m, gid) && Next(who, m, step).log == m.log
  {
    PublicationKeeps(who, m, step, gid);
    assert OnHand(m, gid) == multiset(m.pub.cpuOnly)[gid] + InChannels(m, gid);
    hide InCreation, Targets;
  }

  /** However publications overlap, none of the subscribers handed over is ever lost. */
  lemma {:induction false} NoneLost(who: Identity, steps: seq<Step>, gid: Gid)
    requires Lossless(steps)
    ensures multiset(RunOf(who, steps).log)[gid] == InChannels(RunOf(who, steps), gid)
  {
    if steps == [] {
      OnePeer(Peer(0, map[]), gid);
    } else {
      var n := |steps| - 1;
      var m, step := RunOf(who, steps[..n]), steps[n];
      NoneLost(who, steps[..n], gid);
      StaysAlive(who, steps[..n]);
      if step.Deliver? && step.k < |m.flight| {
        EveryDeliveryRecords(who, steps[..n], step.k);
        hide Discover;
        if !OnlyCpu(m.flight[step.k].backends) {
          PendingAdded(m, Peer(m.flight[step.k].gid, m.flight[step.k].backends), Next(who, m, step), gid);
        }
      } else if !step.Deliver? && !step.Critical? {
        hide InChannels;
        PublicationKeepsChannels(who, m, step, gid);
      }
    }
  }

  /** Nobody is handed over, held or appended twice. */
  lemma HandedOverOnce(who: Identity, steps: seq<Step>, gid: Gid)
    requires Lossless(steps)
    ensures multiset(RunOf(who, steps).log)[gid] == InChannels(RunOf(who, steps), gid) <= 1
  {
    NoneLost(who, steps, gid);
    NoSubscriberTwice(who, steps, gid);
    hide RunOf;
  }

  // ---------------------------------------------------------------------------------------
  // The order of endpoints
  // ---------------------------------------------------------------------------------------

  /** Position `i` of the log on belongs to what a publication holds. */
  ghost predicate Segment(log: seq<Gid>, p: Publication)
  {
    p.stage.Making? ==>
      && |Held(p)| <= p.stage.upTo <= |log|
      && log[p.stage.upTo - |Held(p)|..p.stage.upTo] == Targets(Held(p))
  }

  /** Pending is the end of the log, and what is in creation are rows of it before that end. */
  ghost predicate Laid(m: Machine)
  {
    && |m.pub.pending| <= |m.log| && m.log[|m.log| - |m.pub.pending|..] == Targets(m.pub.pending)
    && forall b :: 0 <= b < |m.publications| ==>
         && Segment(m.log, m.publications[b])
         && (m.publications[b].stage.Making? ==> m.publications[b].stage.upTo <= |m.log| - |m.pub.pending|)
  }

  lemma DeliveredLaid(m: Machine, p: Peer, m': Machine)
    requires Laid(m) && m' == m.(flight := m'.flight, pub := m.pub.(pending := m.pub.pending + [p]), log := m.log + [p.target])
    ensures Laid(m')
  {
    var n := |m.log| - |m.pub.pending|;
    assert m'.log[n..] == m.log[n..] + [p.target];
    assert Targets(m.pub.pending + [p]) == Targets(m.pub.pending) + [p.target];
    forall b | 0 <= b < |m.publications|
      ensures Segment(m'.log, m.publications[b])
    {
      if m.publications[b].stage.Making? {
        var upTo, k := m.publications[b].stage.upTo, |Held(m.publications[b])|;
        assert m'.log[upTo - k..upTo] == m.log[upTo - k..upTo];
      }
    }
  }

  lemma TakenLaid(m: Machine, b: nat, m': Machine)
    requires Laid(m) && b < |m.publications| && m.publications[b].stage.Chosen?
    requires m' == m.(pub := m.pub.(pending := []), publications := At(m, b, Making(|m.log|, [], m.pub.pending)))
    ensures Laid(m')
  {
    assert Targets([]) == [] && m.log[|m.log|..] == [];
    assert [] + m.pub.pending == m.pub.pending;
    assert m.log[|m.log| - |m.pub.pending|..|m.log|] == m.log[|m.log| - |m.pub.pending|..];
  }

  lemma MadeLaid(m: Machine, b: nat, m': Machine)
    requires Laid(m) && b < |m.publications| && m.publications[b].stage.Making? && m.publications[b].stage.todo != []
    requires var Making(upTo, made, todo) := m.publications[b].stage;
      m' == m.(publications := At(m, b, Making(upTo, made + [todo[0]], todo[1..])))
    ensures Laid(m')
  {
    var Making(upTo, made, todo) := m.publications[b].stage;
    assert (made + [todo[0]]) + todo[1..] == made + todo;
  }

  lemma StageLaid(m: Machine, b: nat, stage: Stage, m': Machine)
    requires Laid(m) && b < |m.publications| && !stage.Making?
    requires m'.log == m.log && m'.pub.pending == m.pub.pending && m'.publications == At(m, b, stage)
    ensures Laid(m')
  {
  }

  lemma {:induction false} LosslessIsLaid(who: Identity, steps: seq<Step>)
    requires Lossless(steps)
    ensures Laid(RunOf(who, steps))
  {
    if steps == [] {
      assert Targets([]) == [];
    } else {
      var n := |steps| - 1;
      var m, step := RunOf(who, steps[..n]), steps[n];
      LosslessIsLaid(who, steps[..n]);
      StaysAlive(who, steps[..n]);
      assert LosslessStep(step);
      var m' := Next(who, m, step);
      assert RunOf(who, steps) == m';
      if step.Deliver? && step.k < |m.flight| && !OnlyCpu(m.flight[step.k].backends) {
        EveryDeliveryRecords(who, steps[..n], step.k);
        hide RunOf, Discover, Laid;
        DeliveredLaid(m, Peer(m.flight[step.k].gid, m.flight[step.k].backends), m');
      } else {
        hide RunOf, Segment;
        LaidStep(who, m, step);
      }
    }
  }

  lemma LaidStep(who: Identity, m: Machine, step: Step)
    requires Laid(m) && LosslessStep(step)
    requires step.Deliver? && step.k < |m.flight| ==> OnlyCpu(m.flight[step.k].backends)
    ensures Laid(Next(who, m, step))
  {
    hide Segment;
    var m' := Next(who, m, step);
    match step
    case Critical(_) =>
    case Deliver(_) =>
    case Choose(matched) =>
      assert Segment(m.log, Publication(matched, Everybody(m.pub), Chosen)) by {
        NothingHeld(m.log, Publication(matched, Everybody(m.pub), Chosen));
      }
    case Take(b) =>
      hide Laid;
      if m' != m {
        if m.pub.pending == [] {
          StageLaid(m, b, Ready, m');
        } else {
          TakenLaid(m, b, m');
        }
      }
    case Make(b, _) =>
      hide Laid;
      if m' != m {
        MadeLaid(m, b, m');
      }
    case Commit(b) =>
      hide Laid;
      if m' != m {
        StageLaid(m, b, Ready, m');
      }
    case Write(b) =>
  }

  lemma NothingHeld(log: seq<Gid>, p: Publication)
    requires !p.stage.Making?
    ensures Segment(log, p)
  {
  }

  /** The endpoints are the subscribers handed over first, in the order in which they were. */
  ghost predicate InOrder(m: Machine)
  {
    Targets(m.pub.endpoints) <= m.log
  }

  /** The step appends what one publication made while another, which took earlier, still holds some. */
  ghost predicate Overtakes(m: Machine, step: Step)
  {
    && step.Commit? && step.b < |m.publications| && m.publications[step.b].stage.Making?
    && m.publications[step.b].stage.todo == [] && m.publications[step.b].stage.made != []
    && exists o :: 0 <= o < |m.publications| && EarlierHolds(m.publications[o], m.publications[step.b].stage.upTo)
  }

  predicate EarlierHolds(p: Publication, upTo: nat)
  {
    p.stage.Making? && p.stage.upTo < upTo && Held(p) != []
  }

  lemma {:induction false} SomeoneHolds(publications: seq<Publication>, gid: Gid)
    requires InCreation(publications, gid) > 0
    ensures exists b :: 0 <= b < |publications| && Holding(publications[b], gid) > 0
  {
    hide Holding;
    if Holding(publications[0], gid) == 0 {
      SomeoneHolds(publications[1..], gid);
      var b :| 0 <= b < |publications[1..]| && Holding(publications[1..][b], gid) > 0;
      assert Holding(publications[b + 1], gid) > 0;
    }
  }

  lemma TwoHold(publications: seq<Publication>, a: nat, b: nat, gid: Gid)
    requires a < |publications| && b < |publications| && a != b
    ensures InCreation(publications, gid) >= Holding(publications[a], gid) + Holding(publications[b], gid)
  {
    hide Holding, InCreation;
    PublicationRemoved(publications, a, gid);
    var rest := RemoveAt(publications, a);
    var b' := if b < a then b else b - 1;
    assert rest[b'] == publications[b];
    PublicationRemoved(rest, b', gid);
  }

  /** Every subscriber handed over is in exactly one place, and where the log says. */
  ghost predicate Sound(m: Machine)
  {
    Laid(m) && forall gid :: multiset(m.log)[gid] == InChannels(m, gid) <= 1
  }

  lemma LosslessIsSound(who: Identity, steps: seq<Step>)
    requires Lossless(steps)
    ensures Sound(RunOf(who, steps))
  {
    LosslessIsLaid(who, steps);
    hide RunOf, InChannels, Laid;
    forall gid
      ensures multiset(RunOf(who, steps).log)[gid] == InChannels(RunOf(who, steps), gid) <= 1
    {
      HandedOverOnce(who, steps, gid);
    }
  }

  lemma OnceInChannels(m: Machine, gid: Gid)
    requires Sound(m)
    ensures multiset(m.log)[gid] == InChannels(m, gid) <= 1
  {
    hide InChannels, Laid;
  }

  lemma LogDistinct(m: Machine, i: nat, j: nat)
    requires Sound(m) && i < |m.log| && j < |m.log| && m.log[i] == m.log[j]
    ensures i == j
  {
    hide InChannels, Laid;
    if i < j {
      TwicePresent(m.log, i, j);
    } else if j < i {
      TwicePresent(m.log, j, i);
    }
  }

  /** Exactly the publication whose row contains position `i` of the log holds that subscriber. */
  lemma HoldsItsRow(m: Machine, b: nat, i: nat)
    requires Sound(m) && b < |m.publications| && i < |m.log|
    ensures var p := m.publications[b];
      Holding(p, m.log[i]) > 0 <==> p.stage.Making? && p.stage.upTo - |Held(p)| <= i < p.stage.upTo
  {
    hide InChannels;
    var p := m.publications[b];
    if p.stage.Making? {
      var from := p.stage.upTo - |Held(p)|;
      assert m.log[from..p.stage.upTo] == Targets(Held(p));
      if from <= i < p.stage.upTo {
        assert Targets(Held(p))[i - from] == m.log[i];
        assert m.log[i] in Targets(Held(p));
      } else if m.log[i] in Targets(Held(p)) {
        var k :| 0 <= k < |Held(p)| && Targets(Held(p))[k] == m.log[i];
        assert m.log[from + k] == m.log[i];
        LogDistinct(m, i, from + k);
      }
    }
  }

  /** While they are in order, the endpoints are nobody handed over behind them. */
  lemma BehindEndpoints(m: Machine, i: nat)
    requires Sound(m) && InOrder(m) && i < |m.log|
    ensures multiset(Targets(m.pub.endpoints))[m.log[i]] > 0 <==> i < |m.pub.endpoints|
  {
    hide InChannels, Laid;
    var targets := Targets(m.pub.endpoints);
    if i < |m.pub.endpoints| {
      assert targets[i] == m.log[i];
      assert m.log[i] in targets;
    } else if m.log[i] in targets {
      var k :| 0 <= k < |targets| && targets[k] == m.log[i];
      LogDistinct(m, i, k);
    }
  }

  lemma NotPending(m: Machine, i: nat)
    requires Sound(m) && i < |m.log| - |m.pub.pending|
    ensures multiset(Targets(m.pub.pending))[m.log[i]] == 0
  {
    hide InChannels;
    if m.log[i] in Targets(m.pub.pending) {
      var k :| 0 <= k < |m.pub.pending| && Targets(m.pub.pending)[k] == m.log[i];
      LogDistinct(m, i, |m.log| - |m.pub.pending| + k);
    }
  }

  /** The row of a publication begins behind the endpoints. */
  lemma RowsAreBehind(m: Machine, b: nat)
    requires Sound(m) && InOrder(m) && b < |m.publications| && Held(m.publications[b]) != []
    ensures m.publications[b].stage.upTo - |Held(m.publications[b])| >= |m.pub.endpoints|
  {
    var p := m.publications[b];
    var from := p.stage.upTo - |Held(p)|;
    if from < |m.pub.endpoints| {
      HoldsItsRow(m, b, from);
      BehindEndpoints(m, from);
      PublicationRemoved(m.publications, b, m.log[from]);
      OnceInChannels(m, m.log[from]);
      hide InCreation, Holding, Sound, InOrder;
      assert false;
    }
  }

  lemma RowsAreApart(m: Machine, a: nat, b: nat, i: nat)
    requires Sound(m) && a < |m.publications| && b < |m.publications| && a != b && i < |m.log|
    ensures !(Holding(m.publications[a], m.log[i]) > 0 && Holding(m.publications[b], m.log[i]) > 0)
  {
    TwoHold(m.publications, a, b, m.log[i]);
    hide InCreation, Holding, Laid;
    assert multiset(m.log)[m.log[i]] == InChannels(m, m.log[i]);
  }

  /** When the next subscriber in order is not of this publication, an earlier one holds it. */
  lemma NextIsHeldEarlier(m: Machine, b: nat)
    requires Sound(m) && InOrder(m) && b < |m.publications| && Held(m.publications[b]) != []
    requires m.publications[b].stage.upTo - |Held(m.publications[b])| > |m.pub.endpoints|
    ensures exists o :: 0 <= o < |m.publications| && EarlierHolds(m.publications[o], m.publications[b].stage.upTo)
  {
    var p, next := m.publications[b], |m.pub.endpoints|;
    var from := p.stage.upTo - |Held(p)|;
    var gid := m.log[next];
    BehindEndpoints(m, next);
    NotPending(m, next);
    assert gid in m.log && multiset(m.log)[gid] > 0;
    SomeoneHolds(m.publications, gid);
    var o :| 0 <= o < |m.publications| && Holding(m.publications[o], gid) > 0;
    HoldsItsRow(m, o, next);
    HoldsItsRow(m, b, next);
    if m.publications[o].stage.upTo >= p.stage.upTo {
      HoldsItsRow(m, o, from);
      HoldsItsRow(m, b, from);
      RowsAreApart(m, o, b, from);
    }
    assert EarlierHolds(m.publications[o], p.stage.upTo);
  }

  /** When this publication holds the very next subscribers, no earlier one holds any. */
  lemma NoneHoldsEarlier(m: Machine, b: nat)
    requires Sound(m) && InOrder(m) && b < |m.publications| && Held(m.publications[b]) != []
    requires m.publications[b].stage.upTo - |Held(m.publications[b])| == |m.pub.endpoints|
    ensures forall o :: 0 <= o < |m.publications| ==> !EarlierHolds(m.publications[o], m.publications[b].stage.upTo)
  {
    if o :| 0 <= o < |m.publications| && EarlierHolds(m.publications[o], m.publications[b].stage.upTo) {
      RowsAreBehind(m, o);
      var first := m.publications[o].stage.upTo - |Held(m.publications[o])|;
      HoldsItsRow(m, o, first);
      HoldsItsRow(m, b, first);
      hide Sound, InOrder, Holding;
      RowsAreApart(m, o, b, first);
    }
  }

  lemma CommitKeepsOrder(who: Identity, m: Machine, b: nat)
    requires Sound(m) && InOrder(m) && b < |m.publications| && m.publications[b].stage.Making?
    requires m.publications[b].stage.todo == [] && m.publications[b].stage.made != []
    ensures InOrder(Next(who, m, Commit(b))) <==> !Overtakes(m, Commit(b))
  {
    var p, e := m.publications[b], m.pub.endpoints;
    var made, upTo := p.stage.made, p.stage.upTo;
    var from := upTo - |made|;
    assert Held(p) == made && m.log[from..upTo] == Targets(made);
    assert Targets(e + made) == Targets(e) + Targets(made);
    RowsAreBehind(m, b);
    if from == |e| {
      assert Targets(e + made) == m.log[..from] + m.log[from..upTo] == m.log[..upTo];
      NoneHoldsEarlier(m, b);
    } else {
      NextIsHeldEarlier(m, b);
      if Targets(e + made) <= m.log {
        assert m.log[|e|] == Targets(e + made)[|e|] == Targets(made)[0] == m.log[from];
        LogDistinct(m, |e|, from);
      }
    }
  }

  lemma DeliverKeepsOrder(m: Machine, m': Machine, gid: Gid)
    requires Sound(m') && m'.pub.endpoints == m.pub.endpoints
    requires m'.log == m.log + [gid] && multiset(Targets(m'.pub.pending))[gid] > 0
    ensures InOrder(m') <==> InOrder(m)
  {
    var targets: seq<Gid> := Targets(m.pub.endpoints);
    OnceInChannels(m', gid);
    assert gid in targets <==> multiset(targets)[gid] > 0;
    if targets <= m'.log {
      PrefixWithoutLast(targets, m.log, gid);
    }
  }

  lemma PrefixWithoutLast(s: seq<Gid>, log: seq<Gid>, last: Gid)
    requires s <= log + [last] && last !in s
    ensures s <= log
  {
    assert (log + [last])[|log|] == last;
  }

  /**
   Exactly when the endpoints are in the order of discovery: no publication ever appended
   subscribers while one that had moved the pending list out earlier still held some.
   */
  lemma {:induction false} OrderKeptExactly(who: Identity, steps: seq<Step>)
    requires Lossless(steps)
    ensures InOrder(RunOf(who, steps)) <==> NoneOvertakes(who, steps)
  {
    if steps != [] {
      hide RunOf, Overtakes, InOrder, NoneOvertakes;
      OrderKeptExactly(who, steps[..|steps| - 1]);
      LastOvertakes(who, steps);
      OrderOfLast(who, steps);
    } else {
      assert Targets([]) == [];
    }
  }

  ghost predicate NoneOvertakes(who: Identity, steps: seq<Step>)
  {
    forall k :: 0 <= k < |steps| ==> !Overtakes(RunOf(who, steps[..k]), steps[k])
  }

  lemma LastOvertakes(who: Identity, steps: seq<Step>)
    requires steps != []
    ensures var before := steps[..|steps| - 1];
      NoneOvertakes(who, steps) <==> NoneOvertakes(who, before) && !Overtakes(RunOf(who, before), steps[|steps| - 1])
  {
    hide RunOf, Overtakes;
    var n := |steps| - 1;
    var before := steps[..n];
    assert forall k :: 0 <= k < n ==> before[..k] == steps[..k] && before[k] == steps[k];
    if NoneOvertakes(who, steps) {
      forall k | 0 <= k < n
        ensures !Overtakes(RunOf(who, before[..k]), before[k])
      {
        assert !Overtakes(RunOf(who, steps[..k]), steps[k]);
      }
    }
  }

  lemma OrderOfLast(who: Identity, steps: seq<Step>)
    requires Lossless(steps) && steps != []
    ensures var before, step := steps[..|steps| - 1], steps[|steps| - 1];
      InOrder(RunOf(who, steps)) <==> InOrder(RunOf(who, before)) && !Overtakes(RunOf(who, before), step)
  {
    var n := |steps| - 1;
    var before, step := steps[..n], steps[n];
    var m := RunOf(who, before);
    assert RunOf(who, steps) == Next(who, m, step) && LosslessStep(step);
    LosslessIsSound(who, before);
    LosslessIsSound(who, steps);
    StaysAlive(who, before);
    if step.Deliver? && step.k < |m.flight| && !OnlyCpu(m.flight[step.k].backends) {
      EveryDeliveryRecords(who, before, step.k);
      hide RunOf, Sound, InOrder, Discover, Next;
      DeliveredIsPending(who, m, step.k);
      DeliverKeepsOrder(m, Next(who, m, step), m.flight[step.k].gid);
    } else {
      hide RunOf, Sound, InOrder, Overtakes, Next;
      OrderStep(who, m, step);
    }
  }

  lemma DeliveredIsPending(who: Identity, m: Machine, k: nat)
    requires k < |m.flight| && m.pub.alive && !OnlyCpu(m.flight[k].backends)
    requires var p := Peer(m.flight[k].gid, m.flight[k].backends);
      Discover(m.pub, m.flight[k]) == m.pub.(pending := m.pub.pending + [p])
    ensures var m' := Next(who, m, Deliver(k));
      && m'.pub.endpoints == m.pub.endpoints && m'.log == m.log + [m.flight[k].gid]
      && multiset(Targets(m'.pub.pending))[m.flight[k].gid] > 0
      && !Overtakes(m, Deliver(k))
  {
    hide Discover;
    var p := Peer(m.flight[k].gid, m.flight[k].backends);
    AppendedPeers(m.pub.pending, [p], p.target);
    OnePeer(p, p.target);
  }

  lemma OrderStep(who: Identity, m: Machine, step: Step)
    requires Sound(m) && LosslessStep(step)
    requires step.Deliver? && step.k < |m.flight| ==> OnlyCpu(m.flight[step.k].backends)
    ensures InOrder(Next(who, m, step)) <==> InOrder(m) && !Overtakes(m, step)
  {
    hide Sound, Targets;
    if step.Commit? && step.b < |m.publications| && m.publications[step.b].stage.Making? && m.publications[step.b].stage.todo == [] {
      var e, made := m.pub.endpoints, m.publications[step.b].stage.made;
      assert Targets(e + made) == Targets(e) + Targets(made);
      if made == [] {
        assert e + made == e;
      } else if InOrder(m) {
        CommitKeepsOrder(who, m, step.b);
      }
    }
  }

  // ---------------------------------------------------------------------------------------
  // One publication at a time
  // ---------------------------------------------------------------------------------------

  predicate OneAtATime(who: Identity, steps: seq<Step>)
  {
    steps != [] ==>
      && OneAtATime(who, steps[..|steps| - 1])
      && (steps[|steps| - 1].Choose? ==> RunOf(who, steps[..|steps| - 1]).publications == [])
  }

  function HeldInAll(publications: seq<Publication>): seq<Peer>
  {
    if publications == [] then [] else Held(publications[0]) + HeldInAll(publications[1..])
  }

  lemma HeldInOne(p: Publication)
    ensures HeldInAll([p]) == Held(p)
  {
    assert [p][1..] == [];
    assert Held(p) + [] == Held(p);
  }

  /** Endpoints, then what is in creation, then what is pending. */
  function Row(m: Machine): seq<Peer>
  {
    m.pub.endpoints + HeldInAll(m.publications) + m.pub.pending
  }

  lemma RowAppended(peers: seq<Peer>, p: Peer)
    ensures Targets(peers + [p]) == Targets(peers) + [p.target]
  {
  }

  lemma LonelyKeepsRow(who: Identity, m: Machine, step: Step)
    requires |m.publications| <= 1 && LosslessStep(step) && !step.Deliver?
    requires step.Choose? ==> m.publications == []
    ensures var m' := Next(who, m, step);
      Row(m') == Row(m) && m'.log == m.log && |m'.publications| <= 1
  {
    var m' := Next(who, m, step);
    if |m.publications| == 1 {
      HeldInOne(m.publications[0]);
      assert m.publications == [m.publications[0]];
    }
    if |m'.publications| == 1 {
      HeldInOne(m'.publications[0]);
      assert m'.publications == [m'.publications[0]];
    }
    assert HeldInAll([]) == [];
    hide HeldInAll, Scheduled, Mine, Run;
    if m' != m && step.Take? {
      assert m.pub.endpoints + [] == m.pub.endpoints;
      assert [] + m.pub.pending == m.pub.pending;
      assert m.pub.endpoints + m.pub.pending + [] == m.pub.endpoints + m.pub.pending;
    } else if m' != m && step.Make? {
      var Making(_, made, todo) := m.publications[0].stage;
      assert (made + [todo[0]]) + todo[1..] == made + todo;
    } else if m' != m && step.Commit? {
      var made := m.publications[0].stage.made;
      assert made + [] == made && (m.pub.endpoints + made) + [] == m.pub.endpoints + made;
    }
  }

  lemma DeliverAppends(who: Identity, steps: seq<Step>, k: nat)
    requires k < |RunOf(who, steps).flight| && RunOf(who, steps).pub.alive
    ensures var m := RunOf(who, steps);
      var m', p := Next(who, m, Deliver(k)), Peer(m.flight[k].gid, m.flight[k].backends);
      && m'.publications == m.publications
      && if OnlyCpu(p.backends) then Row(m') == Row(m) && m'.log == m.log
         else Row(m') == Row(m) + [p] && m'.log == m.log + [p.target]
  {
    var m := RunOf(who, steps);
    EveryDeliveryRecords(who, steps, k);
    hide RunOf, Discover, HeldInAll;
    var row, p := m.pub.endpoints + HeldInAll(m.publications), Peer(m.flight[k].gid, m.flight[k].backends);
    assert row + (m.pub.pending + [p]) == (row + m.pub.pending) + [p];
  }

  lemma NewRow()
    ensures Row(INITIAL) == [] && Targets([]) == []
  {
  }

  /** With one publication at a time, endpoints come in the order of discovery. */
  lemma {:induction false} OrderIsKept(who: Identity, steps: seq<Step>)
    requires Lossless(steps) && OneAtATime(who, steps)
    ensures |RunOf(who, steps).publications| <= 1
    ensures RunOf(who, steps).log == Targets(Row(RunOf(who, steps)))
  {
    hide Row, Targets, Next, OnlyCpu;
    if steps == [] {
      NewRow();
    } else {
      var n := |steps| - 1;
      var m, step := RunOf(who, steps[..n]), steps[n];
      assert LosslessStep(step);
      OrderIsKept(who, steps[..n]);
      StaysAlive(who, steps[..n]);
      assert RunOf(who, steps) == Next(who, m, step);
      hide RunOf, Lossless;
      if !step.Deliver? {
        LonelyKeepsRow(who, m, step);
      } else if step.k < |m.flight| {
        DeliverAppends(who, steps[..n], step.k);
        RowAppended(Row(m), Peer(m.flight[step.k].gid, m.flight[step.k].backends));
      } else {
        NothingDelivered(who, m, step.k);
      }
    }
  }

  lemma NothingDelivered(who: Identity, m: Machine, k: nat)
    requires k >= |m.flight|
    ensures Next(who, m, Deliver(k)) == m
  {
  }

  // ---------------------------------------------------------------------------------------
  // Whom a publication reaches
  // ---------------------------------------------------------------------------------------

  lemma RecordNoneTwice(who: Identity, steps: seq<Step>)
    ensures NoneTwice(Recorded(RunOf(who, steps).pub))
  {
    hide RunOf, Recorded;
    forall gid
      ensures Recorded(RunOf(who, steps).pub)[gid] <= 1
    {
      NoSubscriberTwice(who, steps, gid);
    }
  }

  /** Whenever a publication writes, in any run, nobody is reached by two of its writes. */
  lemma NobodyReachedTwice(who: Identity, steps: seq<Step>, gid: Gid)
    ensures var s := RunOf(who, steps).pub;
      Copies(s, Writes(s), gid) <= 1
  {
    var s := RunOf(who, steps).pub;
    NoSubscriberTwice(who, steps, gid);
    hide RunOf;
    CopiesAre(s, gid);
    assert gid in s.cpuOnly <==> multiset(s.cpuOnly)[gid] > 0;
  }

  /** Those a publication counted are on hand, and pending only until it moves the list out. */
  ghost predicate Kept(m: Machine, p: Publication)
  {
    forall gid :: gid in p.counted ==> OnHand(m, gid) >= 1 && (p.stage.Chosen? || gid !in Targets(m.pub.pending))
  }

  ghost predicate AllKept(m: Machine)
  {
    forall b :: 0 <= b < |m.publications| ==> Kept(m, m.publications[b])
  }

  lemma DeliveredStaysOnHand(who: Identity, m: Machine, k: nat, gid: Gid)
    requires k < |m.flight| && Circulating(m, gid) <= 1 && OnHand(m, gid) >= 1
    ensures var m' := Next(who, m, Deliver(k));
      OnHand(m', gid) >= 1 && (gid in Targets(m'.pub.pending) <==> gid in Targets(m.pub.pending))
  {
    var info := m.flight[k];
    RemovedGid(m.flight, k, gid);
    DiscoverRecords(m.pub, info, gid);
    assert gid != info.gid;
    hide Recorded, InCreation;
    assert Targets(m.pub.pending + [Peer(info.gid, info.backends)]) == Targets(m.pub.pending) + [info.gid];
  }

  lemma KeptByDelivery(who: Identity, m: Machine, k: nat, p: Publication)
    requires Kept(m, p) && forall gid :: Circulating(m, gid) <= 1
    ensures Kept(Next(who, m, Deliver(k)), p)
  {
    if k < |m.flight| {
      forall gid | gid in p.counted
        ensures OnHand(Next(who, m, Deliver(k)), gid) >= 1
        ensures p.stage.Chosen? || gid !in Targets(Next(who, m, Deliver(k)).pub.pending)
      {
        assert Circulating(m, gid) <= 1;
        DeliveredStaysOnHand(who, m, k, gid);
      }
    }
  }

  lemma KeptByPublication(who: Identity, m: Machine, step: Step, p: Publication)
    requires Kept(m, p) && LosslessStep(step) && !step.Critical? && !step.Deliver?
    ensures Kept(Next(who, m, step), p)
  {
    forall gid | gid in p.counted
      ensures OnHand(Next(who, m, step), gid) == OnHand(m, gid)
    {
      PublicationKeeps(who, m, step, gid);
    }
    hide OnHand, Targets;
    assert Targets([]) == [] by {
      OneTarget();
    }
  }

  lemma OneTarget()
    ensures Targets([]) == []
  {
  }

  lemma KeptBySection(who: Identity, m: Machine, e: Event, p: Publication)
    requires Kept(m, p)
    ensures Kept(Next(who, m, Critical(e)), p)
  {
    hide Scheduled, Mine, Run;
  }

  lemma KeptStep(who: Identity, m: Machine, step: Step, p: Publication)
    requires Kept(m, p) && LosslessStep(step) && forall gid :: Circulating(m, gid) <= 1
    ensures Kept(Next(who, m, step), p)
  {
    hide Kept, Next, Circulating;
    match step
    case Critical(e) => KeptBySection(who, m, e, p);
    case Deliver(k) => KeptByDelivery(who, m, k, p);
    case _ => KeptByPublication(who, m, step, p);
  }

  lemma CountedIsKept(m: Machine, matched: set<Gid>)
    ensures Kept(m, Publication(matched, Everybody(m.pub), Chosen))
  {
    forall gid | gid in Everybody(m.pub)
      ensures OnHand(m, gid) >= 1
    {
      assert multiset(Everybody(m.pub)) == Recorded(m.pub);
      assert multiset(Everybody(m.pub))[gid] > 0;
    }
  }

  /** A publication that goes on to a later stage is still kept. */
  lemma AllKeptAt(m: Machine, before: seq<Publication>, b: nat, stage: Stage)
    requires b < |before| && m.publications == before[b := before[b].(stage := stage)]
    requires forall a :: 0 <= a < |before| ==> Kept(m, before[a])
    requires before[b].stage.Chosen? ==> m.pub.pending == []
    ensures AllKept(m)
  {
    OneTarget();
    hide OnHand, Targets;
    assert Kept(m, m.publications[b]) by {
      assert Kept(m, before[b]);
    }
    hide Kept;
  }

  lemma AllKeptWithout(m: Machine, before: seq<Publication>, b: nat)
    requires b < |before| && m.publications == RemoveAt(before, b)
    requires forall a :: 0 <= a < |before| ==> Kept(m, before[a])
    ensures AllKept(m)
  {
    hide Kept;
  }

  lemma AllKeptWith(m: Machine, before: seq<Publication>, p: Publication)
    requires m.publications == before + [p] && Kept(m, p)
    requires forall a :: 0 <= a < |before| ==> Kept(m, before[a])
    ensures AllKept(m)
  {
    hide Kept;
  }

  /** The publications behind a step are those before it, one step further. */
  lemma AllKeptStep(who: Identity, m: Machine, step: Step)
    requires AllKept(m) && LosslessStep(step) && forall gid :: Circulating(m, gid) <= 1
    ensures AllKept(Next(who, m, step))
  {
    hide Kept, Circulating, Scheduled, Mine, Run, Discover, RemoveAt, Everybody, RecordedCount, OnlyCpu;
    var m' := Next(who, m, step);
    forall b | 0 <= b < |m.publications|
      ensures Kept(m', m.publications[b])
    {
      KeptStep(who, m, step, m.publications[b]);
    }
    if m'.publications != m.publications {
      match step
      case Choose(matched) =>
        var p := Publication(matched, Everybody(m.pub), Chosen);
        CountedIsKept(m, matched);
        KeptStep(who, m, step, p);
        AllKeptWith(m', m.publications, p);
      case Take(b) => AllKeptAt(m', m.publications, b, m'.publications[b].stage);
      case Make(b, _) => AllKeptAt(m', m.publications, b, m'.publications[b].stage);
      case Commit(b) => AllKeptAt(m', m.publications, b, Ready);
      case Write(b) => AllKeptWithout(m', m.publications, b);
      case _ =>
    }
  }

  lemma {:induction false} LosslessKeeps(who: Identity, steps: seq<Step>)
    requires Lossless(steps)
    ensures AllKept(RunOf(who, steps))
  {
    if steps != [] {
      var n := |steps| - 1;
      LosslessKeeps(who, steps[..n]);
      assert LosslessStep(steps[n]);
      hide AllKept, Next, Circulating, Lossless;
      forall gid
        ensures Circulating(RunOf(who, steps[..n]), gid) <= 1
      {
        NoSubscriberTwice(who, steps[..n], gid);
      }
      AllKeptStep(who, RunOf(who, steps[..n]), steps[n]);
    }
  }

  /** Another publication has moved the subscriber out, and not appended it yet. */
  ghost predicate HeldByAnother(m: Machine, b: nat, gid: Gid)
  {
    exists o :: 0 <= o < |m.publications| && o != b && gid in Targets(Held(m.publications[o]))
  }

  lemma HeldElsewhere(m: Machine, b: nat, gid: Gid)
    requires b < |m.publications| && Held(m.publications[b]) == []
    ensures InCreation(m.publications, gid) > 0 <==> HeldByAnother(m, b, gid)
  {
    OneTarget();
    forall o | 0 <= o < |m.publications|
      ensures gid in Targets(Held(m.publications[o])) <==> Holding(m.publications[o], gid) > 0
      ensures InCreation(m.publications, gid) >= Holding(m.publications[o], gid)
    {
      PublicationRemoved(m.publications, o, gid);
    }
    hide Targets, Held, InCreation;
    if InCreation(m.publications, gid) > 0 {
      SomeoneHolds(m.publications, gid);
    }
  }

  /**
   Whatever else interleaves, discovery and other publications included: when a publication on
   the buffer route writes, it reaches each subscriber it counted by exactly one write, except
   those that another publication has moved out and not appended yet, which it misses.
   */
  lemma CountedAreReached(who: Identity, steps: seq<Step>, b: nat, gid: Gid)
    requires Lossless(steps)
    requires b < |RunOf(who, steps).publications| && RunOf(who, steps).publications[b].stage.Ready?
    requires gid in RunOf(who, steps).publications[b].counted
    ensures var m := RunOf(who, steps);
      Copies(m.pub, Writes(m.pub), gid) == if HeldByAnother(m, b, gid) then 0 else 1
  {
    var m := RunOf(who, steps);
    LosslessKeeps(who, steps);
    NoSubscriberTwice(who, steps, gid);
    hide RunOf;
    assert Kept(m, m.publications[b]);
    HeldElsewhere(m, b, gid);
    CopiesAre(m.pub, gid);
    hide InCreation, HeldByAnother, Copies, Writes;
    assert gid in m.pub.cpuOnly <==> multiset(m.pub.cpuOnly)[gid] > 0;
    assert gid in Targets(m.pub.pending) <==> multiset(Targets(m.pub.pending))[gid] > 0;
  }

  /** So one publication at a time reaches everybody it counted, and nobody twice. */
  lemma PublishReachesEach(who: Identity, steps: seq<Step>, b: nat, gid: Gid)
    requires Lossless(steps) && OneAtATime(who, steps)
    requires b < |RunOf(who, steps).publications| && RunOf(who, steps).publications[b].stage.Ready?
    requires gid in RunOf(who, steps).publications[b].counted
    ensures var s := RunOf(who, steps).pub;
      Copies(s, Writes(s), gid) == 1
  {
    OrderIsKept(who, steps);
    CountedAreReached(who, steps, b, gid);
  }

  /** A publication on the buffer route counted nobody twice, and no fewer than were matched. */
  ghost predicate Counted(p: Publication)
  {
    NoneTwice(multiset(p.counted)) && |p.matched| <= |p.counted|
  }

  ghost predicate EachCounted(m: Machine)
  {
    forall b :: 0 <= b < |m.publications| ==> Counted(m.publications[b])
  }

  lemma CountedStep(who: Identity, m: Machine, step: Step)
    requires EachCounted(m) && NoneTwice(Recorded(m.pub))
    ensures EachCounted(Next(who, m, step))
  {
    if step.Choose? {
      CountsEverybody(m.pub);
    }
    hide Recorded, RecordedCount, Everybody, NoneTwice, Scheduled, Mine, Run, Discover, OnlyCpu;
  }

  lemma CountsEverybody(s: State)
    ensures multiset(Everybody(s)) == Recorded(s) && |Everybody(s)| == RecordedCount(s)
  {
  }

  lemma {:induction false} AllCounted(who: Identity, steps: seq<Step>)
    ensures EachCounted(RunOf(who, steps))
  {
    if steps != [] {
      AllCounted(who, steps[..|steps| - 1]);
      RecordNoneTwice(who, steps[..|steps| - 1]);
      hide EachCounted, Next, NoneTwice;
      CountedStep(who, RunOf(who, steps[..|steps| - 1]), steps[|steps| - 1]);
    }
  }

  lemma NoRoomForMore(counted: seq<Gid>, matched: set<Gid>)
    requires NoneTwice(multiset(counted)) && |matched| <= |counted| && SetOf(counted) <= matched
    ensures matched == SetOf(counted)
  {
    SizeOfSet(counted);
    assert matched == SetOf(counted) + (matched - SetOf(counted));
  }

  /** When everybody on record is matched, the route is taken exactly when nobody else is. */
  lemma RouteIsForMatched(who: Identity, steps: seq<Step>, matched: set<Gid>)
    requires SetOf(Everybody(RunOf(who, steps).pub)) <= matched
    ensures var m := RunOf(who, steps);
      |Next(who, m, Choose(matched)).publications| > |m.publications| <==> matched == SetOf(Everybody(m.pub))
  {
    RecordNoneTwice(who, steps);
    hide RunOf;
    RouteIsSafe(RunOf(who, steps).pub, matched);
  }

  /**
   No subscriber that was matched when the route was chosen is skipped, legacy or not, unless
   another publication holds it: then, and only then, it gets nothing from this one. All who
   were on record are supposed to have been matched.
   */
  lemma RouteReachesMatched(who: Identity, steps: seq<Step>, b: nat, gid: Gid)
    requires Lossless(steps)
    requires b < |RunOf(who, steps).publications| && RunOf(who, steps).publications[b].stage.Ready?
    requires SetOf(RunOf(who, steps).publications[b].counted) <= RunOf(who, steps).publications[b].matched
    requires gid in RunOf(who, steps).publications[b].matched
    ensures var m := RunOf(who, steps);
      Copies(m.pub, Writes(m.pub), gid) == if HeldByAnother(m, b, gid) then 0 else 1
  {
    var p := RunOf(who, steps).publications[b];
    AllCounted(who, steps);
    NoRoomForMore(p.counted, p.matched);
    CountedAreReached(who, steps, b, gid);
  }

  // ---------------------------------------------------------------------------------------
  // Overlapping publications
  // ---------------------------------------------------------------------------------------

  /** Some run in which every creation succeeds leads to the machine. */
  ghost predicate Reached(who: Identity, m: Machine)
  {
    exists steps :: Lossless(steps) && RunOf(who, steps) == m
  }

  lemma ReachNext(who: Identity, m: Machine, step: Step)
    requires Reached(who, m) && LosslessStep(step)
    ensures Reached(who, Next(who, m, step))
  {
    hide Next;
    var steps :| Lossless(steps) && RunOf(who, steps) == m;
    var more := steps + [step];
    assert more[..|steps|] == steps;
    assert RunOf(who, more) == Next(who, m, step);
    assert Lossless(more);
  }

  /** The publisher registers, then the registry hears of the subscribers one by one. */
  function Announced(who: Identity, topic: string, infos: seq<Info>): (events: seq<Event>)
    ensures |events| == |infos| + 1
  {
    if infos == [] then [Register(topic, who.gid, who.callback)]
    else Announced(who, topic, infos[..|infos| - 1]) + [Notify(infos[|infos| - 1])]
  }

  /** Subscribers on one topic, with different GIDs. */
  ghost predicate Newcomers(topic: string, infos: seq<Info>)
  {
    && (forall i :: 0 <= i < |infos| ==> infos[i].topic == topic)
    && (forall i, j :: 0 <= i < j < |infos| ==> infos[i].gid != infos[j].gid)
  }

  lemma {:induction false} AnnouncedRun(who: Identity, topic: string, infos: seq<Info>)
    requires Newcomers(topic, infos)
    ensures var s := Run(Announced(who, topic, infos));
      s.known == infos && s.On(topic) == [Entry(who.gid, who.callback)]
  {
    var events := Announced(who, topic, infos);
    if infos == [] {
      assert events[..0] == [];
    } else {
      var n := |infos| - 1;
      AnnouncedRun(who, topic, infos[..n]);
      assert events[..n + 1] == Announced(who, topic, infos[..n]);
      assert !IsKnown(infos[..n], infos[n].gid);
      assert infos[..n] + [infos[n]] == infos;
    }
  }

  lemma {:induction false} ReachAnnounced(who: Identity, topic: string, infos: seq<Info>)
    requires Newcomers(topic, infos)
    ensures Reached(who, INITIAL.(events := Announced(who, topic, infos), flight := infos))
  {
    if infos == [] {
      assert RunOf(who, []) == INITIAL && Reached(who, INITIAL);
      ReachNext(who, INITIAL, Critical(Register(topic, who.gid, who.callback)));
      assert CallsFor(who.callback, topic, []) == [];
    } else {
      var n := |infos| - 1;
      var m := INITIAL.(events := Announced(who, topic, infos[..n]), flight := infos[..n]);
      ReachAnnounced(who, topic, infos[..n]);
      AnnouncedRun(who, topic, infos[..n]);
      assert !IsKnown(infos[..n], infos[n].gid);
      assert infos[..n] + [infos[n]] == infos;
      var calls := Scheduled(Run(m.events), Notify(infos[n]));
      assert calls == [Call(who.callback, infos[n])];
      assert Mine(calls, who.callback) == [infos[n]] by {
        assert calls[1..] == [];
      }
      hide Run, Scheduled, Mine, Reached;
      ReachNext(who, m, Critical(Notify(infos[n])));
    }
  }

  function PeerOf(info: Info): Peer
  {
    Peer(info.gid, info.backends)
  }

  /** A publication that counted one subscriber, which was matched. */
  function CountedOne(gid: Gid, stage: Stage): Publication
  {
    Publication({gid}, [gid], stage)
  }

  lemma FirstDelivered(who: Identity, m: Machine, info: Info, rest: seq<Info>)
    requires Reached(who, m) && m.pub == NEW_PUBLISHER && m.flight == [info] + rest && !OnlyCpu(info.backends)
    ensures Reached(who, m.(flight := rest, pub := NEW_PUBLISHER.(pending := [PeerOf(info)]), log := m.log + [info.gid]))
  {
    OneTarget();
    assert RemoveAt(m.flight, 0) == rest;
    assert [] + [PeerOf(info)] == [PeerOf(info)];
    hide Reached;
    ReachNext(who, m, Deliver(0));
  }

  lemma OneChooses(who: Identity, m: Machine, p: Peer)
    requires Reached(who, m) && m.pub == NEW_PUBLISHER.(pending := [p])
    ensures Reached(who, m.(publications := m.publications + [CountedOne(p.target, Chosen)]))
  {
    assert Targets([p]) == [p.target] && Targets([]) == [];
    assert Everybody(m.pub) == [p.target];
    hide Reached;
    ReachNext(who, m, Choose({p.target}));
  }

  lemma OneTakes(who: Identity, m: Machine, b: nat, p: Peer)
    requires Reached(who, m) && m.pub == NEW_PUBLISHER.(pending := [p])
    requires b < |m.publications| && m.publications[b].stage.Chosen?
    ensures Reached(who, m.(pub := NEW_PUBLISHER, publications := At(m, b, Making(|m.log|, [], [p]))))
  {
    hide Reached;
    ReachNext(who, m, Take(b));
  }

  /**
   The skipping run: two publications count one pending subscriber, which is matched. The second
   moves it out; the first then finds nothing pending and writes to nobody.
   */
  lemma OverlapSkips(who: Identity, info: Info)
    requires !OnlyCpu(info.backends)
    ensures exists m ::
      && Reached(who, m)
      && m.publications == [CountedOne(info.gid, Ready), CountedOne(info.gid, Making(1, [], [PeerOf(info)]))]
      && Copies(m.pub, Writes(m.pub), info.gid) == 0
  {
    var p := PeerOf(info);
    var m0 := INITIAL.(events := Announced(who, info.topic, [info]), flight := [info]);
    ReachAnnounced(who, info.topic, [info]);
    hide Reached, Announced, At;
    Replaced(info, info, info);
    Replaced(info.gid, 0, 0);
    FirstDelivered(who, m0, info, []);
    var m1 := m0.(flight := [], pub := NEW_PUBLISHER.(pending := [p]), log := [info.gid]);
    BothChoose(who, m1, p);
  }

  /** Both count the subscriber pending, and the second moves it out before the first looks. */
  lemma BothChoose(who: Identity, m: Machine, p: Peer)
    requires Reached(who, m) && m.pub == NEW_PUBLISHER.(pending := [p]) && m.publications == [] && |m.log| == 1
    ensures var m' := m.(pub := NEW_PUBLISHER,
                         publications := [CountedOne(p.target, Ready), CountedOne(p.target, Making(1, [], [p]))]);
      Reached(who, m') && Copies(m'.pub, Writes(m'.pub), p.target) == 0
  {
    var chosen, making := CountedOne(p.target, Chosen), CountedOne(p.target, Making(1, [], [p]));
    var ready := CountedOne(p.target, Ready);
    Replaced(chosen, chosen, making);
    Replaced(chosen, making, ready);
    CopiesAre(NEW_PUBLISHER, p.target);
    OneTarget();
    hide Reached, Copies, Writes;
    OneChooses(who, m, p);
    OneChooses(who, m.(publications := [chosen]), p);
    OneTakes(who, m.(publications := [chosen, chosen]), 1, p);
    NothingToTake(who, m.(pub := NEW_PUBLISHER, publications := [chosen, making]), 0);
  }

  lemma NothingToTake(who: Identity, m: Machine, b: nat)
    requires Reached(who, m) && m.pub.pending == [] && b < |m.publications| && m.publications[b].stage.Chosen?
    ensures Reached(who, m.(publications := At(m, b, Ready)))
  {
    hide Reached;
    ReachNext(who, m, Take(b));
  }

  lemma OneMakes(who: Identity, m: Machine, b: nat, upTo: nat, p: Peer)
    requires Reached(who, m) && b < |m.publications| && m.publications[b].stage == Making(upTo, [], [p])
    ensures Reached(who, m.(pub := m.pub.(endpoints := m.pub.endpoints + [p]), publications := At(m, b, Ready)))
  {
    assert [] + [p] == [p] && [p][1..] == [];
    hide Reached;
    ReachNext(who, m, Make(b, true));
    ReachNext(who, m.(publications := At(m, b, Making(upTo, [p], []))), Commit(b));
  }

  /** The callback runs for a newcomer, which the next publication counts and moves out. */
  lemma NewcomerMoved(who: Identity, m: Machine, info: Info, rest: seq<Info>)
    requires Reached(who, m) && m.pub == NEW_PUBLISHER && m.flight == [info] + rest && !OnlyCpu(info.backends)
    ensures Reached(who, m.(flight := rest, log := m.log + [info.gid],
      publications := m.publications + [CountedOne(info.gid, Making(|m.log| + 1, [], [PeerOf(info)]))]))
  {
    hide Reached;
    FirstDelivered(who, m, info, rest);
    var m1 := m.(flight := rest, pub := NEW_PUBLISHER.(pending := [PeerOf(info)]), log := m.log + [info.gid]);
    OneChooses(who, m1, PeerOf(info));
    var chosen := CountedOne(info.gid, Chosen);
    OneTakes(who, m1.(publications := m.publications + [chosen]), |m.publications|, PeerOf(info));
    LastReplaced(m.publications, chosen, CountedOne(info.gid, Making(|m.log| + 1, [], [PeerOf(info)])));
  }

  lemma LastReplaced<T>(s: seq<T>, x: T, y: T)
    ensures (s + [x])[|s| := y] == s + [y]
  {
  }

  lemma Replaced<T>(x: T, y: T, z: T)
    ensures [x, y][0 := z] == [z, y] && [x, y][1 := z] == [x, z]
    ensures [] + [x] == [x] && [x] + [] == [x] && [x] + [y] == [x, y]
  {
  }

  /** Overlapping publications may append in the other order. */
  lemma OverlapReorders(who: Identity, a: Info, b: Info)
    requires Newcomers(a.topic, [a, b]) && !OnlyCpu(a.backends) && !OnlyCpu(b.backends)
    ensures exists m :: Reached(who, m) && m.log == [a.gid, b.gid] && m.pub.endpoints == [PeerOf(b), PeerOf(a)]
  {
    hide Reached;
    var m0 := INITIAL.(events := Announced(who, a.topic, [a, b]), flight := [a, b]);
    ReachAnnounced(who, a.topic, [a, b]);
    hide Announced, At;
    Replaced(a, b, b);
    Replaced(b, b, b);
    Replaced(a.gid, b.gid, b.gid);
    NewcomerMoved(who, m0, a, [b]);
    var ma, mb := CountedOne(a.gid, Making(1, [], [PeerOf(a)])), CountedOne(b.gid, Making(2, [], [PeerOf(b)]));
    Replaced(ma, mb, mb);
    var m1 := m0.(flight := [b], log := [a.gid], publications := [ma]);
    NewcomerMoved(who, m1, b, []);
    BothMake(who, m1.(flight := [], log := [a.gid, b.gid], publications := [ma, mb]), PeerOf(a), PeerOf(b));
  }

  /** Two publications hold one subscriber each; the second appends first. */
  lemma BothMake(who: Identity, m: Machine, p: Peer, q: Peer)
    requires Reached(who, m) && m.pub == NEW_PUBLISHER
    requires m.publications == [CountedOne(p.target, Making(1, [], [p])), CountedOne(q.target, Making(2, [], [q]))]
    ensures Reached(who, m.(pub := NEW_PUBLISHER.(endpoints := [q, p]),
                            publications := [CountedOne(p.target, Ready), CountedOne(q.target, Ready)]))
  {
    hide Reached;
    var making, r, t := m.publications[0], CountedOne(p.target, Ready), CountedOne(q.target, Ready);
    Replaced(q, p, p);
    Replaced(making, m.publications[1], t);
    Replaced(making, t, r);
    OneMakes(who, m, 1, 2, q);
    OneMakes(who, m.(pub := NEW_PUBLISHER.(endpoints := [q]), publications := [making, t]), 0, 1, p);
  }

  /** The machine after some more steps. */
  function Continue(who: Identity, m: Machine, steps: seq<Step>): Machine
    decreases |steps|
  {
    if steps == [] then m else Continue(who, Next(who, m, steps[0]), steps[1..])
  }

  // ---------------------------------------------------------------------------------------
  // One call undisturbed
  // ---------------------------------------------------------------------------------------

  /** The steps from the first creation on, `creates` deciding which of them succeed. */
  function CallSteps(todo: seq<Peer>, creates: Gid -> bool): (steps: seq<Step>)
    ensures |steps| == |todo| + 1
  {
    if todo == [] then [Commit(0)] else [Make(0, creates(todo[0].target))] + CallSteps(todo[1..], creates)
  }

  lemma {:induction false} CallFinishes(who: Identity, m: Machine, p: Publication, upTo: nat, made: seq<Peer>, todo: seq<Peer>, creates: Gid -> bool)
    requires m.publications == [p.(stage := Making(upTo, made, todo))]
    ensures Continue(who, m, CallSteps(todo, creates)) ==
      m.(pub := m.pub.(endpoints := m.pub.endpoints + (made + Created(todo, creates))), publications := [p.(stage := Ready)])
    decreases |todo|
  {
    var steps := CallSteps(todo, creates);
    if todo == [] {
      assert steps[1..] == [] && made + [] == made;
      hide CallSteps;
    } else {
      var made' := if creates(todo[0].target) then made + [todo[0]] else made;
      var m' := m.(publications := [p.(stage := Making(upTo, made', todo[1..]))]);
      assert steps[1..] == CallSteps(todo[1..], creates);
      CreatedInFront(made, todo, creates);
      assert Next(who, m, steps[0]) == m';
      hide Next, Created, CallSteps;
      CallFinishes(who, m', p, upTo, made', todo[1..], creates);
    }
  }

  lemma CreatedInFront(made: seq<Peer>, todo: seq<Peer>, creates: Gid -> bool)
    requires todo != []
    ensures (if creates(todo[0].target) then made + [todo[0]] else made) + Created(todo[1..], creates) == made + Created(todo, creates)
  {
  }

  /** Undisturbed, a publication's steps up to its write are what the method does to the state. */
  lemma CallIsItsSteps(who: Identity, m: Machine, matched: set<Gid>, creates: Gid -> bool)
    requires m.publications == [] && m.pub.pending != [] && |matched| <= RecordedCount(m.pub)
    ensures Continue(who, m, [Choose(matched), Take(0)] + CallSteps(m.pub.pending, creates)) ==
      m.(pub := WithWriters(m.pub, creates), publications := [Publication(matched, Everybody(m.pub), Ready)])
  {
    var p := Publication(matched, Everybody(m.pub), Chosen);
    var rest := CallSteps(m.pub.pending, creates);
    var steps := [Choose(matched), Take(0)] + rest;
    assert steps[1..][0] == Take(0) && steps[1..][1..] == rest;
    assert [] + [p] == [p];
    var taken := m.(pub := m.pub.(pending := []), publications := [p.(stage := Making(|m.log|, [], m.pub.pending))]);
    assert Next(who, Next(who, m, Choose(matched)), Take(0)) == taken;
    CallFinishes(who, taken, p, |m.log|, [], m.pub.pending, creates);
    assert [] + Created(m.pub.pending, creates) == Created(m.pub.pending, creates);
    hide Next, Created, CallSteps;
  }

  // ---------------------------------------------------------------------------------------
  // After destruction
  // ---------------------------------------------------------------------------------------

  ghost predicate Idle(publications: seq<Publication>)
  {
    forall b :: 0 <= b < |publications| ==> Held(publications[b]) == []
  }

  lemma IdleStep(who: Identity, m: Machine, step: Step)
    requires m.pub == DESTROYED && Idle(m.publications)
    ensures Next(who, m, step).pub == DESTROYED && Idle(Next(who, m, step).publications)
  {
    hide Scheduled, Mine, Run;
    if step.Commit? && step.b < |m.publications| {
      assert Held(m.publications[step.b]) == [];
    }
    if step.Make? && step.b < |m.publications| {
      assert Held(m.publications[step.b]) == [];
    }
  }

  lemma {:induction false} IdleStaysEmpty(who: Identity, m: Machine, steps: seq<Step>)
    requires m.pub == DESTROYED && Idle(m.publications)
    ensures Continue(who, m, steps).pub == DESTROYED
    decreases |steps|
  {
    if steps != [] {
      IdleStep(who, m, steps[0]);
      hide Next, Idle;
      IdleStaysEmpty(who, Next(who, m, steps[0]), steps[1..]);
    }
  }

  /** The steps by which a publication brings its creations to an end. */
  function Finish(b: nat, left: nat): (steps: seq<Step>)
    ensures |steps| == left + 1
  {
    if left == 0 then [Commit(b)] else [Make(b, true)] + Finish(b, left - 1)
  }

  lemma {:induction false} FinishAppends(who: Identity, m: Machine, b: nat)
    requires b < |m.publications| && m.publications[b].stage.Making?
    ensures Continue(who, m, Finish(b, |m.publications[b].stage.todo|)).pub.endpoints == m.pub.endpoints + Held(m.publications[b])
    decreases |m.publications[b].stage.todo|
  {
    var Making(upTo, made, todo) := m.publications[b].stage;
    var steps := Finish(b, |todo|);
    if todo == [] {
      assert steps[1..] == [] && made + todo == made;
    } else {
      assert steps[1..] == Finish(b, |todo| - 1);
      assert (made + [todo[0]]) + todo[1..] == made + todo;
      var m' := Next(who, m, steps[0]);
      assert m'.publications[b].stage == Making(upTo, made + [todo[0]], todo[1..]) && m'.pub == m.pub;
      hide Next;
      FinishAppends(who, m', b);
    }
  }

  /**
   Destroying a publisher leaves its collections empty for ever, whatever callbacks are still in
   flight, exactly when no publication holds a subscriber it has moved out.
   */
  lemma QuiescentUnlessPublishing(who: Identity, m: Machine)
    ensures var d := Next(who, m, Destroy);
      (forall steps :: Continue(who, d, steps).pub == DESTROYED) <==> Idle(d.publications)
  {
    var d := Next(who, m, Destroy);
    if Idle(d.publications) {
      forall steps
        ensures Continue(who, d, steps).pub == DESTROYED
      {
        IdleStaysEmpty(who, d, steps);
      }
    } else {
      var b :| 0 <= b < |d.publications| && Held(d.publications[b]) != [];
      FinishAppends(who, d, b);
      var rest := Finish(b, |d.publications[b].stage.todo|);
      assert |Continue(who, d, rest).pub.endpoints| > 0;
    }
  }

  /** The publisher had registered, and its callbacks were unregistered since. */
  ghost predicate Left(who: Identity, events: seq<Event>)
  {
    exists i, p :: 0 <= i < p < |events|
      && events[i].Register? && events[i].callback == who.callback && events[i].registrant == who.gid
      && events[p] == Unregister(who.gid)
  }

  lemma {:induction false} NoneMine(calls: seq<Call>, cb: Callback)
    requires forall k :: 0 <= k < |calls| ==> calls[k].callback != cb
    ensures Mine(calls, cb) == []
  {
    if calls != [] {
      NoneMine(calls[1..], cb);
    }
  }

  lemma {:induction false} CallsForAre(cb: Callback, topic: string, known: seq<Info>)
    ensures forall k :: 0 <= k < |CallsFor(cb, topic, known)| ==> CallsFor(cb, topic, known)[k].callback == cb
  {
    if known != [] {
      CallsForAre(cb, topic, known[1..]);
    }
  }

  lemma LeftHasNoEntry(who: Identity, events: seq<Event>, topic: string, x: Entry)
    requires OwnCallbacks(events) && Left(who, events) && x in Run(events).On(topic)
    ensures x.callback != who.callback
  {
    hide Run;
    EntriesStand(events, topic, x);
    var i: nat :| Stands(events, i, |events|, topic, x.registrant, x.callback);
    var j, p :| 0 <= j < p < |events|
      && events[j].Register? && events[j].callback == who.callback && events[j].registrant == who.gid
      && events[p] == Unregister(who.gid);
  }

  lemma LeftIsNotCalled(who: Identity, events: seq<Event>, e: Event)
    requires OwnCallbacks(events) && Left(who, events) && Proper(who, events, e)
    ensures Mine(Scheduled(Run(events), e), who.callback) == []
  {
    hide Run, Left, OwnCallbacks;
    var s := Run(events);
    match e
    case Unregister(_) =>
    case Register(topic, _, cb) =>
      LeftWasRegistered(who, events);
      CallsForAre(cb, topic, s.known);
      NoneMine(CallsFor(cb, topic, s.known), who.callback);
    case Notify(info) =>
      if !IsKnown(s.known, info.gid) {
        var entries := s.On(info.topic);
        forall k | 0 <= k < |entries|
          ensures entries[k].callback != who.callback
        {
          LeftHasNoEntry(who, events, info.topic, entries[k]);
        }
        NoneMine(CallsOf(entries, info), who.callback);
      }
  }

  lemma LeftWasRegistered(who: Identity, events: seq<Event>)
    requires Left(who, events)
    ensures exists i :: 0 <= i < |events| && events[i].Register? && events[i].callback == who.callback
  {
  }

  lemma LeftForGood(who: Identity, events: seq<Event>, e: Event)
    requires Left(who, events)
    ensures Left(who, events + [e])
  {
    var i, p :| 0 <= i < p < |events|
      && events[i].Register? && events[i].callback == who.callback && events[i].registrant == who.gid
      && events[p] == Unregister(who.gid);
    var more := events + [e];
    assert more[i] == events[i] && more[p] == events[p];
  }

  lemma LeftKeepsEvents(who: Identity, m: Machine, step: Step)
    requires Left(who, m.events)
    ensures Left(who, Next(who, m, step).events)
  {
    hide Left, Scheduled, Run, Discover, Mine;
    if step.Critical? && Proper(who, m.events, step.e) {
      LeftForGood(who, m.events, step.e);
    }
  }

  lemma FewerOf<T>(s: seq<T>, k: nat, x: T)
    requires k < |s|
    ensures multiset(RemoveAt(s, k))[x] <= multiset(s)[x]
  {
    assert s == s[..k] + [s[k]] + s[k + 1..];
  }

  lemma NoCallAdded(who: Identity, m: Machine, step: Step, info: Info)
    requires OwnCallbacks(m.events) && Left(who, m.events)
    ensures multiset(Next(who, m, step).flight)[info] <= multiset(m.flight)[info]
  {
    hide Left, OwnCallbacks, Scheduled, Run, Discover, Mine, RemoveAt, OnlyCpu;
    if step.Critical? && Proper(who, m.events, step.e) {
      LeftIsNotCalled(who, m.events, step.e);
      assert m.flight + [] == m.flight;
    }
    if step.Deliver? && step.k < |m.flight| {
      FewerOf(m.flight, step.k, info);
    }
  }

  /** Once unregistered, a publisher only ever sees calls that were already in flight. */
  lemma {:induction false} NoNewCalls(who: Identity, m: Machine, steps: seq<Step>, info: Info)
    requires OwnCallbacks(m.events) && Left(who, m.events)
    ensures multiset(Continue(who, m, steps).flight)[info] <= multiset(m.flight)[info]
    decreases |steps|
  {
    hide Left, OwnCallbacks, Next;
    if steps != [] {
      CallbacksStayOwn(who, m, steps[0]);
      LeftKeepsEvents(who, m, steps[0]);
      NoCallAdded(who, m, steps[0], info);
      NoNewCalls(who, Next(who, m, steps[0]), steps[1..], info);
    }
  }
}
