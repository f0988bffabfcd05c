/**
 A buffer-aware subscription's record of its publishers' metadata.
 */
module BufferSubscriptions {
  import opened EndpointRegistry

  /** Metadata is kept by GID, whose hexadecimal form is the key the program uses. */
  datatype Record = Record(alive: bool, metadata: map<Gid, map<string, string>>)

  const NEW_SUBSCRIPTION := Record(true, map[])
  const GONE := Record(false, map[])

  /** The discovery callback's critical section. */
  function DiscoverPublisher(s: Record, info: Info): Record
  {
    if !s.alive || info.gid in s.metadata then s
    else s.(metadata := s.metadata[info.gid := info.backends])
  }

  /** A row of calls, in whatever order they leave flight. */
  function Delivered(s: Record, infos: seq<Info>): Record
  {
    if infos == [] then s
    else DiscoverPublisher(Delivered(s, infos[..|infos| - 1]), infos[|infos| - 1])
  }

  /** Call `k` is the first for the GID. */
  ghost predicate First(infos: seq<Info>, k: nat, gid: Gid)
  {
    && k < |infos| && infos[k].gid == gid
    && forall j :: 0 <= j < k ==> infos[j].gid != gid
  }

  /** Exactly the publishers reported are on record, each with the metadata reported first. */
  lemma {:induction false} FirstReportStands(infos: seq<Info>, gid: Gid)
    ensures var m := Delivered(NEW_SUBSCRIPTION, infos).metadata;
      && (gid in m <==> exists k :: 0 <= k < |infos| && infos[k].gid == gid)
      && (gid in m ==> exists k: nat :: First(infos, k, gid) && m[gid] == infos[k].backends)
    ensures Delivered(NEW_SUBSCRIPTION, infos).alive
  {
    if infos != [] {
      var n := |infos| - 1;
      var before := Delivered(NEW_SUBSCRIPTION, infos[..n]);
      FirstReportStands(infos[..n], gid);
      if gid in before.metadata {
        var k: nat :| First(infos[..n], k, gid) && before.metadata[gid] == infos[k].backends;
        assert First(infos, k, gid);
      } else if infos[n].gid == gid {
        forall j | 0 <= j < n
          ensures infos[j].gid != gid
        {
          assert infos[..n][j] == infos[j];
        }
        assert First(infos, n, gid);
      }
    }
  }

  /** Once destroyed, whatever calls are still in flight leave the record empty. */
  lemma {:induction false} GoneStaysEmpty(infos: seq<Info>)
    ensures Delivered(GONE, infos) == GONE
  {
    if infos != [] {
      GoneStaysEmpty(infos[..|infos| - 1]);
    }
  }

  class BufferSubscription {
    var alive: bool
    var publisherMetadata: map<Gid, map<string, string>>
    var guardTriggered: bool

    ghost function Value(): Record
      reads this
    {
      Record(alive, publisherMetadata)
    }

    constructor ()
      ensures Value() == NEW_SUBSCRIPTION && !guardTriggered
    {
      alive, publisherMetadata, guardTriggered := true, map[], false;
    }

    /** A new publisher also wakes the waiting thread. */
    method OnPublisherDiscovered(info: Info)
      modifies this
      ensures Value() == DiscoverPublisher(old(Value()), info)
      ensures guardTriggered <==> old(guardTriggered) || Value() != old(Value())
    {
      if !alive {
        return;
      }
      if info.gid in publisherMetadata {
        return;
      }
      publisherMetadata := publisherMetadata[info.gid := info.backends];
      guardTriggered := true;
      assert info.gid !in old(publisherMetadata) && info.gid in publisherMetadata;
    }

    method Destroy()
      modifies this
      ensures Value() == GONE && guardTriggered == old(guardTriggered)
    {
      alive := false;
      publisherMetadata := map[];
    }
  }
}
