/**
 Correlating responses with requests: sequence numbers in two words (SequenceNumber_t of section
 9.3.2 of DDSI-RTPS 2.3), the identities that travel with the samples, and the network between.
 */
module RequestReply {

  // ---------------------------------------------------------------------------------------
  // Sequence numbers
  // ---------------------------------------------------------------------------------------

  const WORD := 0x1_0000_0000

  type Int64 = x: int | -0x8000_0000_0000_0000 <= x < 0x8000_0000_0000_0000
  type Int32 = x: int | -0x8000_0000 <= x < 0x8000_0000
  type Word32 = x: nat | x < 0x1_0000_0000

  datatype SequenceNumber = SequenceNumber(high: Int32, low: Word32)

  /** The bits of a signed number, read as an unsigned one. */
  function Bits64(v: Int64): (u: nat)
    ensures u < WORD * WORD
  {
    if v < 0 then v + WORD * WORD else v
  }

  /** The cast to int32_t keeps the bits. */
  function ToInt32(w: Word32): Int32
  {
    if w < 0x8000_0000 then w else w - WORD
  }

  /** Masks the upper and the lower half; the upper one is shifted as an unsigned number. */
  function Split(v: Int64): SequenceNumber
  {
    SequenceNumber(ToInt32(Bits64(v) / WORD), Bits64(v) % WORD)
  }

  /** The upper word shifted up, with the lower one in the bits that are free. */
  function Join(sn: SequenceNumber): Int64
  {
    sn.high * WORD + sn.low
  }

  lemma JoinSplit(v: Int64)
    ensures Join(Split(v)) == v
  {
    var u := Bits64(v);
    assert u == u / WORD * WORD + u % WORD;
  }

  /** The lower word has the 32 bits below, the upper word the rest with its sign. */
  lemma WordsOfNumber(v: Int64)
    ensures Split(v).high * 0x1_0000_0000 + Split(v).low == v
  {
    var u := Bits64(v);
    assert u == u / WORD * WORD + u % WORD;
  }

  lemma SplitJoin(sn: SequenceNumber)
    ensures Split(Join(sn)) == sn
  {
    var u := Bits64(Join(sn));
    var h := if sn.high < 0 then sn.high + WORD else sn.high;
    assert u == h * WORD + sn.low;
    QuotientAndRest(u, h, sn.low);
  }

  lemma QuotientAndRest(u: nat, h: nat, low: nat)
    requires u == h * WORD + low && low < WORD
    ensures u / WORD == h && u % WORD == low
  {
  }

  // ---------------------------------------------------------------------------------------
  // The four calls
  // ---------------------------------------------------------------------------------------

  type Guid = nat

  const UNKNOWN: Guid := 0

  datatype Identity = Identity(guid: Guid, sn: SequenceNumber)

  /** What travels with a request; `related` is the response reader, or unknown. */
  datatype Request = Request(identity: Identity, related: Guid)

  /** The rmw_request_id_t a service sees. */
  datatype Header = Header(guid: Guid, sequenceNumber: Int64)

  function HeaderOf(r: Request): Header
  {
    Header(if r.related != UNKNOWN then r.related else r.identity.guid, Join(r.identity.sn))
  }

  /** The related identity of the response. */
  function ResponseTo(h: Header): Identity
  {
    Identity(h.guid, Split(h.sequenceNumber))
  }

  /** A client reads only the responses that name one of its two endpoints. */
  predicate Names(related: Identity, readerGuid: Guid, writerGuid: Guid)
  {
    related.guid == readerGuid || related.guid == writerGuid
  }

  /**
   The four calls in a row, for every 64-bit number: what is sent for the header of a request
   names an endpoint of its client, and joins to the number the client's call returned.
   */
  lemma CallsCorrelate(readerGuid: Guid, writerGuid: Guid, sequenceId: Int64, related: Guid)
    requires related == readerGuid || related == UNKNOWN
    ensures var request := Request(Identity(writerGuid, Split(sequenceId)), related);
      && HeaderOf(request).sequenceNumber == sequenceId
      && Names(ResponseTo(HeaderOf(request)), readerGuid, writerGuid)
      && Join(ResponseTo(HeaderOf(request)).sn) == sequenceId
  {
    JoinSplit(sequenceId);
  }

  class Client {
    const writerGuid: Guid
    const readerGuid: Guid
    var lastSequence: Int64

    constructor (writerGuid: Guid, readerGuid: Guid)
      ensures this.writerGuid == writerGuid && this.readerGuid == readerGuid && lastSequence == 0
    {
      this.writerGuid, this.readerGuid, this.lastSequence := writerGuid, readerGuid, 0;
    }

    /** The writer numbers its samples; the call returns the number it gave. */
    method SendRequest() returns (sequenceId: Int64, request: Request)
      requires 0 <= lastSequence < 0x7FFF_FFFF_FFFF_FFFF
      modifies this
      ensures lastSequence == old(lastSequence) + 1
      ensures request == Request(Identity(writerGuid, Split(lastSequence)), readerGuid)
      ensures sequenceId == lastSequence
    {
      lastSequence := lastSequence + 1;
      request := Request(Identity(writerGuid, Split(lastSequence)), readerGuid);
      sequenceId := Join(request.identity.sn);
      JoinSplit(lastSequence);
    }

    method TakeResponse(related: Identity) returns (taken: bool, sequenceNumber: Int64)
      ensures taken <==> Names(related, readerGuid, writerGuid)
      ensures forall header :: taken && related == ResponseTo(header) ==> sequenceNumber == header.sequenceNumber
    {
      taken, sequenceNumber := related.guid == readerGuid || related.guid == writerGuid, 0;
      if taken {
        sequenceNumber := Join(related.sn);
      }
      forall header | related == ResponseTo(header)
        ensures Join(related.sn) == header.sequenceNumber
      {
        JoinSplit(header.sequenceNumber);
      }
    }
  }

  /** Answering the header returns the request's own number. */
  method TakeRequest(request: Request) returns (header: Header)
    ensures header == HeaderOf(request)
    ensures ResponseTo(header).sn == request.identity.sn
  {
    SplitJoin(request.identity.sn);
    var identity := request.identity;
    if request.related != UNKNOWN {
      identity := identity.(guid := request.related);
    }
    header := Header(identity.guid, Join(identity.sn));
  }

  method SendResponse(header: Header) returns (related: Identity)
    ensures related == ResponseTo(header)
    ensures Join(related.sn) == header.sequenceNumber
  {
    JoinSplit(header.sequenceNumber);
    related := Identity(header.guid, Split(header.sequenceNumber));
  }

  // ---------------------------------------------------------------------------------------
  // The protocol
  // ---------------------------------------------------------------------------------------

  /** The GUIDs of the clients' two endpoints, and which clients name their reader. */
  datatype Clients = Clients(writer: nat -> Guid, reader: nat -> Guid, names: nat -> bool)

  ghost predicate DistinctGuids(net: Clients)
  {
    && (forall c, d :: net.writer(c) == net.writer(d) ==> c == d)
    && (forall c, d :: net.reader(c) == net.reader(d) ==> c == d)
    && (forall c, d :: net.writer(c) != net.reader(d))
    && (forall c :: net.reader(c) != UNKNOWN)
  }

  /** A request on the network, with the client that sent it and the id its call returned. */
  datatype Sent = Sent(client: nat, sequenceId: Int64, request: Request)

  /** A header some service took, and the request it took it from. */
  datatype Taken = Taken(request: nat, header: Header)

  /** A response on the network, and the header it was sent for. */
  datatype Answer = Answer(taken: nat, related: Identity)

  datatype Network = Network(counts: map<nat, Int64>, requests: seq<Sent>, headers: seq<Taken>, answers: seq<Answer>)

  /** Samples may be lost, repeated and reordered: any of them may be taken at any time. */
  datatype Step = Send(client: nat) | Serve(request: nat) | Reply(taken: nat)

  function Count(n: Network, c: nat): Int64
  {
    if c in n.counts then n.counts[c] else 0
  }

  function Next(net: Clients, n: Network, step: Step): Network
  {
    match step
    case Send(c) =>
      if !(0 <= Count(n, c) < 0x7FFF_FFFF_FFFF_FFFF) then n
      else
        var k := Count(n, c) + 1;
        var request := Request(Identity(net.writer(c), Split(k)), if net.names(c) then net.reader(c) else UNKNOWN);
        n.(counts := n.counts[c := k], requests := n.requests + [Sent(c, k, request)])
    case Serve(r) =>
      if r >= |n.requests| then n
      else n.(headers := n.headers + [Taken(r, HeaderOf(n.requests[r].request))])
    case Reply(t) =>
      if t >= |n.headers| then n
      else n.(answers := n.answers + [Answer(t, ResponseTo(n.headers[t].header))])
  }

  function RunOf(net: Clients, steps: seq<Step>): Network
  {
    if steps == [] then Network(map[], [], [], [])
    else Next(net, RunOf(net, steps[..|steps| - 1]), steps[|steps| - 1])
  }

  /** Whether a client takes a response with this related identity. */
  predicate Accepts(net: Clients, c: nat, related: Identity)
  {
    Names(related, net.reader(c), net.writer(c))
  }

  ghost predicate RequestsNamed(net: Clients, n: Network)
  {
    forall r :: 0 <= r < |n.requests| ==>
      var s := n.requests[r];
      && s.request.identity == Identity(net.writer(s.client), Split(s.sequenceId))
      && s.request.related == (if net.names(s.client) then net.reader(s.client) else UNKNOWN)
      && 0 < s.sequenceId <= Count(n, s.client)
  }

  ghost predicate HeadersCopied(n: Network)
  {
    && (forall t :: 0 <= t < |n.headers| ==>
          n.headers[t].request < |n.requests| && n.headers[t].header == HeaderOf(n.requests[n.headers[t].request].request))
    && (forall a :: 0 <= a < |n.answers| ==>
          n.answers[a].taken < |n.headers| && n.answers[a].related == ResponseTo(n.headers[n.answers[a].taken].header))
  }

  ghost predicate IdsRise(n: Network)
  {
    forall q, r :: 0 <= q < r < |n.requests| && n.requests[q].client == n.requests[r].client ==>
      n.requests[q].sequenceId < n.requests[r].sequenceId
  }

  lemma StepNamesRequests(net: Clients, n: Network, step: Step)
    requires RequestsNamed(net, n)
    ensures RequestsNamed(net, Next(net, n, step))
  {
    hide Split, HeaderOf, ResponseTo;
    var n' := Next(net, n, step);
    forall r | 0 <= r < |n.requests|
      ensures n'.requests[r] == n.requests[r]
    {
    }
  }

  lemma StepCopiesHeaders(net: Clients, n: Network, step: Step)
    requires HeadersCopied(n)
    ensures HeadersCopied(Next(net, n, step))
  {
    hide Split, HeaderOf, ResponseTo;
  }

  lemma StepRaisesIds(net: Clients, n: Network, step: Step)
    requires RequestsNamed(net, n) && IdsRise(n)
    ensures IdsRise(Next(net, n, step))
  {
    hide Split, HeaderOf, ResponseTo;
  }

  lemma {:induction false} NetworkKeeps(net: Clients, steps: seq<Step>)
    ensures var n := RunOf(net, steps);
      RequestsNamed(net, n) && HeadersCopied(n) && IdsRise(n)
  {
    if steps != [] {
      hide RequestsNamed, HeadersCopied, IdsRise, Next;
      var before, step := steps[..|steps| - 1], steps[|steps| - 1];
      NetworkKeeps(net, before);
      StepNamesRequests(net, RunOf(net, before), step);
      StepCopiesHeaders(net, RunOf(net, before), step);
      StepRaisesIds(net, RunOf(net, before), step);
    }
  }

  /** The request an answer was sent for. */
  function Origin(n: Network, a: nat): Sent
    requires a < |n.answers| && n.answers[a].taken < |n.headers|
    requires n.headers[n.answers[a].taken].request < |n.requests|
  {
    n.requests[n.headers[n.answers[a].taken].request]
  }

  /** The endpoint a client is known by: its response reader, if it names one. */
  ghost predicate Addressed(net: Clients, c: nat, guid: Guid)
  {
    guid == if net.names(c) then net.reader(c) else net.writer(c)
  }

  /**
   Over every run: the header a service takes carries the GUID of the client's response reader
   when its requests name one, and of its request writer otherwise, with the number its call
   returned; and the response that is sent for the header carries the same.
   */
  lemma HeadersNameTheClient(net: Clients, steps: seq<Step>)
    requires DistinctGuids(net)
    ensures var n := RunOf(net, steps);
      && (forall t :: 0 <= t < |n.headers| ==>
            && n.headers[t].request < |n.requests|
            && Addressed(net, n.requests[n.headers[t].request].client, n.headers[t].header.guid)
            && n.headers[t].header.sequenceNumber == n.requests[n.headers[t].request].sequenceId)
      && (forall a :: 0 <= a < |n.answers| ==>
            && n.answers[a].taken < |n.headers| && n.headers[n.answers[a].taken].request < |n.requests|
            && Addressed(net, Origin(n, a).client, n.answers[a].related.guid)
            && Join(n.answers[a].related.sn) == Origin(n, a).sequenceId)
  {
    var n := RunOf(net, steps);
    NetworkKeeps(net, steps);
    hide RunOf, Split, Join;
    forall t | 0 <= t < |n.headers|
      ensures n.headers[t].request < |n.requests|
      ensures n.headers[t].header.sequenceNumber == n.requests[n.headers[t].request].sequenceId
      ensures Addressed(net, n.requests[n.headers[t].request].client, n.headers[t].header.guid)
    {
      JoinSplit(n.requests[n.headers[t].request].sequenceId);
    }
    forall a | 0 <= a < |n.answers|
      ensures n.answers[a].taken < |n.headers| && n.headers[n.answers[a].taken].request < |n.requests|
      ensures Join(n.answers[a].related.sn) == Origin(n, a).sequenceId
      ensures Addressed(net, Origin(n, a).client, n.answers[a].related.guid)
    {
      JoinSplit(Origin(n, a).sequenceId);
    }
  }

  /**
   Over every run, with any number of clients and services: a client accepts a response exactly
   when the response was sent for a request of its own, and the sequence number it then reports
   is the one its call returned for that very request.
   */
  lemma ResponsesReachTheirRequests(net: Clients, steps: seq<Step>, c: nat, a: nat)
    requires DistinctGuids(net)
    requires a < |RunOf(net, steps).answers|
    ensures var n := RunOf(net, steps);
      && n.answers[a].taken < |n.headers| && n.headers[n.answers[a].taken].request < |n.requests|
      && (Accepts(net, c, n.answers[a].related) <==> Origin(n, a).client == c)
      && Join(n.answers[a].related.sn) == Origin(n, a).sequenceId
  {
    var n := RunOf(net, steps);
    NetworkKeeps(net, steps);
    hide RunOf;
    JoinSplit(Origin(n, a).sequenceId);
  }

  /** No client gets one id for two requests, so the number it is told names one request. */
  lemma IdsAreUnique(net: Clients, steps: seq<Step>, q: nat, r: nat)
    requires q < |RunOf(net, steps).requests| && r < |RunOf(net, steps).requests|
    requires var n := RunOf(net, steps);
      n.requests[q].client == n.requests[r].client && n.requests[q].sequenceId == n.requests[r].sequenceId
    ensures q == r
  {
    NetworkKeeps(net, steps);
  }
}
