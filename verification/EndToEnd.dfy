/** From a sender's buffer over the wire, through the load balancer, back into a receiver's buffer. */
module EndToEnd {
  import opened Bytes
  import opened Counting
  import opened Headers
  import opened Packetizer
  import opened PacketizerTheorems
  import opened Reassembler
  import opened ReassemblerTheorems
  import opened Completion

  // ------------------------------------------------------------------ Where the tiles are

  /** Where tile i of a tiling starts. */
  function Place(ts: seq<Tile>, i: nat): (x: nat)
    requires i <= |ts|
  {
    if i == 0 then 0 else Place(ts, i - 1) + |ts[i - 1].payload|
  }

  lemma {:induction false} PlaceRest(ts: seq<Tile>, i: nat)
    requires 1 <= i <= |ts|
    ensures Place(ts, i) == |ts[0].payload| + Place(ts[1..], i - 1)
    decreases i
  {
    if i > 1 {
      PlaceRest(ts, i - 1);
    }
  }

  lemma TilingRest(ts: seq<Tile>, off: nat, data: seq<byte>)
    requires Tiling(ts, off, data) && ts != []
    ensures ts[0].payload <= data && Tiling(ts[1..], off + |ts[0].payload|, data[|ts[0].payload|..])
  {
    assert data[|ts[0].payload|..] == Payloads(ts[1..]);
  }

  /** Every tile of a tiling is a stretch of the data, under its offset. */
  lemma {:induction false} TilingAt(ts: seq<Tile>, off: nat, data: seq<byte>, i: nat)
    requires Tiling(ts, off, data) && i < |ts|
    ensures ts[i].offset == Wrap32(off + Place(ts, i)) && Place(ts, i) + |ts[i].payload| <= |data|
    ensures ts[i].payload == data[Place(ts, i)..Place(ts, i) + |ts[i].payload|]
    decreases i
  {
    TilingRest(ts, off, data);
    if i > 0 {
      var n := |ts[0].payload|;
      TilingAt(ts[1..], off + n, data[n..], i - 1);
      PlaceRest(ts, i);
      SliceOfRest(data, n, Place(ts[1..], i - 1), |ts[i].payload|);
    }
  }

  lemma SliceOfRest(data: seq<byte>, n: nat, at: nat, len: nat)
    requires n + at + len <= |data|
    ensures data[n..][at..at + len] == data[n + at..n + at + len]
  {
  }

  lemma {:induction false} PlacesApart(ts: seq<Tile>, i: nat, j: nat)
    requires i < j <= |ts|
    ensures Place(ts, i) + |ts[i].payload| <= Place(ts, j)
    decreases j
  {
    if i < j - 1 {
      PlacesApart(ts, i, j - 1);
    }
  }

  /** Every byte is in some tile. */
  lemma {:induction false} TileHolding(ts: seq<Tile>, off: nat, data: seq<byte>, x: nat) returns (i: nat)
    requires Tiling(ts, off, data) && x < |data|
    ensures i < |ts| && Place(ts, i) <= x < Place(ts, i) + |ts[i].payload|
    decreases |ts|
  {
    TilingRest(ts, off, data);
    var n := |ts[0].payload|;
    if x < n {
      i := 0;
    } else {
      var j := TileHolding(ts[1..], off + n, data[n..], x - n);
      i := j + 1;
      PlaceRest(ts, i);
    }
  }

  // ------------------------------------------------------------------ What is delivered

  /** The datagrams, of those handed to the link, that it answered with success. */
  function Delivered(link: seq<LinkOutcome>, wire: seq<seq<byte>>): (ds: seq<seq<byte>>)
    requires |wire| <= |link|
    decreases |wire|
  {
    if wire == [] then []
    else
      var n := |wire| - 1;
      Delivered(link, wire[..n]) + if link[n] == Sent then [wire[n]] else []
  }

  function PacketsFor(f: Framing, ts: seq<Tile>): (ds: seq<seq<byte>>)
    ensures |ds| == |ts| && forall i :: 0 <= i < |ts| ==> ds[i] == Packet(f, ts[i].offset, ts[i].payload)
  {
    seq(|ts|, i requires 0 <= i < |ts| => Packet(f, ts[i].offset, ts[i].payload))
  }

  lemma {:induction false} DeliveredPackets(
    f: Framing, attempts: seq<Attempt>, link: seq<LinkOutcome>, wire: seq<seq<byte>>
  )
    requires OnWire(f, attempts, wire) && |attempts| <= |link|
    ensures Delivered(link, wire) == PacketsFor(f, SentOf(attempts, link))
    decreases |wire|
  {
    if wire != [] {
      var n := |wire| - 1;
      DeliveredPackets(f, attempts[..n], link, wire[..n]);
    }
  }

  /** The wires are those of the calls of a series. */
  ghost predicate SeriesOnWire(f: Framing, calls: seq<Call>, wires: seq<seq<seq<byte>>>, off: u32)
    decreases |calls|
  {
    |wires| == |calls| && (calls != [] ==>
      && OnWire(f, Outcome(calls[0], off).attempts, wires[0])
      && SeriesOnWire(f, calls[1..], wires[1..], Outcome(calls[0], off).off))
  }

  function DeliveredBy(f: Framing, calls: seq<Call>, wires: seq<seq<seq<byte>>>, off: u32): (ds: seq<seq<byte>>)
    requires SeriesOnWire(f, calls, wires, off)
    decreases |calls|
  {
    if calls == [] then []
    else
      var c, s := calls[0], Outcome(calls[0], off);
      AttemptsAreAnswered(c.data, off, c.p, c.first, c.retryEmpty, c.link);
      Delivered(c.link, wires[0]) + DeliveredBy(f, calls[1..], wires[1..], s.off)
  }

  lemma PacketsConcat(f: Framing, a: seq<Tile>, b: seq<Tile>)
    ensures PacketsFor(f, a + b) == PacketsFor(f, a) + PacketsFor(f, b)
  {
  }

  lemma CallDelivers(f: Framing, c: Call, off: u32, wire: seq<seq<byte>>)
    requires OnWire(f, Outcome(c, off).attempts, wire)
    ensures |wire| <= |c.link| && Delivered(c.link, wire) == PacketsFor(f, Outcome(c, off).accepted)
  {
    AcceptedAreSent(c.data, off, c.p, c.first, c.retryEmpty, c.link);
    DeliveredPackets(f, Outcome(c, off).attempts, c.link, wire);
  }

  /** What a series delivers are the packets of what its calls count as sent. */
  lemma {:induction false} SeriesDelivers(f: Framing, calls: seq<Call>, wires: seq<seq<seq<byte>>>, off: u32)
    requires SeriesOnWire(f, calls, wires, off)
    ensures DeliveredBy(f, calls, wires, off) == PacketsFor(f, SentBy(calls, off))
    decreases |calls|
  {
    if calls != [] {
      var s := Outcome(calls[0], off);
      CallDelivers(f, calls[0], off, wires[0]);
      SeriesDelivers(f, calls[1..], wires[1..], s.off);
      PacketsConcat(f, s.accepted, SentBy(calls[1..], s.off));
    }
  }

  lemma {:induction false} PayloadShrinks(s0: SendState, retryEmpty: bool, link: seq<LinkOutcome>)
    ensures Transmit(s0, retryEmpty, link).p <= s0.p
    decreases |link|
  {
    if link != [] {
      PayloadShrinks(s0, retryEmpty, link[..|link| - 1]);
    }
  }

  /** No packet of the call is empty, or longer than the payload size asked for. */
  lemma CallSizes(c: Call, off: u32, i: nat)
    requires c.data != [] && Outcome(c, off).Status() == Ok && i < |Outcome(c, off).accepted|
    ensures 0 < |Outcome(c, off).accepted[i].payload| <= c.p
  {
    FoldSendsTiles(c.data, off, c.p, c.first, c.retryEmpty, c.link);
    TileSizes(off, c.data, Outcome(c, off).p, i);
    PayloadShrinks(Start(c.data, off, c.p, c.first), c.retryEmpty, c.link);
  }

  ghost predicate NoneEmpty(calls: seq<Call>)
  {
    forall c :: c in calls ==> c.data != []
  }

  ghost predicate PayloadAtMost(calls: seq<Call>, p: nat)
  {
    forall c :: c in calls ==> c.p <= p
  }

  lemma {:induction false} SeriesSizes(calls: seq<Call>, off: u32, p: nat, i: nat)
    requires AllSucceed(calls, off) && NoneEmpty(calls) && i < |SentBy(calls, off)|
    ensures SentBy(calls, off)[i].payload != []
    ensures PayloadAtMost(calls, p) ==> |SentBy(calls, off)[i].payload| <= p
    decreases |calls|
  {
    var s := Outcome(calls[0], off);
    assert calls[0] in calls && forall c :: c in calls[1..] ==> c in calls;
    if i < |s.accepted| {
      CallSizes(calls[0], off, i);
    } else {
      SeriesSizes(calls[1..], s.off, p, i - |s.accepted|);
    }
  }

  // ------------------------------------------------------------------ What arrives

  /** The load balancer consumes its own header and forwards the rest. */
  function Forward(datagram: seq<byte>): (r: Recv)
    requires |datagram| >= LB_HEADER_BYTES
  {
    Datagram(datagram[LB_HEADER_BYTES..])
  }

  /** What the receiver sees of a packet. */
  function Seen(f: Framing, t: Tile): (a: Arrival)
  {
    Got(ReHeader(f.version % 16, f.dataId, t.offset, f.fullLen, f.tick), t.payload)
  }

  lemma ForwardPacket(f: Framing, t: Tile)
    requires !f.direct
    ensures |Packet(f, t.offset, t.payload)| >= LB_HEADER_BYTES
    ensures Receive(Forward(Packet(f, t.offset, t.payload))) == Seen(f, t)
  {
    var re := SetReMetadata(ReHeader(f.version, f.dataId, t.offset, f.fullLen, f.tick), f.reserved);
    ParseSetRe(ReHeader(f.version, f.dataId, t.offset, f.fullLen, f.tick), f.reserved, t.payload);
    var rest := Packet(f, t.offset, t.payload)[LB_HEADER_BYTES..];
    assert rest == re + t.payload;
    assert rest[RE_HEADER_BYTES..] == t.payload;
  }

  /** A rearrangement of n things. */
  ghost predicate Permutation(perm: seq<nat>, n: nat)
  {
    && |perm| == n
    && (forall i :: 0 <= i < n ==> perm[i] < n)
    && (forall i, j :: 0 <= i < j < n ==> perm[i] != perm[j])
  }

  function Elements(perm: seq<nat>): (s: set<nat>)
    ensures forall x :: x in s <==> x in perm
  {
    set x | x in perm
  }

  lemma {:induction false} DistinctSize(perm: seq<nat>)
    requires forall i, j :: 0 <= i < j < |perm| ==> perm[i] != perm[j]
    ensures |Elements(perm)| == |perm|
  {
    if perm != [] {
      var n := |perm| - 1;
      DistinctSize(perm[..n]);
      assert perm == perm[..n] + [perm[n]];
      assert Elements(perm) == Elements(perm[..n]) + {perm[n]};
    }
  }

  lemma PermutationOnto(perm: seq<nat>, n: nat, x: nat) returns (i: nat)
    requires Permutation(perm, n) && x < n
    ensures i < n && perm[i] == x
  {
    DistinctSize(perm);
    Pigeonhole(Elements(perm), n);
    assert x in UpTo(n);
    i :| 0 <= i < n && perm[i] == x;
  }

  /** The tiles as they arrive. */
  function Arriving(f: Framing, ts: seq<Tile>, perm: seq<nat>): (net: seq<Arrival>)
    requires Permutation(perm, |ts|)
    ensures |net| == |ts| && AllGot(net)
  {
    seq(|perm|, i requires 0 <= i < |perm| => Seen(f, ts[perm[i]]))
  }

  /** A whole buffer on its way: what tiles it, none of it empty. */
  ghost predicate Parcel(f: Framing, ts: seq<Tile>, data: seq<byte>)
  {
    Tiling(ts, 0, data) && data != [] && f.fullLen == |data| && forall i :: 0 <= i < |ts| ==> ts[i].payload != []
  }

  lemma ParcelAt(f: Framing, ts: seq<Tile>, data: seq<byte>, i: nat)
    requires Parcel(f, ts, data) && i < |ts|
    ensures ts[i].payload != [] && ts[i].offset == Place(ts, i) && Place(ts, i) + |ts[i].payload| <= |data|
    ensures ts[i].payload == data[ts[i].offset..ts[i].offset + |ts[i].payload|]
  {
    TilingAt(ts, 0, data, i);
  }

  lemma NoByteTwice(f: Framing, ts: seq<Tile>, data: seq<byte>, i: nat, j: nat, key: Key, x: nat)
    requires Parcel(f, ts, data) && i < |ts| && j < |ts| && i != j && Carries(Seen(f, ts[i]), key, x)
    ensures !Carries(Seen(f, ts[j]), key, x)
  {
    ParcelAt(f, ts, data, i);
    ParcelAt(f, ts, data, j);
    if i < j {
      PlacesApart(ts, i, j);
    } else {
      PlacesApart(ts, j, i);
    }
  }

  lemma ArrivingGenuine(f: Framing, ts: seq<Tile>, data: seq<byte>, perm: seq<nat>)
    requires Parcel(f, ts, data) && Permutation(perm, |ts|)
    ensures var key := Key(f.tick, f.dataId); OneBuffer(map[key := data], Arriving(f, ts, perm), key)
  {
    var net, key := Arriving(f, ts, perm), Key(f.tick, f.dataId);
    var world: World := map[key := data];
    forall i | 0 <= i < |net|
      ensures Genuine(world, net[i]) && net[i].Got? && KeyOf(net[i]) == key && net[i].payload != []
    {
      ParcelAt(f, ts, data, perm[i]);
    }
    forall i, j, k, x | 0 <= i < j < |net| && Carries(net[i], k, x) ensures !Carries(net[j], k, x) {
      NoByteTwice(f, ts, data, perm[i], perm[j], k, x);
    }
    assert ts != [];
  }

  lemma ArrivingWhole(f: Framing, ts: seq<Tile>, data: seq<byte>, perm: seq<nat>)
    requires Parcel(f, ts, data) && Permutation(perm, |ts|)
    ensures var key := Key(f.tick, f.dataId); AllArrive(map[key := data], Arriving(f, ts, perm), key)
  {
    var net, key := Arriving(f, ts, perm), Key(f.tick, f.dataId);
    forall x | 0 <= x < |data| ensures Arrived(net, |net|, key, x) {
      var t := TileHolding(ts, 0, data, x);
      ParcelAt(f, ts, data, t);
      var i := PermutationOnto(perm, |ts|, t);
      assert Carries(net[i], key, x);
    }
  }

  // ------------------------------------------------------------------ Room

  ghost predicate InOrderOf(perm: seq<nat>)
  {
    forall i :: 0 <= i < |perm| ==> perm[i] == i
  }

  /**
   Enough memory: as much as the buffer in any order; half of it, and leave to double it, in any order; or in
   order, with payloads of at most a jumbo packet, room for one of these to start with and leave to grow.
   */
  ghost predicate Enough(policy: Policy, n: nat, length: nat, jumbo: bool, perm: seq<nat>)
  {
    || length <= n
    || (policy.Growing? && length <= 2 * n <= policy.limit)
    || (policy.Growing? && InOrderOf(perm) && jumbo && n >= MAX_EJFAT_MTU && 2 * length <= policy.limit)
  }

  lemma ArrivingRoomy(f: Framing, ts: seq<Tile>, data: seq<byte>, perm: seq<nat>, policy: Policy, n: nat, jumbo: bool)
    requires Parcel(f, ts, data) && Permutation(perm, |ts|) && Enough(policy, n, |data|, jumbo, perm)
    requires jumbo ==> forall i :: 0 <= i < |ts| ==> |ts[i].payload| <= MAX_EJFAT_MTU
    ensures Roomy(policy, n, Arriving(f, ts, perm))
  {
    var net := Arriving(f, ts, perm);
    forall i | 0 <= i < |net| ensures EndOf(net[i]) <= |data| {
      ParcelAt(f, ts, data, perm[i]);
    }
    if |data| <= n || (policy.Growing? && |data| <= 2 * n <= policy.limit) {
      AnyOrderRoomy(policy, n, net, |data|);
    } else {
      InOrderArrives(f, ts, data, perm);
      InOrderRoomy(policy, n, net, |data|);
    }
  }

  lemma InOrderArrives(f: Framing, ts: seq<Tile>, data: seq<byte>, perm: seq<nat>)
    requires Parcel(f, ts, data) && Permutation(perm, |ts|) && InOrderOf(perm)
    requires forall i :: 0 <= i < |ts| ==> |ts[i].payload| <= MAX_EJFAT_MTU
    ensures Consecutive(Arriving(f, ts, perm)) && Jumbo(Arriving(f, ts, perm))
  {
    var net := Arriving(f, ts, perm);
    forall i | 0 <= i < |net| ensures net[i].h.offset == Place(ts, i) && 0 < |net[i].payload| <= MAX_EJFAT_MTU {
      ParcelAt(f, ts, data, i);
    }
  }

  // ------------------------------------------------------------------ The round trip

  /** Datagrams forwarded in the order `perm`. */
  function Network(wire: seq<seq<byte>>, perm: seq<nat>): (net: seq<Recv>)
    requires forall i :: 0 <= i < |wire| ==> |wire[i]| >= LB_HEADER_BYTES
    requires Permutation(perm, |wire|)
  {
    seq(|perm|, i requires 0 <= i < |perm| => Forward(wire[perm[i]]))
  }

  lemma NetworkArrives(f: Framing, ts: seq<Tile>, wire: seq<seq<byte>>, perm: seq<nat>)
    requires !f.direct && wire == PacketsFor(f, ts) && Permutation(perm, |ts|)
    ensures forall i :: 0 <= i < |wire| ==> |wire[i]| >= LB_HEADER_BYTES
    ensures ReceiveAll(Network(wire, perm)) == Arriving(f, ts, perm)
  {
    forall i | 0 <= i < |wire| ensures |wire[i]| >= LB_HEADER_BYTES && Receive(Forward(wire[i])) == Seen(f, ts[i]) {
      ForwardPacket(f, ts[i]);
    }
  }

  /** What a successful series of calls sends of a whole buffer. */
  lemma SeriesParcel(f: Framing, calls: seq<Call>, p: nat)
    requires AllSucceed(calls, 0) && calls != [] && NoneEmpty(calls) && f.fullLen == |Whole(calls)|
    ensures Parcel(f, SentBy(calls, 0), Whole(calls))
    ensures PayloadAtMost(calls, p) ==> forall i :: 0 <= i < |SentBy(calls, 0)| ==> |SentBy(calls, 0)[i].payload| <= p
  {
    var ts := SentBy(calls, 0);
    SeriesTilesBuffer(calls, 0);
    assert calls[0] in calls;
    forall i | 0 <= i < |ts| ensures ts[i].payload != [] && (PayloadAtMost(calls, p) ==> |ts[i].payload| <= p) {
      SeriesSizes(calls, 0, p, i);
    }
  }

  /** A parcel that arrives, its first tile in front, with enough memory. */
  lemma ParcelCompletes(
    f: Framing, ts: seq<Tile>, data: seq<byte>, perm: seq<nat>, policy: Policy, buf: seq<byte>, jumbo: bool
  )
    requires Parcel(f, ts, data) && Permutation(perm, |ts|) && Enough(policy, |buf|, |data|, jumbo, perm)
    requires jumbo ==> forall i :: 0 <= i < |ts| ==> |ts[i].payload| <= MAX_EJFAT_MTU
    requires perm != [] ==> perm[0] == 0 || f.tick == INITIAL_PREV_TICK
    ensures var net := Arriving(f, ts, perm);
      && (forall k :: 0 <= k < |net| ==> Run(policy, Init(buf), net[..k]).result == Waiting)
      && var r := Run(policy, Init(buf), net);
         r.result == Complete(|data|, f.tick, f.dataId) && |data| <= |r.buf| && r.buf[..|data|] == data
  {
    var key := Key(f.tick, f.dataId);
    ArrivingGenuine(f, ts, data, perm);
    ArrivingWhole(f, ts, data, perm);
    ArrivingRoomy(f, ts, data, perm, policy, |buf|, jumbo);
    ParcelAt(f, ts, data, perm[0]);
    CompleteWithTheLastPacket(map[key := data], Arriving(f, ts, perm), key, policy, buf);
  }

  /**
   Round trip: a buffer that either sender sent successfully, in one call or in pieces, over any links. Of the
   datagrams handed to the links those that were accepted are forwarded in any order that keeps the first in
   front (or any order at all, for the tick that prevTick starts with). With enough memory, the buffer comes
   out of either receiver with its length, tick, source and bytes, and no proper part of the datagrams is enough.
   */
  lemma RoundTrip(
    f: Framing, calls: seq<Call>, wires: seq<seq<seq<byte>>>, perm: seq<nat>, policy: Policy, buf: seq<byte>
  )
    requires !f.direct && calls != [] && NoneEmpty(calls) && AllSucceed(calls, 0) && f.fullLen == |Whole(calls)|
    requires SeriesOnWire(f, calls, wires, 0) && Permutation(perm, |DeliveredBy(f, calls, wires, 0)|)
    requires perm != [] ==> perm[0] == 0 || f.tick == INITIAL_PREV_TICK
    requires Enough(policy, |buf|, |Whole(calls)|, PayloadAtMost(calls, MAX_EJFAT_MTU), perm)
    ensures var wire, data := DeliveredBy(f, calls, wires, 0), Whole(calls);
      && (forall i :: 0 <= i < |wire| ==> |wire[i]| >= LB_HEADER_BYTES)
      && var net := ReceiveAll(Network(wire, perm));
         && (forall k :: 0 <= k < |net| ==> Run(policy, Init(buf), net[..k]).result == Waiting)
         && var r := Run(policy, Init(buf), net);
            r.result == Complete(|data|, f.tick, f.dataId) && |data| <= |r.buf| && r.buf[..|data|] == data
  {
    var ts := SentBy(calls, 0);
    SeriesDelivers(f, calls, wires, 0);
    SeriesParcel(f, calls, MAX_EJFAT_MTU);
    NetworkArrives(f, ts, DeliveredBy(f, calls, wires, 0), perm);
    ParcelCompletes(f, ts, Whole(calls), perm, policy, buf, PayloadAtMost(calls, MAX_EJFAT_MTU));
  }
}
