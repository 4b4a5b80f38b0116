/** When the receivers complete a buffer, all of whose packets arrive and no others. */
module Completion {
  import opened Bytes
  import opened Counting
  import opened Headers
  import opened Reassembler
  import opened ReassemblerTheorems

  /** The packets of one buffer, none empty. */
  ghost predicate OneBuffer(world: World, net: seq<Arrival>, key: Key)
  {
    && AllGenuine(world, net) && DuplicateFree(net) && net != []
    && forall i :: 0 <= i < |net| ==> net[i].Got? && KeyOf(net[i]) == key && net[i].payload != []
  }

  ghost predicate AllArrive(world: World, net: seq<Arrival>, key: Key)
  {
    key in world && forall x :: 0 <= x < |world[key]| ==> Arrived(net, |net|, key, x)
  }

  // ------------------------------------------------------------------ The first packet

  /** A packet that a receiver stores first: it starts its buffer, or its tick is the one prevTick starts with. */
  predicate Starts(h: ReHeader)
  {
    h.offset == 0 || h.tick == INITIAL_PREV_TICK
  }

  /** What a new receiver does with the first packet it gets. */
  lemma FirstPacketStored(buf: seq<byte>, h: ReHeader)
    ensures Decide(Init(buf).c, h) ==
      if Starts(h) then Accept(Control(h.tick, false, false, h.dataId, 0))
      else Skip(Control(h.tick, true, true, h.dataId, 0))
  {
  }

  /** Once the first packet is not stored, none of its tick is. */
  lemma {:induction false} NeverStarted(
    world: World, net: seq<Arrival>, k: nat, key: Key, policy: Policy, buf: seq<byte>
  )
    requires OneBuffer(world, net, key) && !Starts(net[0].h) && 0 < k <= |net|
    ensures Run(policy, Init(buf), net[..k]) == State(Control(key.tick, true, true, key.dataId, 0), buf, Waiting)
    decreases k
  {
    RunNext(policy, Init(buf), net, k - 1);
    if k > 1 {
      NeverStarted(world, net, k - 1, key, policy, buf);
      assert KeyOf(net[k - 1]) == key;
    } else {
      FirstPacketStored(buf, net[0].h);
    }
  }

  // ------------------------------------------------------------------ Room

  predicate AllGot(net: seq<Arrival>)
  {
    forall i :: 0 <= i < |net| ==> net[i].Got?
  }

  /** The memory before packet k, if it was doubled whenever a packet needed that. */
  function SizeAt(n: nat, net: seq<Arrival>, k: nat): (m: nat)
    requires k <= |net| && AllGot(net)
    ensures m >= n
  {
    if k == 0 then n
    else
      var m := SizeAt(n, net, k - 1);
      if EndOf(net[k - 1]) <= m then m else 2 * m
  }

  /** Memory of n bytes has room up to `need`, at once or after a doubling. */
  predicate HasRoom(policy: Policy, n: nat, need: nat)
  {
    need <= n || (policy.Growing? && need <= 2 * n <= policy.limit)
  }

  /** Packet k fits. */
  predicate RoomAt(policy: Policy, n: nat, net: seq<Arrival>, k: nat)
    requires k < |net| && AllGot(net)
  {
    HasRoom(policy, SizeAt(n, net, k), EndOf(net[k]))
  }

  predicate Roomy(policy: Policy, n: nat, net: seq<Arrival>)
    requires AllGot(net)
  {
    forall k :: 0 <= k < |net| ==> RoomAt(policy, n, net, k)
  }

  /** Memory as long as the buffer, or half as long and free to double, is enough in any order. */
  lemma {:induction false} AnyOrderRoomAt(policy: Policy, n: nat, net: seq<Arrival>, k: nat, length: nat)
    requires AllGot(net) && k <= |net| && forall i :: 0 <= i < |net| ==> EndOf(net[i]) <= length
    requires length <= n || (policy.Growing? && length <= 2 * n <= policy.limit)
    ensures SizeAt(n, net, k) in {n, 2 * n} && (SizeAt(n, net, k) == 2 * n ==> n < length || n == 0)
    ensures k < |net| ==> RoomAt(policy, n, net, k)
    decreases k
  {
    if k > 0 {
      AnyOrderRoomAt(policy, n, net, k - 1, length);
    }
  }

  lemma AnyOrderRoomy(policy: Policy, n: nat, net: seq<Arrival>, length: nat)
    requires AllGot(net) && forall i :: 0 <= i < |net| ==> EndOf(net[i]) <= length
    requires length <= n || (policy.Growing? && length <= 2 * n <= policy.limit)
    ensures Roomy(policy, n, net)
  {
    forall k | 0 <= k < |net| ensures RoomAt(policy, n, net, k) {
      AnyOrderRoomAt(policy, n, net, k, length);
    }
  }

  /** Each packet starts where the one before it ended. */
  ghost predicate Consecutive(net: seq<Arrival>)
    requires AllGot(net)
  {
    && (net != [] ==> net[0].h.offset == 0)
    && forall i :: 0 < i < |net| ==> net[i].h.offset == EndOf(net[i - 1])
  }

  /** In order, starting with room for a jumbo packet, doubling is enough as long as memory lasts. */
  lemma {:induction false} InOrderRoomAt(policy: Policy, n: nat, net: seq<Arrival>, k: nat, length: nat)
    requires AllGot(net) && Consecutive(net) && Jumbo(net) && k <= |net|
    requires forall i :: 0 <= i < |net| ==> EndOf(net[i]) <= length
    requires policy.Growing? && n >= MAX_EJFAT_MTU && 2 * length <= policy.limit
    ensures k > 0 ==> EndOf(net[k - 1]) <= SizeAt(n, net, k)
    ensures k < |net| ==> RoomAt(policy, n, net, k)
    decreases k
  {
    if k > 0 {
      InOrderRoomAt(policy, n, net, k - 1, length);
    }
    if k < |net| {
      assert |net[k].payload| <= MAX_EJFAT_MTU;
      assert EndOf(net[k]) <= length;
    }
  }

  lemma InOrderRoomy(policy: Policy, n: nat, net: seq<Arrival>, length: nat)
    requires AllGot(net) && Consecutive(net) && Jumbo(net) && forall i :: 0 <= i < |net| ==> EndOf(net[i]) <= length
    requires policy.Growing? && n >= MAX_EJFAT_MTU && 2 * length <= policy.limit
    ensures Roomy(policy, n, net)
  {
    forall k | 0 <= k < |net| ensures RoomAt(policy, n, net, k) {
      InOrderRoomAt(policy, n, net, k, length);
    }
  }

  // ------------------------------------------------------------------ Gathering the packets

  ghost predicate CoversArrived(net: seq<Arrival>, k: nat, key: Key, covered: set<nat>)
    requires k <= |net|
  {
    forall x :: Arrived(net, k, key, x) ==> x in covered
  }

  /** All k packets so far have been stored, and the buffer is reported once they are all. */
  ghost predicate Gathered(world: World, net: seq<Arrival>, k: nat, key: Key, s: State, covered: set<nat>)
  {
    && !s.c.veryFirst && !s.c.dumpTick && Current(s.c) == key
    && Holding(world, net, k, key, s.c.total, s.buf, covered) && CoversArrived(net, k, key, covered)
    && s.result == if s.c.total >= |world[key]| then Complete(s.c.total, key.tick, key.dataId) else Waiting
  }

  lemma CoversNext(net: seq<Arrival>, k: nat, key: Key, covered: set<nat>)
    requires k < |net| && net[k].Got? && KeyOf(net[k]) == key && CoversArrived(net, k, key, covered)
    ensures CoversArrived(net, k + 1, key, Extend(covered, net[k].h.offset, |net[k].payload|))
  {
    forall x | Arrived(net, k + 1, key, x) ensures x in Extend(covered, net[k].h.offset, |net[k].payload|) {
      var i :| 0 <= i < k + 1 && Carries(net[i], key, x);
      if i < k {
        assert Arrived(net, k, key, x);
      }
    }
  }

  /** The memory after a packet that fits. */
  lemma RoomSize(policy: Policy, buf: seq<byte>, need: nat)
    ensures MakeRoom(policy, buf, need).Fits? <==> HasRoom(policy, |buf|, need)
    ensures MakeRoom(policy, buf, need).Fits? ==>
      |MakeRoom(policy, buf, need).buf| == if need <= |buf| then |buf| else 2 * |buf|
  {
  }

  /** A state with the bytes of all k packets, reported as their count demands, has gathered them. */
  lemma GatheredBy(world: World, net: seq<Arrival>, k: nat, key: Key, s: State, covered: set<nat>)
    requires k <= |net| && Holding(world, net, k, key, s.c.total, s.buf, covered) && CoversArrived(net, k, key, covered)
    requires !s.c.veryFirst && !s.c.dumpTick && Current(s.c) == key
    requires s.result == if s.c.total >= |world[key]| then Complete(s.c.total, key.tick, key.dataId) else Waiting
    ensures Gathered(world, net, k, key, s, covered)
  {
  }

  lemma GatherStore(world: World, net: seq<Arrival>, k: nat, key: Key, policy: Policy, c: Control, buf: seq<byte>,
                    covered: set<nat>) returns (covered': set<nat>)
    requires OneBuffer(world, net, key) && k < |net| && MakeRoom(policy, buf, EndOf(net[k])).Fits?
    requires !c.veryFirst && !c.dumpTick && Current(c) == key
    requires Holding(world, net, k, key, c.total, buf, covered) && CoversArrived(net, k, key, covered)
    ensures var s := Store(policy, c, buf, net[k].h, net[k].payload);
      |s.buf| == |MakeRoom(policy, buf, EndOf(net[k])).buf| && Gathered(world, net, k + 1, key, s, covered')
  {
    assert Genuine(world, net[k]) && net[k].Got? && KeyOf(net[k]) == key;
    var room, s := MakeRoom(policy, buf, EndOf(net[k])), Store(policy, c, buf, net[k].h, net[k].payload);
    covered' := HoldingStore(world, net, k, c.total, buf, room.buf, covered);
    CoversNext(net, k, key, covered);
    GatheredBy(world, net, k + 1, key, s, covered');
  }

  /** A further packet is still to come, so not every byte is there. */
  lemma StillMissing(world: World, net: seq<Arrival>, k: nat, key: Key, total: nat, buf: seq<byte>, covered: set<nat>)
    requires OneBuffer(world, net, key) && k < |net|
    requires Holding(world, net, k, key, total, buf, covered)
    ensures total < |world[key]|
  {
    assert Genuine(world, net[k]);
    var x := net[k].h.offset;
    assert Carries(net[k], key, x);
    assert x !in covered;
    Pigeonhole(covered, |world[key]|);
    assert x in UpTo(|world[key]|);
  }

  lemma NothingMissing(world: World, net: seq<Arrival>, key: Key, total: nat, buf: seq<byte>, covered: set<nat>)
    requires Holding(world, net, |net|, key, total, buf, covered) && CoversArrived(net, |net|, key, covered)
    requires AllArrive(world, net, key)
    ensures total >= |world[key]|
  {
    assert UpTo(|world[key]|) <= covered;
    SubsetSize(UpTo(|world[key]|), covered);
  }

  /** A receiver that waits, and would store such a packet as the first of its buffer. */
  ghost predicate Ready(s0: State, h: ReHeader)
  {
    s0.result == Waiting && Decide(s0.c, h) == Accept(Control(h.tick, false, false, h.dataId, 0))
  }

  lemma GatherFirst(world: World, net: seq<Arrival>, key: Key, policy: Policy, s0: State) returns (covered: set<nat>)
    requires OneBuffer(world, net, key) && Ready(s0, net[0].h) && MakeRoom(policy, s0.buf, EndOf(net[0])).Fits?
    ensures var s := Step(policy, s0, net[0]);
      |s.buf| == |MakeRoom(policy, s0.buf, EndOf(net[0])).buf| && Gathered(world, net, 1, key, s, covered)
  {
    assert Genuine(world, net[0]);
    HoldingNothing(world, net, 0, key, s0.buf);
    covered := GatherStore(world, net, 0, key, policy, Control(key.tick, false, false, key.dataId, 0), s0.buf, {});
  }

  /** A later packet finds the receiver waiting for it, and willing. */
  lemma Willing(world: World, net: seq<Arrival>, k: nat, key: Key, s: State, covered: set<nat>)
    requires OneBuffer(world, net, key) && k < |net| && Gathered(world, net, k, key, s, covered)
    ensures s.result == Waiting && Decide(s.c, net[k].h) == Accept(s.c)
  {
    StillMissing(world, net, k, key, s.c.total, s.buf, covered);
    assert KeyOf(net[k]) == key;
  }

  lemma GatherNext(world: World, net: seq<Arrival>, k: nat, key: Key, policy: Policy, s: State, before: set<nat>)
    returns (covered: set<nat>)
    requires OneBuffer(world, net, key) && k < |net| && Gathered(world, net, k, key, s, before)
    requires MakeRoom(policy, s.buf, EndOf(net[k])).Fits?
    ensures var s' := Step(policy, s, net[k]);
      |s'.buf| == |MakeRoom(policy, s.buf, EndOf(net[k])).buf| && Gathered(world, net, k + 1, key, s', covered)
  {
    Willing(world, net, k, key, s, before);
    covered := GatherStore(world, net, k, key, policy, s.c, s.buf, before);
  }

  lemma {:induction false} GatherRun(world: World, net: seq<Arrival>, k: nat, key: Key, policy: Policy, s0: State)
    returns (covered: set<nat>)
    requires OneBuffer(world, net, key) && Ready(s0, net[0].h) && 0 < k <= |net|
    requires forall j :: 0 <= j < k ==> RoomAt(policy, |s0.buf|, net, j)
    ensures var s := Run(policy, s0, net[..k]);
      |s.buf| == SizeAt(|s0.buf|, net, k) && Gathered(world, net, k, key, s, covered)
    decreases k
  {
    RunNext(policy, s0, net, k - 1);
    assert RoomAt(policy, |s0.buf|, net, k - 1);
    if k == 1 {
      RoomSize(policy, s0.buf, EndOf(net[0]));
      covered := GatherFirst(world, net, key, policy, s0);
    } else {
      var s := Run(policy, s0, net[..k - 1]);
      var before := GatherRun(world, net, k - 1, key, policy, s0);
      RoomSize(policy, s.buf, EndOf(net[k - 1]));
      covered := GatherNext(world, net, k - 1, key, policy, s, before);
    }
  }

  // ------------------------------------------------------------------ The theorems

  /** All packets of one buffer, from a state that is ready for the first and has room for each. */
  lemma CompleteFrom(world: World, net: seq<Arrival>, key: Key, policy: Policy, s0: State)
    requires OneBuffer(world, net, key) && AllArrive(world, net, key)
    requires Ready(s0, net[0].h) && Roomy(policy, |s0.buf|, net)
    ensures forall k :: 0 <= k < |net| ==> Run(policy, s0, net[..k]).result == Waiting
    ensures var s := Run(policy, s0, net);
      && s.result == Complete(|world[key]|, key.tick, key.dataId)
      && |world[key]| <= |s.buf| && s.buf[..|world[key]|] == world[key]
  {
    forall k | 0 <= k < |net| ensures Run(policy, s0, net[..k]).result == Waiting {
      var c := ReadyFor(world, net, k, key, policy, s0);
    }
    var covered := GatherRun(world, net, |net|, key, policy, s0);
    assert net[..|net|] == net;
    var s := Run(policy, s0, net);
    NothingMissing(world, net, key, s.c.total, s.buf, covered);
    HoldingAll(world, net, |net|, key, s.c.total, s.buf, covered);
  }

  /**
   All packets of one buffer, in any order, the first of which is stored, into a receiver that has or makes
   room for each: the buffer is complete with the last packet and not before.
   */
  lemma CompleteWithTheLastPacket(world: World, net: seq<Arrival>, key: Key, policy: Policy, buf: seq<byte>)
    requires OneBuffer(world, net, key) && AllArrive(world, net, key)
    requires Starts(net[0].h) && Roomy(policy, |buf|, net)
    ensures forall k :: 0 <= k < |net| ==> Run(policy, Init(buf), net[..k]).result == Waiting
    ensures var s := Run(policy, Init(buf), net);
      && s.result == Complete(|world[key]|, key.tick, key.dataId)
      && |world[key]| <= |s.buf| && s.buf[..|world[key]|] == world[key]
  {
    FirstPacketStored(buf, net[0].h);
    CompleteFrom(world, net, key, policy, Init(buf));
  }

  /** A willing receiver without room gives up. */
  lemma NoRoomStep(policy: Policy, s: State, c: Control, a: Arrival)
    requires s.result == Waiting && a.Got? && a.payload != [] && Decide(s.c, a.h) == Accept(c)
    requires !MakeRoom(policy, s.buf, EndOf(a)).Fits?
    ensures var r := Step(policy, s, a).result; r != Waiting && !r.Complete?
  {
  }

  /** As long as there was room, the receiver waits for the next packet and would take it. */
  lemma ReadyFor(world: World, net: seq<Arrival>, k: nat, key: Key, policy: Policy, s0: State) returns (c: Control)
    requires OneBuffer(world, net, key) && Ready(s0, net[0].h) && k < |net|
    requires forall j :: 0 <= j < k ==> RoomAt(policy, |s0.buf|, net, j)
    ensures var s := Run(policy, s0, net[..k]);
      s.result == Waiting && Decide(s.c, net[k].h) == Accept(c) && |s.buf| == SizeAt(|s0.buf|, net, k)
  {
    if k == 0 {
      c := Control(key.tick, false, false, key.dataId, 0);
    } else {
      var s := Run(policy, s0, net[..k]);
      var covered := GatherRun(world, net, k, key, policy, s0);
      Willing(world, net, k, key, s, covered);
      c := s.c;
    }
  }

  /** The first packet without room ends the call. */
  lemma NoRoomEnds(world: World, net: seq<Arrival>, k: nat, key: Key, policy: Policy, s0: State)
    requires OneBuffer(world, net, key) && Ready(s0, net[0].h) && k < |net| && !RoomAt(policy, |s0.buf|, net, k)
    requires forall j :: 0 <= j < k ==> RoomAt(policy, |s0.buf|, net, j)
    ensures !Run(policy, s0, net).result.Complete?
  {
    var s := Run(policy, s0, net[..k]);
    var c := ReadyFor(world, net, k, key, policy, s0);
    RoomSize(policy, s.buf, EndOf(net[k]));
    NoRoomStep(policy, s, c, net[k]);
    RunNext(policy, s0, net, k);
    RunEnd(policy, s0, net, k + 1);
  }

  lemma {:induction false} FirstWithoutRoom(policy: Policy, n: nat, net: seq<Arrival>, from: nat) returns (k: nat)
    requires AllGot(net) && !Roomy(policy, n, net) && from <= |net|
    requires forall j :: 0 <= j < from ==> RoomAt(policy, n, net, j)
    ensures k < |net| && !RoomAt(policy, n, net, k) && forall j :: 0 <= j < k ==> RoomAt(policy, n, net, j)
    decreases |net| - from
  {
    if RoomAt(policy, n, net, from) {
      k := FirstWithoutRoom(policy, n, net, from + 1);
    } else {
      k := from;
    }
  }

  /**
   Exactly when all packets of a buffer make a receiver complete it: the first to arrive has offset 0, or the
   tick is 4294967295, with which prevTick happens to start; and each packet finds room, doubling included.
   */
  lemma CompletesExactly(world: World, net: seq<Arrival>, key: Key, policy: Policy, buf: seq<byte>)
    requires OneBuffer(world, net, key) && AllArrive(world, net, key)
    ensures Run(policy, Init(buf), net).result.Complete? <==> Starts(net[0].h) && Roomy(policy, |buf|, net)
  {
    if !Starts(net[0].h) {
      NeverStarted(world, net, |net|, key, policy, buf);
      assert net[..|net|] == net;
    } else if !Roomy(policy, |buf|, net) {
      var k := FirstWithoutRoom(policy, |buf|, net, 0);
      FirstPacketStored(buf, net[0].h);
      NoRoomEnds(world, net, k, key, policy, Init(buf));
    } else {
      CompleteWithTheLastPacket(world, net, key, policy, buf);
    }
  }
}
