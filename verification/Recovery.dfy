/** What a receiver that has given up ticks, or is in the middle of one, makes of the next buffer. */
module Recovery {
  import opened Bytes
  import opened Headers
  import opened Reassembler
  import opened ReassemblerTheorems
  import Completion
  import Contents
  import opened MixedStreams

  // ------------------------------------------------------------------ After any stream

  lemma {:induction false} RunSplit(policy: Policy, s0: State, a: seq<Arrival>, b: seq<Arrival>)
    ensures Run(policy, s0, a + b) == Run(policy, Run(policy, s0, a), b)
    decreases |b|
  {
    if b == [] {
      assert a + b == a;
    } else {
      RunSplit(policy, s0, a, b[..|b| - 1]);
      assert (a + b)[..|a + b| - 1] == a + b[..|b| - 1];
    }
  }

  /** After the stream `pre` such a packet begins a buffer. */
  predicate BeginsAfter(pre: seq<Arrival>, h: ReHeader)
  {
    match Attempt(pre)
    case None => Opens(pre, h)
    case Some(j) => h.dataId == pre[j].h.dataId && h.tick != pre[j].h.tick && h.offset == 0
  }

  /** The receiver will not have anything of this buffer: it assembles another source's, or has given up its tick. */
  ghost predicate Deaf(c: Control, key: Key)
  {
    if c.veryFirst then c.dumpTick && c.prevTick == key.tick else c.srcId != key.dataId
  }

  lemma DeafStep(policy: Policy, s: State, a: Arrival, key: Key)
    requires s.result == Waiting && Deaf(s.c, key) && a.Got? && KeyOf(a) == key && a.payload != []
    ensures Step(policy, s, a).result == Waiting && Deaf(Step(policy, s, a).c, key)
  {
  }

  lemma {:induction false} DeafRun(policy: Policy, s: State, net: seq<Arrival>, key: Key)
    requires s.result == Waiting && Deaf(s.c, key)
    requires forall i :: 0 <= i < |net| ==> net[i].Got? && KeyOf(net[i]) == key && net[i].payload != []
    ensures Run(policy, s, net).result == Waiting && Deaf(Run(policy, s, net).c, key)
    decreases |net|
  {
    if net != [] {
      DeafRun(policy, s, net[..|net| - 1], key);
      DeafStep(policy, Run(policy, s, net[..|net| - 1]), net[|net| - 1], key);
    }
  }

  lemma DeafFromTheFirst(policy: Policy, s: State, net: seq<Arrival>, key: Key)
    requires net != [] && forall i :: 0 <= i < |net| ==> net[i].Got? && KeyOf(net[i]) == key && net[i].payload != []
    requires Step(policy, s, net[0]).result == Waiting && Deaf(Step(policy, s, net[0]).c, key)
    ensures Run(policy, s, net).result == Waiting
  {
    RunNext(policy, s, net, 0);
    assert net[..0] == [] && net == net[..1] + net[1..];
    RunSplit(policy, s, net[..1], net[1..]);
    DeafRun(policy, Step(policy, s, net[0]), net[1..], key);
  }

  /** A state that follows its stream is ready for the first packet of a buffer, or deaf to it once it has come. */
  lemma ReadyOrDeaf(policy: Policy, pre: seq<Arrival>, s: State, a: Arrival)
    requires s.result == Waiting && Follows(pre, s.c) && a.Got? && a.payload != []
    requires forall i :: 0 <= i < |pre| && pre[i].Got? ==> KeyOf(pre[i]) != KeyOf(a)
    ensures BeginsAfter(pre, a.h) ==> Completion.Ready(s, a.h)
    ensures !BeginsAfter(pre, a.h) ==>
      Step(policy, s, a).result == Waiting && Deaf(Step(policy, s, a).c, KeyOf(a))
  {
    match Attempt(pre)
    case None => DecideIdle(pre, s.c, a.h);
    case Some(j) => assert KeyOf(pre[j]) != KeyOf(a);
  }

  /**
   After every stream that leaves a receiver waiting, all packets of a buffer of which nothing has come yet, in any
   order, make it complete if and only if the first of them begins a buffer there and each finds room.
   */
  lemma RecoversExactly(
    world: World, policy: Policy, buf: seq<byte>, pre: seq<Arrival>, net: seq<Arrival>, key: Key
  )
    requires Run(policy, Init(buf), pre).result == Waiting
    requires Completion.OneBuffer(world, net, key) && Completion.AllArrive(world, net, key)
    requires forall i :: 0 <= i < |pre| && pre[i].Got? ==> KeyOf(pre[i]) != key
    ensures Run(policy, Init(buf), pre + net).result.Complete? <==>
      BeginsAfter(pre, net[0].h) && Completion.Roomy(policy, |Run(policy, Init(buf), pre).buf|, net)
  {
    var s0 := Run(policy, Init(buf), pre);
    RunSplit(policy, Init(buf), pre, net);
    Contents.JournalTracks(policy, buf, pre);
    AttemptIsRun(pre);
    assert net[0].Got? && KeyOf(net[0]) == key;
    ReadyOrDeaf(policy, pre, s0, net[0]);
    if !BeginsAfter(pre, net[0].h) {
      DeafFromTheFirst(policy, s0, net, key);
    } else if Completion.Roomy(policy, |s0.buf|, net) {
      Completion.CompleteFrom(world, net, key, policy, s0);
    } else {
      var k := Completion.FirstWithoutRoom(policy, |s0.buf|, net, 0);
      Completion.NoRoomEnds(world, net, k, key, policy, s0);
    }
  }

  /** And then it completes with the last packet and not before, with the right bytes. */
  lemma RecoversWithTheLastPacket(
    world: World, policy: Policy, buf: seq<byte>, pre: seq<Arrival>, net: seq<Arrival>, key: Key
  )
    requires Run(policy, Init(buf), pre).result == Waiting
    requires Completion.OneBuffer(world, net, key) && Completion.AllArrive(world, net, key)
    requires forall i :: 0 <= i < |pre| && pre[i].Got? ==> KeyOf(pre[i]) != key
    requires BeginsAfter(pre, net[0].h) && Completion.Roomy(policy, |Run(policy, Init(buf), pre).buf|, net)
    ensures forall k :: 0 <= k < |net| ==> Run(policy, Init(buf), pre + net[..k]).result == Waiting
    ensures var s := Run(policy, Init(buf), pre + net);
      && s.result == Complete(|world[key]|, key.tick, key.dataId)
      && |world[key]| <= |s.buf| && s.buf[..|world[key]|] == world[key]
  {
    var s0 := Run(policy, Init(buf), pre);
    Contents.JournalTracks(policy, buf, pre);
    AttemptIsRun(pre);
    assert net[0].Got? && KeyOf(net[0]) == key;
    ReadyOrDeaf(policy, pre, s0, net[0]);
    Completion.CompleteFrom(world, net, key, policy, s0);
    RunSplit(policy, Init(buf), pre, net);
    forall k | 0 <= k < |net| ensures Run(policy, Init(buf), pre + net[..k]).result == Waiting {
      RunSplit(policy, Init(buf), pre, net[..k]);
    }
  }

  // ------------------------------------------------------------------ After ticks that were dumped

  /** Packets none of which begins a buffer, and none of tick t. */
  ghost predicate AllDumped(pre: seq<Arrival>, t: u64)
  {
    forall i :: 0 <= i < |pre| ==>
      && pre[i].Got? && pre[i].payload != [] && pre[i].h.offset != 0
      && pre[i].h.tick != INITIAL_PREV_TICK && pre[i].h.tick != t
  }

  lemma {:induction false} NothingBegun(policy: Policy, buf: seq<byte>, pre: seq<Arrival>, t: u64)
    requires AllDumped(pre, t)
    ensures Attempt(pre).None? && (pre != [] ==> LastTick(pre) != t)
    ensures Run(policy, Init(buf), pre).result == Waiting && Run(policy, Init(buf), pre).buf == buf
    decreases |pre|
  {
    if pre != [] {
      var n := |pre| - 1;
      NothingBegun(policy, buf, pre[..n], t);
      AttemptNext(pre);
      Contents.JournalTracks(policy, buf, pre[..n]);
      AttemptIsRun(pre[..n]);
      DecideIdle(pre[..n], Run(policy, Init(buf), pre[..n]).c, pre[n].h);
    }
  }

  /**
   A receiver that has dumped any number of ticks, because their first packets were lost, takes the next buffer that
   comes with its first packet in front, and completes it with the last packet.
   */
  lemma RecoversFromDumped(
    world: World, policy: Policy, buf: seq<byte>, pre: seq<Arrival>, net: seq<Arrival>, key: Key
  )
    requires AllDumped(pre, key.tick) && Completion.OneBuffer(world, net, key) && Completion.AllArrive(world, net, key)
    requires net[0].h.offset == 0 && Completion.Roomy(policy, |buf|, net)
    ensures forall k :: 0 <= k < |net| ==> Run(policy, Init(buf), pre + net[..k]).result == Waiting
    ensures var s := Run(policy, Init(buf), pre + net);
      && s.result == Complete(|world[key]|, key.tick, key.dataId)
      && |world[key]| <= |s.buf| && s.buf[..|world[key]|] == world[key]
  {
    NothingBegun(policy, buf, pre, key.tick);
    assert net[0].Got? && KeyOf(net[0]) == key;
    assert SomeGot(pre) ==> pre != [];
    RecoversWithTheLastPacket(world, policy, buf, pre, net, key);
  }

  // ------------------------------------------------------------------ After a buffer that was not finished

  /** Part of a buffer: its first packet was stored, and some byte is missing. */
  ghost predicate Unfinished(world: World, policy: Policy, n: nat, pre: seq<Arrival>, key: Key, missing: nat)
  {
    && Completion.OneBuffer(world, pre, key) && Completion.Starts(pre[0].h) && Completion.Roomy(policy, n, pre)
    && key in world && missing < |world[key]| && !Arrived(pre, |pre|, key, missing)
  }

  lemma UnfinishedWaits(
    world: World, policy: Policy, buf: seq<byte>, pre: seq<Arrival>, key: Key, missing: nat
  )
    requires Unfinished(world, policy, |buf|, pre, key, missing)
    ensures Run(policy, Init(buf), pre).result == Waiting
    ensures |Run(policy, Init(buf), pre).buf| == Completion.SizeAt(|buf|, pre, |pre|)
  {
    Completion.FirstPacketStored(buf, pre[0].h);
    var covered := Completion.GatherRun(world, pre, |pre|, key, policy, Init(buf));
    assert pre[..|pre|] == pre;
    assert missing !in covered;
    Pigeonhole(covered, |world[key]|);
  }

  lemma UnfinishedAttempt(world: World, policy: Policy, n: nat, pre: seq<Arrival>, key: Key, missing: nat)
    requires Unfinished(world, policy, n, pre, key, missing)
    ensures Attempt(pre) == Some(0)
  {
    assert pre[..1][..0] == [] && pre[..1][0] == pre[0] && KeyOf(pre[0]) == key;
    AttemptNext(pre[..1]);
    assert !SomeGot([]);
    AttemptStands(pre, 0);
  }

  /**
   A receiver in the middle of a buffer, some of which is missing, drops it for the next buffer of the same source
   that comes with its first packet in front, and completes that with its last packet.
   */
  lemma RecoversFromUnfinished(
    world: World, policy: Policy, buf: seq<byte>, pre: seq<Arrival>, key': Key, missing: nat,
    net: seq<Arrival>, key: Key
  )
    requires Unfinished(world, policy, |buf|, pre, key', missing)
    requires key.dataId == key'.dataId && key.tick != key'.tick
    requires Completion.OneBuffer(world, net, key) && Completion.AllArrive(world, net, key)
    requires net[0].h.offset == 0 && Completion.Roomy(policy, Completion.SizeAt(|buf|, pre, |pre|), net)
    ensures forall k :: 0 <= k < |net| ==> Run(policy, Init(buf), pre + net[..k]).result == Waiting
    ensures var s := Run(policy, Init(buf), pre + net);
      && s.result == Complete(|world[key]|, key.tick, key.dataId)
      && |world[key]| <= |s.buf| && s.buf[..|world[key]|] == world[key]
  {
    UnfinishedWaits(world, policy, buf, pre, key', missing);
    UnfinishedAttempt(world, policy, |buf|, pre, key', missing);
    assert net[0].Got? && KeyOf(net[0]) == key && KeyOf(pre[0]) == key';
    RecoversWithTheLastPacket(world, policy, buf, pre, net, key);
  }
}
