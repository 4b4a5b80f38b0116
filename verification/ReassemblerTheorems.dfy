/** What a completed buffer is worth, and what it takes to complete one. */
module ReassemblerTheorems {
  import opened Bytes
  import opened Counting
  import opened Headers
  import opened Reassembler

  // ------------------------------------------------------------------ What was sent

  /** The buffers that sources sent, one for each tick and data id. */
  datatype Key = Key(tick: u64, dataId: u16)
  type World = map<Key, seq<byte>>

  function KeyOf(a: Arrival): (key: Key)
    requires a.Got?
  {
    Key(a.h.tick, a.h.dataId)
  }

  /** A packet that some source cut from its buffer. */
  ghost predicate Genuine(world: World, a: Arrival)
  {
    a.Got? ==>
      && KeyOf(a) in world
      && a.h.length == |world[KeyOf(a)]|
      && a.h.offset + |a.payload| <= a.h.length
      && a.payload == world[KeyOf(a)][a.h.offset..a.h.offset + |a.payload|]
  }

  /** The packet carries byte x of the buffer `key`. */
  ghost predicate Carries(a: Arrival, key: Key, x: nat)
  {
    a.Got? && KeyOf(a) == key && a.h.offset <= x < a.h.offset + |a.payload|
  }

  ghost predicate AllGenuine(world: World, net: seq<Arrival>)
  {
    forall i :: 0 <= i < |net| ==> Genuine(world, net[i])
  }

  /** No byte of any buffer arrives twice. Packets may be lost, reordered and interleaved at will. */
  ghost predicate DuplicateFree(net: seq<Arrival>)
  {
    forall i, j, key, x :: 0 <= i < j < |net| && Carries(net[i], key, x) ==> !Carries(net[j], key, x)
  }

  function EndOf(a: Arrival): (x: nat)
    requires a.Got?
  {
    a.h.offset + |a.payload|
  }

  /** Byte x of the buffer `key` is among the first k packets. */
  ghost predicate Arrived(net: seq<Arrival>, k: nat, key: Key, x: nat)
    requires k <= |net|
  {
    exists i :: 0 <= i < k && Carries(net[i], key, x)
  }

  // ------------------------------------------------------------------ Counting bytes

  /** As many bytes as the buffer has, all within it: that is all of it. */
  lemma Pigeonhole(covered: set<nat>, n: nat)
    requires forall x :: x in covered ==> x < n
    ensures |covered| <= n
    ensures |covered| == n ==> covered == UpTo(n)
  {
    assert covered <= UpTo(n);
    SubsetSize(covered, UpTo(n));
  }

  /** The positions covered after a packet of n bytes at `off`. */
  function Extend(covered: set<nat>, off: nat, n: nat): (s: set<nat>)
    ensures forall x :: x in s <==> x in covered || off <= x < off + n
    decreases n
  {
    if n == 0 then covered else Extend(covered, off, n - 1) + {off + n - 1}
  }

  lemma {:induction false} ExtendSize(covered: set<nat>, off: nat, n: nat)
    requires forall x :: x in covered ==> !(off <= x < off + n)
    ensures |Extend(covered, off, n)| == |covered| + n
    decreases n
  {
    if n > 0 {
      ExtendSize(covered, off, n - 1);
    }
  }

  // ------------------------------------------------------------------ Safety

  /** What the receiver has of the buffer `key` after k packets: the bytes `covered`, counted in `total`. */
  ghost predicate Holding(
    world: World, net: seq<Arrival>, k: nat, key: Key, total: nat, buf: seq<byte>, covered: set<nat>
  )
  {
    && key in world && k <= |net|
    && |covered| == total
    && (forall x :: x in covered ==> x < |world[key]| && x < |buf| && buf[x] == world[key][x])
    && (forall x :: x in covered ==> exists i :: 0 <= i < k && Carries(net[i], key, x))
  }

  /** The key of the buffer under construction. */
  function Current(c: Control): (key: Key)
  {
    Key(c.prevTick, c.srcId)
  }

  ghost predicate Sound(world: World, net: seq<Arrival>, k: nat, s: State)
  {
    match s.result
    case Waiting => s.c.veryFirst || exists covered :: Holding(world, net, k, Current(s.c), s.c.total, s.buf, covered)
    case Complete(n, tick, dataId) =>
      Key(tick, dataId) in world && n == |world[Key(tick, dataId)]| <= |s.buf| && s.buf[..n] == world[Key(tick, dataId)]
    case _ => true
  }

  /** A packet that is stored adds exactly its own bytes. */
  lemma HoldingStore(world: World, net: seq<Arrival>, k: nat, total: nat, buf: seq<byte>, room: seq<byte>,
                     covered: set<nat>) returns (covered': set<nat>)
    requires AllGenuine(world, net) && DuplicateFree(net)
    requires k < |net| && net[k].Got?
    requires Holding(world, net, k, KeyOf(net[k]), total, buf, covered)
    requires buf <= room && net[k].h.offset + |net[k].payload| <= |room|
    ensures Holding(world, net, k + 1, KeyOf(net[k]), total + |net[k].payload|,
                    Overwrite(room, net[k].h.offset, net[k].payload), covered')
    ensures covered' == Extend(covered, net[k].h.offset, |net[k].payload|)
  {
    var a := net[k];
    var key := KeyOf(a);
    assert Genuine(world, a);
    covered' := Extend(covered, a.h.offset, |a.payload|);
    forall x | x in covered ensures !(a.h.offset <= x < a.h.offset + |a.payload|) {
      var i :| 0 <= i < k && Carries(net[i], key, x);
      assert !Carries(net[k], key, x);
    }
    ExtendSize(covered, a.h.offset, |a.payload|);
    forall x | x in covered' ensures exists i :: 0 <= i < k + 1 && Carries(net[i], key, x) {
      if x !in covered {
        assert Carries(net[k], key, x);
      }
    }
  }

  lemma HoldingNothing(world: World, net: seq<Arrival>, k: nat, key: Key, buf: seq<byte>)
    requires key in world && k <= |net|
    ensures Holding(world, net, k, key, 0, buf, {})
  {
  }

  /** A state that holds bytes of its buffer is sound while it waits, and when it has counted them all. */
  lemma SoundHolding(world: World, net: seq<Arrival>, k: nat, s: State, covered: set<nat>)
    requires Holding(world, net, k, Current(s.c), s.c.total, s.buf, covered)
    requires s.result == Waiting ||
      (s.result == Complete(s.c.total, s.c.prevTick, s.c.srcId) && s.c.total >= |world[Current(s.c)]|)
    ensures Sound(world, net, k, s)
  {
    if s.result != Waiting {
      HoldingAll(world, net, k, Current(s.c), s.c.total, s.buf, covered);
    }
  }

  /** The packet was stored, in memory that has room for it. */
  lemma SoundStored(
    world: World, net: seq<Arrival>, k: nat, c: Control, buf: seq<byte>, room: seq<byte>, covered: set<nat>, s: State
  )
    requires AllGenuine(world, net) && DuplicateFree(net) && k < |net| && net[k].Got? && Current(c) == KeyOf(net[k])
    requires Holding(world, net, k, Current(c), c.total, buf, covered) && buf <= room && EndOf(net[k]) <= |room|
    requires s.c == c.(total := c.total + |net[k].payload|) && s.buf == Overwrite(room, net[k].h.offset, net[k].payload)
    requires s.result ==
      if s.c.total >= net[k].h.length then Complete(s.c.total, net[k].h.tick, net[k].h.dataId) else Waiting
    ensures Sound(world, net, k + 1, s)
  {
    var covered' := HoldingStore(world, net, k, c.total, buf, room, covered);
    assert Genuine(world, net[k]);
    SoundHolding(world, net, k + 1, s, covered');
  }

  lemma SoundStore(
    world: World, net: seq<Arrival>, k: nat, policy: Policy, c: Control, buf: seq<byte>, covered: set<nat>
  )
    requires AllGenuine(world, net) && DuplicateFree(net)
    requires k < |net| && net[k].Got? && Current(c) == KeyOf(net[k]) && !c.veryFirst
    requires Holding(world, net, k, Current(c), c.total, buf, covered)
    ensures Sound(world, net, k + 1, Store(policy, c, buf, net[k].h, net[k].payload))
  {
    var room := MakeRoom(policy, buf, EndOf(net[k]));
    if room.Fits? {
      SoundStored(world, net, k, c, buf, room.buf, covered, Store(policy, c, buf, net[k].h, net[k].payload));
    }
  }

  lemma HoldingAll(world: World, net: seq<Arrival>, k: nat, key: Key, total: nat, buf: seq<byte>, covered: set<nat>)
    requires Holding(world, net, k, key, total, buf, covered) && total >= |world[key]|
    ensures total == |world[key]| <= |buf| && buf[..total] == world[key]
  {
    Pigeonhole(covered, |world[key]|);
    forall x | 0 <= x < |world[key]| ensures x < |buf| && buf[x] == world[key][x] {
      assert x in UpTo(|world[key]|);
    }
    AllBytes(world[key], buf);
  }

  lemma AllBytes(source: seq<byte>, buf: seq<byte>)
    requires forall x :: 0 <= x < |source| ==> x < |buf| && buf[x] == source[x]
    ensures |source| <= |buf| && buf[..|source|] == source
  {
    if source != [] {
      var last := source[|source| - 1];
      assert buf[|source| - 1] == last;
    }
  }

  lemma HoldingLonger(world: World, net: seq<Arrival>, k: nat, key: Key, total: nat, buf: seq<byte>, covered: set<nat>)
    requires Holding(world, net, k, key, total, buf, covered) && k < |net|
    ensures Holding(world, net, k + 1, key, total, buf, covered)
  {
    forall x | x in covered ensures exists i :: 0 <= i < k + 1 && Carries(net[i], key, x) {
      var i :| 0 <= i < k && Carries(net[i], key, x);
    }
  }

  lemma SoundStep(world: World, net: seq<Arrival>, k: nat, policy: Policy, s: State)
    requires AllGenuine(world, net) && DuplicateFree(net)
    requires k < |net| && Sound(world, net, k, s)
    ensures Sound(world, net, k + 1, Step(policy, s, net[k]))
  {
    if s.result == Waiting && net[k].Got? && !(s.c.veryFirst && net[k].payload == []) {
      var h := net[k].h;
      assert Genuine(world, net[k]);
      match Decide(s.c, h)
      case Skip(c) =>
        if !c.veryFirst {
          var covered :| Holding(world, net, k, Current(s.c), s.c.total, s.buf, covered);
          HoldingLonger(world, net, k, Current(s.c), s.c.total, s.buf, covered);
        }
      case Accept(c) =>
        var covered := {};
        if s.c.veryFirst || h.tick != s.c.prevTick {
          HoldingNothing(world, net, k, KeyOf(net[k]), s.buf);
        } else {
          covered :| Holding(world, net, k, Current(s.c), s.c.total, s.buf, covered);
        }
        SoundStore(world, net, k, policy, c, s.buf, covered);
    }
  }

  lemma SoundNext(world: World, net: seq<Arrival>, policy: Policy, buf: seq<byte>, k: nat)
    requires AllGenuine(world, net) && DuplicateFree(net) && k < |net|
    requires Sound(world, net, k, Run(policy, Init(buf), net[..k]))
    ensures Sound(world, net, k + 1, Run(policy, Init(buf), net[..k + 1]))
  {
    SoundStep(world, net, k, policy, Run(policy, Init(buf), net[..k]));
    RunNext(policy, Init(buf), net, k);
  }

  lemma {:induction false} SoundRun(world: World, net: seq<Arrival>, policy: Policy, buf: seq<byte>, k: nat)
    requires AllGenuine(world, net) && DuplicateFree(net) && k <= |net|
    ensures Sound(world, net, k, Run(policy, Init(buf), net[..k]))
    decreases k
  {
    if k > 0 {
      SoundRun(world, net, policy, buf, k - 1);
      SoundNext(world, net, policy, buf, k - 1);
    }
  }

  /**
   Safety of both receivers: whatever was lost, reordered or interleaved, a buffer reported complete
   for tick t and source s is byte for byte the buffer that s sent for t, and so is its length.
   */
  lemma DeliveredIsGenuine(world: World, net: seq<Arrival>, policy: Policy, buf: seq<byte>)
    requires AllGenuine(world, net) && DuplicateFree(net)
    ensures var s := Run(policy, Init(buf), net);
      s.result.Complete? ==>
        var key := Key(s.result.tick, s.result.dataId);
        && key in world
        && s.result.bytes == |world[key]| <= |s.buf|
        && s.buf[..s.result.bytes] == world[key]
  {
    SoundRun(world, net, policy, buf, |net|);
    assert net[..|net|] == net;
  }

  /** Without the hypothesis the count is fooled: a packet that arrives twice stands in for a missing one. */
  lemma DuplicateFoolsTheCount()
    ensures var world: World := map[Key(7, 1) := [10, 20]];
      var twice := Got(ReHeader(2, 1, 0, 2, 7), [10]);
      var s := Run(Fixed, Init([0, 0]), [twice, twice]);
      && AllGenuine(world, [twice, twice])
      && s.result == Complete(2, 7, 1) && s.buf == [10, 0] != world[Key(7, 1)]
  {
    var twice := Got(ReHeader(2, 1, 0, 2, 7), [10]);
    var c := Control(7, false, false, 1, 0);
    assert Overwrite([0, 0], 0, [10]) == [10, 0] == Overwrite([10, 0], 0, [10]);
    assert Store(Fixed, c, [0, 0], twice.h, [10]) == State(c.(total := 1), [10, 0], Waiting);
    assert Step(Fixed, Init([0, 0]), twice) == State(c.(total := 1), [10, 0], Waiting);
    assert [twice][..0] == [] && [twice, twice][..1] == [twice];
    assert Run(Fixed, Init([0, 0]), [twice]) == Step(Fixed, Init([0, 0]), twice);
    assert Store(Fixed, c.(total := 1), [10, 0], twice.h, [10]) == State(c.(total := 2), [10, 0], Complete(2, 7, 1));
  }

  // ------------------------------------------------------------------ Growth

  /** Packet i continues where packet j of the same buffer ended. */
  ghost predicate Continues(net: seq<Arrival>, i: nat, j: nat)
    requires i < |net| && j < |net|
  {
    net[i].Got? && net[j].Got? && KeyOf(net[i]) == KeyOf(net[j]) && EndOf(net[j]) == net[i].h.offset
  }

  /** Every buffer's packets come in order: each starts at 0 or continues an earlier one. Buffers may interleave. */
  ghost predicate InOrder(net: seq<Arrival>)
  {
    forall i :: 0 <= i < |net| && net[i].Got? && net[i].h.offset > 0 ==> exists j :: 0 <= j < i && Continues(net, i, j)
  }

  ghost predicate Jumbo(net: seq<Arrival>)
  {
    forall i :: 0 <= i < |net| && net[i].Got? ==> 0 < |net[i].payload| <= MAX_EJFAT_MTU
  }

  lemma {:induction false} FirstPacket(net: seq<Arrival>, i: nat) returns (j: nat)
    requires InOrder(net) && i < |net| && net[i].Got?
    ensures j <= i && net[j].Got? && KeyOf(net[j]) == KeyOf(net[i]) && net[j].h.offset == 0
    decreases i
  {
    if net[i].h.offset == 0 {
      j := i;
    } else {
      var i' :| 0 <= i' < i && Continues(net, i, i');
      j := FirstPacket(net, i');
    }
  }

  /** All packets so far of the buffer under construction end inside the memory. */
  ghost predicate Inside(net: seq<Arrival>, k: nat, s: State)
    requires k <= |net|
  {
    && |s.buf| >= MAX_EJFAT_MTU
    && s.result != Crash(WriteOutOfBounds)
    && (s.result == Waiting && !s.c.veryFirst ==>
        forall i :: 0 <= i < k && net[i].Got? && KeyOf(net[i]) == Current(s.c) ==> EndOf(net[i]) <= |s.buf|)
    && (k == 0 ==> s.c.veryFirst)
    && (s.result == Waiting && s.c.veryFirst && k > 0 ==> s.c.dumpTick)
  }

  lemma InsideStore(net: seq<Arrival>, k: nat, policy: Policy, c: Control, buf: seq<byte>)
    requires k < |net| && net[k].Got? && Jumbo(net) && |buf| >= MAX_EJFAT_MTU
    requires Current(c) == KeyOf(net[k]) && !c.veryFirst
    requires net[k].h.offset <= |buf|
    requires forall i :: 0 <= i < k && net[i].Got? && KeyOf(net[i]) == Current(c) ==> EndOf(net[i]) <= |buf|
    ensures Inside(net, k + 1, Store(policy, c, buf, net[k].h, net[k].payload))
  {
    var s := Store(policy, c, buf, net[k].h, net[k].payload);
    assert |net[k].payload| <= MAX_EJFAT_MTU;
    if s.result == Waiting {
      forall i | 0 <= i < k + 1 && net[i].Got? && KeyOf(net[i]) == Current(s.c) ensures EndOf(net[i]) <= |s.buf| {
        assert Current(s.c) == Current(c);
      }
    }
  }

  /** A buffer's first packet is the first of it to arrive. */
  lemma NothingBefore(net: seq<Arrival>, k: nat)
    requires InOrder(net) && DuplicateFree(net) && Jumbo(net)
    requires k < |net| && net[k].Got? && net[k].h.offset == 0
    ensures forall i :: 0 <= i < k && net[i].Got? ==> KeyOf(net[i]) != KeyOf(net[k])
  {
    forall i | 0 <= i < k && net[i].Got? ensures KeyOf(net[i]) != KeyOf(net[k]) {
      if KeyOf(net[i]) == KeyOf(net[k]) {
        var j := FirstPacket(net, i);
        assert 0 < |net[j].payload| && 0 < |net[k].payload|;
        assert Carries(net[j], KeyOf(net[k]), 0) && Carries(net[k], KeyOf(net[k]), 0);
      }
    }
  }

  lemma InsideStep(net: seq<Arrival>, k: nat, policy: Policy, s: State)
    requires InOrder(net) && DuplicateFree(net) && Jumbo(net)
    requires k < |net| && Inside(net, k, s)
    ensures Inside(net, k + 1, Step(policy, s, net[k]))
  {
    if s.result == Waiting && net[k].Got? && !(s.c.veryFirst && net[k].payload == []) {
      var h := net[k].h;
      match Decide(s.c, h)
      case Skip(c) =>
      case Accept(c) =>
        if h.offset == 0 {
          NothingBefore(net, k);
        } else {
          var j :| 0 <= j < k && Continues(net, k, j);
          assert EndOf(net[j]) <= |s.buf|;
        }
        InsideStore(net, k, policy, c, s.buf);
    }
  }

  lemma InsideNext(net: seq<Arrival>, k: nat, policy: Policy, buf: seq<byte>)
    requires InOrder(net) && DuplicateFree(net) && Jumbo(net) && k < |net|
    requires Inside(net, k, Run(policy, Init(buf), net[..k]))
    ensures Inside(net, k + 1, Run(policy, Init(buf), net[..k + 1]))
  {
    InsideStep(net, k, policy, Run(policy, Init(buf), net[..k]));
    RunNext(policy, Init(buf), net, k);
  }

  /**
   For streams in order one doubling is always enough: a receiver that starts with room for a jumbo
   packet never writes past its memory, whatever ticks and sources are mixed.
   */
  lemma {:induction false} DoublingSuffices(net: seq<Arrival>, k: nat, policy: Policy, buf: seq<byte>)
    requires InOrder(net) && DuplicateFree(net) && Jumbo(net) && k <= |net|
    requires |buf| >= MAX_EJFAT_MTU
    ensures Inside(net, k, Run(policy, Init(buf), net[..k]))
    decreases k
  {
    if k > 0 {
      DoublingSuffices(net, k - 1, policy, buf);
      InsideNext(net, k - 1, policy, buf);
    }
  }

  // Out of order one doubling may not be enough.

  ghost predicate NeverOverruns(world: World, policy: Policy, buf: seq<byte>)
  {
    forall net :: AllGenuine(world, net) && DuplicateFree(net) ==>
      Run(policy, Init(buf), net).result != Crash(WriteOutOfBounds)
  }

  lemma {:induction false} ShortSourcesFit(world: World, policy: Policy, buf: seq<byte>, net: seq<Arrival>)
    requires AllGenuine(world, net)
    requires forall key :: key in world ==> |world[key]| <= 2 * |buf|
    ensures var s := Run(policy, Init(buf), net);
      s.result != Crash(WriteOutOfBounds) && |s.buf| >= |buf|
    decreases |net|
  {
    if net != [] {
      var n := |net| - 1;
      assert AllGenuine(world, net[..n]);
      ShortSourcesFit(world, policy, buf, net[..n]);
      assert Genuine(world, net[n]);
    }
  }

  /** The first and the last byte of a buffer more than twice as long as the memory. */
  lemma LongSourceOverruns(world: World, key: Key, limit: nat, fill: byte, buf: seq<byte>) returns (net: seq<Arrival>)
    requires key in world && 2 * |buf| < |world[key]| < 0x1_0000_0000 && 0 < |buf| && 2 * |buf| <= limit
    ensures AllGenuine(world, net) && DuplicateFree(net)
    ensures Run(Growing(limit, fill), Init(buf), net).result == Crash(WriteOutOfBounds)
  {
    var n := |world[key]|;
    var first := Got(ReHeader(2, key.dataId, 0, n, key.tick), [world[key][0]]);
    var last := Got(ReHeader(2, key.dataId, n - 1, n, key.tick), [world[key][n - 1]]);
    net := [first, last];
    var policy, c := Growing(limit, fill), Control(key.tick, false, false, key.dataId, 0);
    assert Decide(Init(buf).c, first.h) == Accept(c);
    var s1 := Store(policy, c, buf, first.h, first.payload);
    assert s1 == State(c.(total := 1), Overwrite(buf, 0, first.payload), Waiting);
    assert [first][..0] == [] && net[..1] == [first];
    assert Run(policy, Init(buf), [first]) == s1;
    assert Decide(s1.c, last.h) == Accept(s1.c);
    assert MakeRoom(policy, s1.buf, n) == NoRoom(Crash(WriteOutOfBounds));
  }

  /** Exactly when the growing receiver is safe for packets in any order, as long as memory lasts. */
  lemma AnyOrderIsSafe(world: World, limit: nat, fill: byte, buf: seq<byte>)
    requires 0 < |buf| && 2 * |buf| <= limit
    requires forall key :: key in world ==> |world[key]| < 0x1_0000_0000
    ensures NeverOverruns(world, Growing(limit, fill), buf) <==>
      forall key :: key in world ==> |world[key]| <= 2 * |buf|
  {
    if forall key :: key in world ==> |world[key]| <= 2 * |buf| {
      forall net | AllGenuine(world, net) && DuplicateFree(net)
        ensures Run(Growing(limit, fill), Init(buf), net).result != Crash(WriteOutOfBounds)
      {
        ShortSourcesFit(world, Growing(limit, fill), buf, net);
      }
    } else {
      var key :| key in world && |world[key]| > 2 * |buf|;
      var net := LongSourceOverruns(world, key, limit, fill, buf);
    }
  }
}
