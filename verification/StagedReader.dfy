/** Reading in stages a buffer that is too big to hold: getPacketizedBuffer, called in a loop. */
module StagedReader {
  import opened Bytes
  import opened Headers
  import opened Reassembler
  import opened ReassemblerTheorems

  /** What a call takes from the one before it: is this the start, whose data, and the next offset expected. */
  datatype Cursor = Cursor(veryFirst: bool, srcId: u16, tick: u64, offset: u32)

  datatype StageStatus = Reading | Done | OutOfOrder | NoReassembly | RecvError | InternalError | Overrun

  /**
   The loop variables. `at.offset` is nextOffset, `at.srcId` and `at.tick` are the source and tick being
   read, `start` is the offset at which the call began, `packetTick` the tick of the packet read last.
   */
  datatype Progress = Progress(at: Cursor, start: u32, packetTick: u64, total: nat, packets: nat,
                               rejected: nat, read: nat, last: bool, status: StageStatus)

  datatype Stage = Stage(g: Progress, buf: seq<byte>)

  /** The test at the head of the loop: without room for a jumbo packet the call is over. */
  function Head(g: Progress, bufLen: nat): (g': Progress)
  {
    if bufLen - g.total < MAX_EJFAT_MTU then g.(status := Done) else g
  }

  /** `garbage` is what the uninitialised variable packetTick happens to hold. */
  function Begin(at: Cursor, bufLen: nat, garbage: u64): (g: Progress)
  {
    Head(Progress(at, at.offset, garbage, 0, 0, 0, 0, false, Reading), bufLen)
  }

  /** Where in the call's buffer a packet's data goes, in 32-bit arithmetic. */
  function LocalOffset(g: Progress, h: ReHeader): (x: u32)
  {
    if h.offset >= g.start then h.offset - g.start else h.offset - g.start + 0x1_0000_0000
  }

  /** What becomes of a packet: `keep` says that its data is to be copied. */
  datatype Verdict = Drop(g: Progress) | Keep(g: Progress)

  function Consider(g: Progress, h: ReHeader, n: nat, bufLen: nat): (v: Verdict)
    ensures v.Keep? ==> LocalOffset(g, h) + n <= bufLen
  {
    if h.offset != (if g.at.veryFirst then 0 else g.at.offset) then Drop(g.(status := OutOfOrder))
    else if !g.at.veryFirst && (h.dataId != g.at.srcId || h.tick != g.at.tick) then
      Drop(if g.rejected + 1 >= 100 then g.(status := NoReassembly)
           else g.(rejected := g.rejected + 1, packetTick := h.tick))
    else if LocalOffset(g, h) + n > bufLen then Drop(g.(status := Overrun))
    else
      var next := Wrap32(h.offset + n);
      var g' := Progress(Cursor(false, h.dataId, h.tick, next), g.start, h.tick, g.total + n, g.packets + 1,
                         g.rejected, g.read, g.last, g.status);
      Keep(if next >= h.length then g'.(last := true, status := Done) else Head(g', bufLen))
  }

  function Turn(s: Stage, a: Arrival): (s': Stage)
    ensures s'.g.read <= s.g.read + 1
  {
    if s.g.status != Reading then s
    else
      var g := s.g.(read := s.g.read + 1);
      match a
      case RecvFailed => Stage(g.(status := RecvError), s.buf)
      case TooShort => Stage(g.(status := InternalError), s.buf)
      case Got(h, payload) =>
        match Consider(g, h, |payload|, |s.buf|)
        case Drop(g') => Stage(g', s.buf)
        case Keep(g') => Stage(g', Overwrite(s.buf, LocalOffset(g, h), payload))
  }

  function ReadStage(s0: Stage, net: seq<Arrival>): (s: Stage)
    ensures s.g.read <= s0.g.read + |net|
    decreases |net|
  {
    if net == [] then s0 else Turn(ReadStage(s0, net[..|net| - 1]), net[|net| - 1])
  }

  /** What a successful call hands to the next one. */
  function Next(g: Progress): (at: Cursor)
  {
    Cursor(false, g.at.srcId, g.packetTick, g.at.offset)
  }

  lemma ReadNext(s0: Stage, net: seq<Arrival>, k: nat)
    requires k < |net|
    ensures ReadStage(s0, net[..k + 1]) == Turn(ReadStage(s0, net[..k]), net[k])
  {
    assert net[..k + 1][..k] == net[..k];
  }

  lemma {:induction false} ReadEnd(s0: Stage, net: seq<Arrival>, k: nat)
    requires k <= |net|
    requires k < |net| ==> ReadStage(s0, net[..k]).g.status != Reading
    ensures ReadStage(s0, net) == ReadStage(s0, net[..k])
    decreases |net| - k
  {
    if k < |net| {
      ReadNext(s0, net, k);
      ReadEnd(s0, net, k + 1);
    } else {
      assert net[..k] == net;
    }
  }

  // ------------------------------------------------------------------ The routine

  method GetPacketizedBuffer(dataBuf: array<byte>, net: seq<Recv>, at: Cursor, garbage: u64)
    returns (g: Progress)
    modifies dataBuf
    ensures Stage(g, dataBuf[..]) ==
      ReadStage(Stage(Begin(at, dataBuf.Length, garbage), old(dataBuf[..])), ReceiveAll(net))
  {
    ghost var arrivals := ReceiveAll(net);
    g := Progress(at, at.offset, garbage, 0, 0, 0, 0, false, Reading);
    if dataBuf.Length < MAX_EJFAT_MTU {
      g := g.(status := Done);
    }
    ghost var s0 := Stage(g, dataBuf[..]);
    var k := 0;
    while k < |net| && g.status == Reading
      invariant k <= |net|
      invariant Stage(g, dataBuf[..]) == ReadStage(s0, arrivals[..k])
      decreases |net| - k
    {
      ReadNext(s0, arrivals, k);
      g := TurnInPlace(dataBuf, g, Receive(net[k]));
      k := k + 1;
    }
    ReadEnd(s0, arrivals, k);
  }

  /** The tests a packet has to pass, and the variables after it; `keep` says that its data is to be copied. */
  method Examine(g0: Progress, h: ReHeader, dataBytes: nat, bufLen: nat) returns (keep: bool, g: Progress)
    requires g0.status == Reading
    ensures Consider(g0, h, dataBytes, bufLen) == if keep then Keep(g) else Drop(g)
  {
    g := g0;
    if g.at.veryFirst {
      if h.offset != 0 {
        return false, g.(status := OutOfOrder);
      }
    } else {
      if h.offset != g.at.offset {
        return false, g.(status := OutOfOrder);
      }
      if h.dataId != g.at.srcId || h.tick != g.at.tick {
        return false, if g.rejected + 1 >= 100 then g.(status := NoReassembly)
                      else g.(rejected := g.rejected + 1, packetTick := h.tick);
      }
    }
    if LocalOffset(g, h) + dataBytes > bufLen {
      return false, g.(status := Overrun);
    }
    keep := true;
    var nextOffset := Wrap32(h.offset + dataBytes);
    g := Progress(Cursor(false, h.dataId, h.tick, nextOffset), g.start, h.tick, g.total + dataBytes, g.packets + 1,
                  g.rejected, g.read, g.last, g.status);
    if nextOffset >= h.length {
      g := g.(last := true, status := Done);
    } else if bufLen - g.total < MAX_EJFAT_MTU {
      g := g.(status := Done);
    }
  }

  method TurnInPlace(dataBuf: array<byte>, g0: Progress, a: Arrival) returns (g: Progress)
    requires g0.status == Reading
    modifies dataBuf
    ensures Stage(g, dataBuf[..]) == Turn(Stage(g0, old(dataBuf[..])), a)
  {
    var g1 := g0.(read := g0.read + 1);
    match a
    case RecvFailed => g := g1.(status := RecvError);
    case TooShort => g := g1.(status := InternalError);
    case Got(h, payload) =>
      ghost var s0 := Stage(g0, dataBuf[..]);
      var keep, g2 := Examine(g1, h, |payload|, dataBuf.Length);
      g := g2;
      if keep {
        TurnKeeps(s0, a, g2);
        CopyInto(dataBuf, LocalOffset(g1, h), payload);
      } else {
        TurnDrops(s0, a, g2);
      }
  }

  lemma TurnKeeps(s: Stage, a: Arrival, g: Progress)
    requires s.g.status == Reading && a.Got?
    requires Consider(s.g.(read := s.g.read + 1), a.h, |a.payload|, |s.buf|) == Keep(g)
    ensures Turn(s, a) == Stage(g, Overwrite(s.buf, LocalOffset(s.g, a.h), a.payload))
    ensures LocalOffset(s.g, a.h) + |a.payload| <= |s.buf|
  {
  }

  lemma TurnDrops(s: Stage, a: Arrival, g: Progress)
    requires s.g.status == Reading && a.Got?
    requires Consider(s.g.(read := s.g.read + 1), a.h, |a.payload|, |s.buf|) == Drop(g)
    ensures Turn(s, a) == Stage(g, s.buf)
  {
  }

  // ------------------------------------------------------------------ One call

  /** A cursor a caller may pass: the very start, or a place inside a buffer that was sent. */
  ghost predicate Placed(world: World, at: Cursor)
  {
    if at.veryFirst then at.offset == 0
    else Key(at.tick, at.srcId) in world && at.offset <= |world[Key(at.tick, at.srcId)]|
  }

  ghost predicate Small(net: seq<Arrival>)
  {
    forall i :: 0 <= i < |net| && net[i].Got? ==> |net[i].payload| <= MAX_EJFAT_MTU
  }

  ghost predicate ShortWorld(world: World)
  {
    forall key :: key in world ==> |world[key]| < 0x1_0000_0000
  }

  /** The call has the stretch of the source from `from` to its next offset in front of its buffer. */
  ghost predicate InStep(world: World, from: Cursor, bufLen: nat, s: Stage)
  {
    var g := s.g;
    && Placed(world, g.at) && g.start == from.offset && |s.buf| == bufLen
    && g.status != Overrun
    && g.at.offset == g.start + g.total && g.total <= bufLen
    && (!from.veryFirst ==> !g.at.veryFirst && g.at.srcId == from.srcId && g.at.tick == from.tick)
    && (g.at.veryFirst ==> g.total == 0 && g.status != Done)
    && (!g.at.veryFirst ==> s.buf[..g.total] == world[Key(g.at.tick, g.at.srcId)][g.start..g.at.offset])
    && (g.status == Reading ==> bufLen - g.total >= MAX_EJFAT_MTU)
    && (g.status == Done ==> g.packetTick == g.at.tick && !g.at.veryFirst)
    && (g.last ==> g.status == Done)
    && (g.status == Done ==> (g.last <==> g.at.offset == |world[Key(g.at.tick, g.at.srcId)]|))
  }

  lemma OverwriteGrows(buf: seq<byte>, total: nat, payload: seq<byte>)
    requires total + |payload| <= |buf|
    ensures Overwrite(buf, total, payload)[..total + |payload|] == buf[..total] + payload
  {
  }

  /** The next stretch of the source goes behind the stretch that is there. */
  lemma KeptBytes(source: seq<byte>, buf: seq<byte>, start: nat, total: nat, payload: seq<byte>)
    requires total + |payload| <= |buf| && start + total + |payload| <= |source|
    requires buf[..total] == source[start..start + total]
    requires payload == source[start + total..start + total + |payload|]
    ensures Overwrite(buf, total, payload)[..total + |payload|] == source[start..start + total + |payload|]
  {
    OverwriteGrows(buf, total, payload);
    SliceConcat(source, start, start + total, start + total + |payload|);
  }

  lemma InStepKeep(world: World, from: Cursor, bufLen: nat, s: Stage, a: Arrival)
    requires ShortWorld(world) && InStep(world, from, bufLen, s) && s.g.status == Reading
    requires a.Got? && Genuine(world, a) && |a.payload| <= MAX_EJFAT_MTU
    requires Consider(s.g.(read := s.g.read + 1), a.h, |a.payload|, bufLen).Keep?
    ensures InStep(world, from, bufLen, Turn(s, a))
  {
    var g, h, source := s.g, a.h, world[KeyOf(a)];
    assert |source| < 0x1_0000_0000 && h.offset == g.at.offset == g.start + g.total && LocalOffset(g, h) == g.total;
    assert s.buf[..g.total] == source[g.start..h.offset];
    TurnKeeps(s, a, Consider(g.(read := g.read + 1), h, |a.payload|, bufLen).g);
    KeptBytes(source, s.buf, g.start, g.total, a.payload);
  }

  lemma InStepDrop(world: World, from: Cursor, bufLen: nat, s: Stage, a: Arrival)
    requires ShortWorld(world) && InStep(world, from, bufLen, s) && s.g.status == Reading
    requires a.Got? && Genuine(world, a) && |a.payload| <= MAX_EJFAT_MTU
    requires Consider(s.g.(read := s.g.read + 1), a.h, |a.payload|, bufLen).Drop?
    ensures InStep(world, from, bufLen, Turn(s, a))
  {
  }

  lemma InStepTurn(world: World, from: Cursor, bufLen: nat, s: Stage, a: Arrival)
    requires ShortWorld(world) && InStep(world, from, bufLen, s)
    requires Genuine(world, a) && (a.Got? ==> |a.payload| <= MAX_EJFAT_MTU)
    ensures InStep(world, from, bufLen, Turn(s, a))
  {
    if s.g.status == Reading && a.Got? {
      match Consider(s.g.(read := s.g.read + 1), a.h, |a.payload|, bufLen)
      case Drop(_) => InStepDrop(world, from, bufLen, s, a);
      case Keep(_) => InStepKeep(world, from, bufLen, s, a);
    }
  }

  lemma {:induction false} InStepAlways(world: World, from: Cursor, buf: seq<byte>, garbage: u64, net: seq<Arrival>)
    requires ShortWorld(world) && Placed(world, from) && |buf| >= MAX_EJFAT_MTU
    requires AllGenuine(world, net) && Small(net)
    ensures InStep(world, from, |buf|, ReadStage(Stage(Begin(from, |buf|, garbage), buf), net))
    decreases |net|
  {
    if net == [] {
      assert !from.veryFirst ==> [] == world[Key(from.tick, from.srcId)][from.offset..from.offset];
    } else {
      var n := |net| - 1;
      assert AllGenuine(world, net[..n]) && Small(net[..n]);
      InStepAlways(world, from, buf, garbage, net[..n]);
      assert Genuine(world, net[n]);
      InStepTurn(world, from, |buf|, ReadStage(Stage(Begin(from, |buf|, garbage), buf), net[..n]), net[n]);
    }
  }

  /** The documentation asks for more than 9000 bytes, the code for 9978: in between nothing is ever read. */
  lemma {:induction false} ShortBufferReadsNothing(at: Cursor, buf: seq<byte>, garbage: u64, net: seq<Arrival>)
    requires |buf| < MAX_EJFAT_MTU
    ensures var s := ReadStage(Stage(Begin(at, |buf|, garbage), buf), net);
      s.g.status == Done && s.g.total == 0 && s.g.read == 0 && s.buf == buf && Next(s.g).tick == garbage
    decreases |net|
  {
    if net != [] {
      ShortBufferReadsNothing(at, buf, garbage, net[..|net| - 1]);
    }
  }

  /** A call with room for a packet goes on until it has one. */
  ghost predicate ReadsIfRoom(g: Progress, bufLen: nat)
  {
    && (g.status == Done ==> (g.packets == 0 <==> bufLen < MAX_EJFAT_MTU))
    && (g.status == Reading ==> bufLen >= MAX_EJFAT_MTU)
  }

  lemma ConsiderReads(g: Progress, h: ReHeader, n: nat, bufLen: nat)
    requires g.status == Reading && bufLen >= MAX_EJFAT_MTU
    ensures ReadsIfRoom(Consider(g, h, n, bufLen).g, bufLen)
  {
  }

  lemma TurnReads(s: Stage, a: Arrival)
    requires ReadsIfRoom(s.g, |s.buf|)
    ensures ReadsIfRoom(Turn(s, a).g, |s.buf|) && |Turn(s, a).buf| == |s.buf|
  {
    if s.g.status == Reading && a.Got? {
      ConsiderReads(s.g.(read := s.g.read + 1), a.h, |a.payload|, |s.buf|);
    }
  }

  /** A call that succeeds has stored a packet exactly if its buffer is not too short, whatever arrives. */
  lemma {:induction false} SuccessReads(at: Cursor, buf: seq<byte>, garbage: u64, net: seq<Arrival>)
    ensures var s := ReadStage(Stage(Begin(at, |buf|, garbage), buf), net);
      ReadsIfRoom(s.g, |buf|) && |s.buf| == |buf|
    decreases |net|
  {
    if net != [] {
      SuccessReads(at, buf, garbage, net[..|net| - 1]);
      TurnReads(ReadStage(Stage(Begin(at, |buf|, garbage), buf), net[..|net| - 1]), net[|net| - 1]);
    }
  }

  // ------------------------------------------------------------------ A series of calls

  function OneCall(net: seq<Arrival>, at: Cursor, buf: seq<byte>, garbage: u64): (s: Stage)
  {
    ReadStage(Stage(Begin(at, |buf|, garbage), buf), net)
  }

  /** Calls with the buffers `bufs`, each going on where the one before it stopped, as long as they succeed. */
  function Stages(net: seq<Arrival>, at: Cursor, bufs: seq<seq<byte>>, garbage: u64): (ss: seq<Stage>)
    decreases |bufs|
  {
    if bufs == [] then []
    else
      var s := OneCall(net, at, bufs[0], garbage);
      [s] + if s.g.status == Done then Stages(net[s.g.read..], Next(s.g), bufs[1..], garbage) else []
  }

  function Joined(ss: seq<Stage>): (data: seq<byte>)
    requires forall s :: s in ss ==> s.g.total <= |s.buf|
  {
    if ss == [] then [] else ss[0].buf[..ss[0].g.total] + Joined(ss[1..])
  }

  /** A good call: it succeeded, and it holds the stretch of `source` between two offsets. */
  ghost predicate Good(source: seq<byte>, s: Stage)
  {
    && s.g.status == Done && s.g.total <= |s.buf|
    && s.g.start <= s.g.at.offset <= |source|
    && s.buf[..s.g.total] == source[s.g.start..s.g.at.offset]
    && (s.g.last <==> s.g.at.offset == |source|)
  }

  /** Good calls, all for the buffer `key`, whose slices are one after the other the source from `lo` on. */
  ghost predicate Joins(source: seq<byte>, key: Key, ss: seq<Stage>, lo: nat)
  {
    && ss != [] && (forall s :: s in ss ==> Good(source, s) && Key(s.g.at.tick, s.g.at.srcId) == key)
    && var end := ss[|ss| - 1].g.at.offset;
       lo <= end && Joined(ss) == source[lo..end]
  }

  lemma JoinsOne(source: seq<byte>, key: Key, s: Stage)
    requires Good(source, s) && Key(s.g.at.tick, s.g.at.srcId) == key
    ensures Joins(source, key, [s], s.g.start)
  {
    assert [s][1..] == [];
    assert Joined([s]) == s.buf[..s.g.total] + Joined([]);
  }

  lemma JoinsFirst(source: seq<byte>, key: Key, s: Stage, rest: seq<Stage>)
    requires Good(source, s) && Key(s.g.at.tick, s.g.at.srcId) == key && Joins(source, key, rest, s.g.at.offset)
    ensures Joins(source, key, [s] + rest, s.g.start)
  {
    var ss := [s] + rest;
    assert ss[1..] == rest && ss[|ss| - 1] == rest[|rest| - 1];
    assert rest[|rest| - 1] in rest;
    SliceConcat(source, s.g.start, s.g.at.offset, rest[|rest| - 1].g.at.offset);
  }

  /**
   Staged reading: if successive calls all succeed, their slices are, one after the other, the source
   from the first call's offset to the last call's, all from one source and tick, and *last is set
   exactly by a call that reaches the end.
   */
  lemma {:induction false} StagesJoin(world: World, net: seq<Arrival>, at: Cursor, bufs: seq<seq<byte>>, garbage: u64)
    returns (key: Key)
    requires ShortWorld(world) && Placed(world, at) && AllGenuine(world, net) && Small(net)
    requires bufs != [] && forall b :: b in bufs ==> |b| >= MAX_EJFAT_MTU
    requires forall s :: s in Stages(net, at, bufs, garbage) ==> s.g.status == Done
    ensures key in world && (!at.veryFirst ==> key == Key(at.tick, at.srcId))
    ensures Joins(world[key], key, Stages(net, at, bufs, garbage), at.offset)
    decreases |bufs|
  {
    var ss, s := Stages(net, at, bufs, garbage), OneCall(net, at, bufs[0], garbage);
    assert s in ss && s == ss[0];
    key := OneCallGood(world, net, at, bufs[0], garbage);
    var net', at', bufs' := net[s.g.read..], Next(s.g), bufs[1..];
    var rest := Stages(net', at', bufs', garbage);
    assert ss == [s] + rest;
    if bufs' == [] {
      JoinsOne(world[key], key, s);
    } else {
      assert forall t :: t in rest ==> t in ss;
      assert forall b :: b in bufs' ==> b in bufs;
      GenuineSuffix(world, net, s.g.read);
      var key' := StagesJoin(world, net', at', bufs', garbage);
      JoinsFirst(world[key], key, s, rest);
    }
  }

  /** One call that succeeds is good, and leaves a place to go on from. */
  lemma OneCallGood(world: World, net: seq<Arrival>, at: Cursor, buf: seq<byte>, garbage: u64) returns (key: Key)
    requires ShortWorld(world) && Placed(world, at) && AllGenuine(world, net) && Small(net) && |buf| >= MAX_EJFAT_MTU
    requires OneCall(net, at, buf, garbage).g.status == Done
    ensures var s := OneCall(net, at, buf, garbage);
      && key == Key(s.g.at.tick, s.g.at.srcId) && key in world && (!at.veryFirst ==> key == Key(at.tick, at.srcId))
      && Good(world[key], s) && s.g.start == at.offset && s.g.read <= |net|
      && Placed(world, Next(s.g)) && Next(s.g) == s.g.at && !s.g.at.veryFirst
  {
    var s := OneCall(net, at, buf, garbage);
    InStepAlways(world, at, buf, garbage, net);
    key := Key(s.g.at.tick, s.g.at.srcId);
  }

  lemma GenuineSuffix(world: World, net: seq<Arrival>, k: nat)
    requires AllGenuine(world, net) && Small(net) && k <= |net|
    ensures AllGenuine(world, net[k..]) && Small(net[k..])
  {
    assert forall i :: 0 <= i < |net[k..]| ==> net[k..][i] == net[i + k];
  }
}
