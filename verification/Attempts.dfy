/** Every datagram that a call hands to the link, written out from the data, the payload size and the answers. */
module Attempts {
  import opened Bytes
  import opened Headers
  import opened Packetizer
  import opened PacketizerTheorems

  // ------------------------------------------------------------------ The payload size

  /** The payload size after k reductions by 20%, each rounded down. */
  function Reduced(p: nat, k: nat): (q: nat)
  {
    if k == 0 then p else 4 * Reduced(p, k - 1) / 5
  }

  /** A reduction takes away a fifth, and less than one byte more. */
  lemma ReducedByAFifth(p: nat, k: nat)
    ensures var q, q' := Reduced(p, k), Reduced(p, k + 1); 10 * q' <= 8 * q < 10 * q' + 10
  {
  }

  /** How many of the first n answers are EMSGSIZE before any other. */
  function Retries(first: bool, link: seq<LinkOutcome>, n: nat): (k: nat)
    requires n <= |link|
    ensures k <= n
  {
    if n == 0 || !first then 0
    else
      var k := Retries(first, link, n - 1);
      if k == n - 1 && link[n - 1] == TooBig then n else k
  }

  lemma {:induction false} RetriesMore(first: bool, link: seq<LinkOutcome>, m: nat, n: nat)
    requires n <= m <= |link|
    ensures Retries(first, link[..m], n) == Retries(first, link, n)
    decreases n
  {
    if n > 0 && first {
      RetriesMore(first, link, m, n - 1);
    }
  }

  // ------------------------------------------------------------------ The attempts

  /** The stretch that attempt i carries if k retries came first and left payload size q. */
  ghost predicate Carried(data: seq<byte>, off: u32, p: nat, q: nat, k: nat, i: nat, t: Tile)
  {
    if i < k then t == Tile(off, data[..Min(|data|, Reduced(p, i))])
    else if q >= 1 || data == [] then i - k < |Tiles(off, data, q)| && t == Tiles(off, data, q)[i - k]
    else t == Tile(off, [])
  }

  function TileOf(a: Attempt): (t: Tile)
  {
    Tile(a.offset, a.payload)
  }

  /** All attempts of a state, as the answers explain them. */
  ghost predicate Explained(data: seq<byte>, off: u32, p: nat, first: bool, link: seq<LinkOutcome>, s: SendState)
  {
    && |s.attempts| <= |link|
    && var k := Retries(first, link, |s.attempts|);
       && s.p == Reduced(p, k) && |s.attempts| == k + |s.accepted| + (if s.failed then 1 else 0)
       && forall i :: 0 <= i < |s.attempts| ==> Carried(data, off, p, s.p, k, i, TileOf(s.attempts[i]))
  }

  lemma ExplainedMore(
    data: seq<byte>, off: u32, p: nat, first: bool, link: seq<LinkOutcome>, m: nat, s: SendState
  )
    requires m <= |link| && Explained(data, off, p, first, link[..m], s)
    ensures Explained(data, off, p, first, link, s)
  {
    RetriesMore(first, link, m, |s.attempts|);
  }

  /** A call that is not over is as its data demands, also if the data is empty. */
  lemma PendingCutting(data: seq<byte>, off: u32, p: nat, first: bool, fast: bool, link: seq<LinkOutcome>)
    requires Transmit(Start(data, off, p, first), fast, link).Status() == Pending
    ensures Cutting(data, off, Transmit(Start(data, off, p, first), fast, link))
  {
    if fast || data != [] {
      CuttingAlways(data, off, p, first, fast, link);
    } else if EmptyRetry(data, first, link) {
      EmptyRetryDiffers(off, p, link);
    } else {
      CuttingAlways(data, off, p, first, true, link);
      PairedRuns(Start(data, off, p, first), link);
    }
  }

  /** What a call tries next is the next tile. */
  lemma NextTile(data: seq<byte>, off: u32, s: SendState)
    requires Cutting(data, off, s) && s.Status() == Pending && (s.p >= 1 || data == [])
    ensures |s.accepted| < |Tiles(off, data, s.p)|
    ensures Tiles(off, data, s.p)[|s.accepted|] == Tile(s.off, s.data[..s.Size()])
  {
    SentRemaining(off + |data| - |s.data|, s.data, s.p, s.mustSend);
  }

  /** The stretch that the next attempt carries, whatever its answer will be. */
  lemma NextCarried(data: seq<byte>, off: u32, p: nat, k: nat, s: SendState)
    requires Cutting(data, off, s) && s.Status() == Pending && s.p == Reduced(p, k)
    ensures Carried(data, off, p, s.p, k, k + |s.accepted|, Tile(s.off, s.data[..s.Size()]))
    ensures s.accepted == [] && s.data == data ==>
      Tile(s.off, s.data[..s.Size()]) == Tile(off, data[..Min(|data|, s.p)])
  {
    if s.p >= 1 || data == [] {
      NextTile(data, off, s);
    }
  }

  /** The answer starts the call again: one more retry. */
  lemma ExplainedRetry(data: seq<byte>, off: u32, p: nat, fast: bool, link: seq<LinkOutcome>, s: SendState)
    requires link != [] && link[|link| - 1] == TooBig && s.veryFirst && |s.attempts| == |link| - 1
    requires Explained(data, off, p, true, link, s) && Cutting(data, off, s) && s.Status() == Pending
    ensures Explained(data, off, p, true, link, s.AfterTooBig(fast))
  {
    var n, s' := |link| - 1, s.AfterTooBig(fast);
    assert Retries(true, link, n) == n && Retries(true, link, n + 1) == n + 1;
    NextCarried(data, off, p, n, s);
    forall i | 0 <= i < |s'.attempts| ensures Carried(data, off, p, s'.p, n + 1, i, TileOf(s'.attempts[i])) {
      if i < n {
        assert s'.attempts[i] == s.attempts[i];
        assert Carried(data, off, p, s.p, n, i, TileOf(s.attempts[i]));
      }
    }
  }

  /** Any other answer: what was tried is the next tile. */
  lemma ExplainedOn(data: seq<byte>, off: u32, p: nat, first: bool, link: seq<LinkOutcome>, s: SendState, s': SendState)
    requires link != [] && |s.attempts| == |link| - 1 && Cutting(data, off, s) && s.Status() == Pending
    requires Explained(data, off, p, first, link, s) && Retries(first, link, |link|) == Retries(first, link, |link| - 1)
    requires s'.p == s.p && s'.attempts == s.attempts + [s.Try(link[|link| - 1])]
    requires |s'.accepted| + (if s'.failed then 1 else 0) == |s.accepted| + 1
    ensures Explained(data, off, p, first, link, s')
  {
    var n, k := |link| - 1, Retries(first, link, |link| - 1);
    NextCarried(data, off, p, k, s);
    forall i | 0 <= i < |s'.attempts| ensures Carried(data, off, p, s'.p, k, i, TileOf(s'.attempts[i])) {
      if i < n {
        assert s'.attempts[i] == s.attempts[i];
      }
    }
  }

  /** After a packet was sent there are no more retries. */
  lemma {:induction false} RetriesStop(link: seq<LinkOutcome>, n: nat)
    requires n <= |link| && SomeSent(link, n)
    ensures Retries(true, link, n) < n
    decreases n
  {
    SomeSentNext(link, n - 1);
    if link[n - 1] != Sent {
      RetriesStop(link, n - 1);
    }
  }

  /** The last answer is no retry if it is not EMSGSIZE, or if it is too late for one. */
  lemma NoRetry(first: bool, link: seq<LinkOutcome>, n: nat)
    requires n + 1 == |link| && (link[n] != TooBig || !first || SomeSent(link[..n], n))
    ensures Retries(first, link, n + 1) == Retries(first, link, n)
  {
    if first && link[n] == TooBig {
      RetriesStop(link[..n], n);
      RetriesMore(first, link, n, n);
    }
  }

  lemma ExplainedStep(
    data: seq<byte>, off: u32, p: nat, first: bool, fast: bool, link: seq<LinkOutcome>, n: nat, s: SendState
  )
    requires n + 1 == |link| && |s.attempts| == n && (s.veryFirst <==> first && !SomeSent(link[..n], n))
    requires Cutting(data, off, s) && s.Status() == Pending && Explained(data, off, p, first, link, s)
    ensures Explained(data, off, p, first, link, s.Step(fast, link[n]))
  {
    if link[n] == TooBig && s.veryFirst {
      ExplainedRetry(data, off, p, fast, link, s);
    } else {
      NoRetry(first, link, n);
      ExplainedOn(data, off, p, first, link, s, s.Step(fast, link[n]));
    }
  }

  lemma {:induction false} ExplainedAlways(
    data: seq<byte>, off: u32, p: nat, first: bool, fast: bool, link: seq<LinkOutcome>
  )
    ensures Explained(data, off, p, first, link, Transmit(Start(data, off, p, first), fast, link))
    decreases |link|
  {
    if link != [] {
      var n := |link| - 1;
      var s := Transmit(Start(data, off, p, first), fast, link[..n]);
      ExplainedAlways(data, off, p, first, fast, link[..n]);
      ExplainedMore(data, off, p, first, link, n, s);
      if s.Status() == Pending {
        PendingCutting(data, off, p, first, fast, link[..n]);
        HeedsAlways(data, off, p, first, fast, link[..n]);
        ExplainedStep(data, off, p, first, fast, link, n, s);
      }
    }
  }

  /** The payload size in force: 20% less for each EMSGSIZE before the first other answer to a first buffer. */
  lemma PayloadInForce(data: seq<byte>, off: u32, p: nat, first: bool, fast: bool, link: seq<LinkOutcome>)
    ensures var s := Transmit(Start(data, off, p, first), fast, link);
      |s.attempts| <= |link| && s.p == Reduced(p, Retries(first, link, |s.attempts|))
  {
    ExplainedAlways(data, off, p, first, fast, link);
  }

  // ------------------------------------------------------------------ The wire

  /** Datagram i of a call with k retries that left payload size q. */
  function Datagram(f: Framing, data: seq<byte>, off: u32, p: nat, q: nat, k: nat, i: nat): (d: seq<byte>)
    requires i < k || (q == 0 && data != []) || i - k < |Tiles(off, data, q)|
  {
    if i < k then Packet(f, off, data[..Min(|data|, Reduced(p, i))])
    else if q == 0 && data != [] then Packet(f, off, [])
    else Packet(f, Tiles(off, data, q)[i - k].offset, Tiles(off, data, q)[i - k].payload)
  }

  lemma CarriedPacket(f: Framing, data: seq<byte>, off: u32, p: nat, q: nat, k: nat, i: nat, t: Tile)
    requires Carried(data, off, p, q, k, i, t)
    ensures i < k || (q == 0 && data != []) || i - k < |Tiles(off, data, q)|
    ensures Packet(f, t.offset, t.payload) == Datagram(f, data, off, p, q, k, i)
  {
  }

  lemma ReportedCarried(
    f: Framing, data: seq<byte>, off: u32, p: nat, first: bool, fast: bool, link: seq<LinkOutcome>, i: nat
  )
    requires i < |Reported(f, data, off, p, first, fast, link).attempts|
    ensures var attempts := Reported(f, data, off, p, first, fast, link).attempts;
      && |attempts| <= |link|
      && var k := Retries(first, link, |attempts|);
         Carried(data, off, p, Reduced(p, k), k, i, TileOf(attempts[i]))
  {
    ExplainedAlways(data, off, p, first, fast, link);
  }

  /**
   The wire of every call, of either sender: first the retries, each with the front of the data that the payload
   size of the moment allows, then the tiles for the payload size that was left, in order, as far as the call got.
   With a payload size of 0 it is empty packets for ever.
   */
  lemma WireExactly(
    f: Framing, data: seq<byte>, off: u32, p: nat, first: bool, fast: bool, link: seq<LinkOutcome>,
    wire: seq<seq<byte>>, i: nat
  )
    requires OnWire(f, Reported(f, data, off, p, first, fast, link).attempts, wire) && i < |wire|
    ensures |wire| <= |link|
    ensures var k := Retries(first, link, |wire|);
      var q := Reduced(p, k);
      && (i < k || (q == 0 && data != []) || i - k < |Tiles(off, data, q)|)
      && wire[i] == Datagram(f, data, off, p, q, k, i)
  {
    var attempts := Reported(f, data, off, p, first, fast, link).attempts;
    ReportedCarried(f, data, off, p, first, fast, link, i);
    var k := Retries(first, link, |wire|);
    CarriedPacket(f, data, off, p, Reduced(p, k), k, i, TileOf(attempts[i]));
  }

  /** The longest first payloads that fit the packet storage: copying, copying without the LB header, and fast. */
  lemma OverrunsExactly(f: Framing, dataLen: nat, p: nat)
    ensures !f.direct ==> (Overruns(f, dataLen, p, false) <==> dataLen > 65500 && p > 65500)
    ensures f.direct ==> (Overruns(f, dataLen, p, false) <==> dataLen > 65516 && p > 65516)
    ensures !f.direct ==> (Overruns(f, dataLen, p, true) <==> dataLen > 65536 && p > 65536)
  {
  }

  /** What the load balancer and the receiver read in a packet that goes by way of the load balancer. */
  lemma PacketFields(f: Framing, offset: u32, payload: seq<byte>)
    requires !f.direct
    ensures var s := Packet(f, offset, payload);
      && |s| == 36 + |payload| && s[36..] == payload
      && ParseLbHeader(s) == Some(LbHeader(f.version % 256, f.protocol % 256, f.entropy % 0x1_0000, f.tick))
      && ParseReHeader(s[16..]) == ReHeader(f.version % 16, f.dataId, offset, f.fullLen, f.tick)
      && s[17] == f.reserved % 256
  {
    var s, h := Packet(f, offset, payload), ReHeader(f.version, f.dataId, offset, f.fullLen, f.tick);
    var lb, re := SetLbMetadata(f.tick, f.version, f.protocol, f.entropy), SetReMetadata(h, f.reserved);
    ParseSetLb(f.tick, f.version, f.protocol, f.entropy, re + payload);
    ParseSetRe(h, f.reserved, payload);
    assert s == lb + (re + payload);
    assert s[16..] == re + payload;
  }

  /** A packet that goes direct has the reassembly header alone. */
  lemma DirectPacketFields(f: Framing, offset: u32, payload: seq<byte>)
    requires f.direct
    ensures var s := Packet(f, offset, payload);
      && |s| == 20 + |payload| && s[20..] == payload && s[1] == f.reserved % 256
      && ParseReHeader(s) == ReHeader(f.version % 16, f.dataId, offset, f.fullLen, f.tick)
  {
    var h := ReHeader(f.version, f.dataId, offset, f.fullLen, f.tick);
    ParseSetRe(h, f.reserved, payload);
    assert Packet(f, offset, payload) == SetReMetadata(h, f.reserved) + payload;
  }
}
