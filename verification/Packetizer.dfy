/**
 Cutting a buffer into packets and sending them: the copying sender and the fast sender,
 which writes each new header in place over bytes it has already sent.
 */
module Packetizer {
  import opened Bytes
  import opened Headers

  /** What one call of send reports. TooBig is EMSGSIZE, Failed is any other error. */
  datatype LinkOutcome = Sent | TooBig | Failed

  /** Everything that goes into the headers of every packet of a call. */
  datatype Framing = Framing(
    tick: u64, protocol: int, entropy: int, version: int, dataId: u16, fullLen: u32,
    direct: bool, reserved: int)

  function HeaderSize(f: Framing): (n: nat)
  {
    if f.direct then RE_HEADER_BYTES else HEADER_BYTES
  }

  function Header(f: Framing, offset: u32): (s: seq<byte>)
    ensures |s| == HeaderSize(f)
  {
    (if f.direct then [] else SetLbMetadata(f.tick, f.version, f.protocol, f.entropy))
    + SetReMetadata(ReHeader(f.version, f.dataId, offset, f.fullLen, f.tick), f.reserved)
  }

  function Packet(f: Framing, offset: u32, payload: seq<byte>): (s: seq<byte>)
  {
    Header(f, offset) + payload
  }

  /** A stretch of the full buffer carried by one packet, under its offset as a uint32_t. */
  datatype Tile = Tile(offset: u32, payload: seq<byte>)

  /** The reference: `data`, which starts at `off` in the full buffer, cut into pieces of p bytes. */
  function Tiles(off: nat, data: seq<byte>, p: nat): (ts: seq<Tile>)
    requires p >= 1 || data == []
    ensures ts != []
    decreases |data|
  {
    if |data| <= p then [Tile(Wrap32(off), data)]
    else [Tile(Wrap32(off), data[..p])] + Tiles(off + p, data[p..], p)
  }

  function Payloads(ts: seq<Tile>): (s: seq<byte>)
  {
    if ts == [] then [] else ts[0].payload + Payloads(ts[1..])
  }

  /** Consecutive tiles from `off` up to `end`: no gap and no overlap. */
  ghost predicate Contiguous(ts: seq<Tile>, off: nat, end: nat)
  {
    if ts == [] then off == end
    else ts[0].offset == Wrap32(off) && Contiguous(ts[1..], off + |ts[0].payload|, end)
  }

  // ---------------------------------------------------------------- Tiles

  lemma {:induction false} TilesConcat(off: nat, data: seq<byte>, p: nat)
    requires p >= 1 || data == []
    ensures Payloads(Tiles(off, data, p)) == data
    ensures Contiguous(Tiles(off, data, p), off, off + |data|)
    decreases |data|
  {
    var ts := Tiles(off, data, p);
    if |data| > p {
      TilesConcat(off + p, data[p..], p);
      assert ts[1..] == Tiles(off + p, data[p..], p);
      assert data == data[..p] + data[p..];
    } else {
      assert ts[1..] == [];
    }
  }

  /** The number c of packets is |data| / p rounded up, and one for no data. */
  lemma {:induction false} TilesCount(off: nat, data: seq<byte>, p: nat)
    requires p >= 1
    ensures var c := |Tiles(off, data, p)|;
      (c - 1) * p <= |data| <= c * p && (data == [] ==> c == 1) && (data != [] ==> (c - 1) * p < |data|)
    decreases |data|
  {
    if |data| > p {
      TilesCount(off + p, data[p..], p);
      var c := |Tiles(off, data, p)|;
      assert (c - 1) * p == (c - 2) * p + p && c * p == (c - 1) * p + p;
    }
  }

  /** No piece is longer than p, and none is empty unless there is no data. */
  lemma {:induction false} TileSizes(off: nat, data: seq<byte>, p: nat, i: nat)
    requires (p >= 1 || data == []) && i < |Tiles(off, data, p)|
    ensures |Tiles(off, data, p)[i].payload| <= p && (data != [] ==> Tiles(off, data, p)[i].payload != [])
    decreases i
  {
    if |data| > p && i > 0 {
      TileSizes(off + p, data[p..], p, i - 1);
    }
  }

  // ------------------------------------------------- The send loop as a state machine

  /** How a call stands. Overrun is a first packet that does not fit the storage it is put together in. */
  datatype SendStatus = Ok | Error | Pending | Overrun

  /** One call of send: the stretch of the buffer it carried and what the link said. */
  datatype Attempt = Attempt(offset: u32, payload: seq<byte>, outcome: LinkOutcome)

  /** The datagrams that a series of attempts handed to send. */
  ghost predicate OnWire(f: Framing, attempts: seq<Attempt>, wire: seq<seq<byte>>)
  {
    && |wire| == |attempts|
    && forall i :: 0 <= i < |attempts| ==> wire[i] == Packet(f, attempts[i].offset, attempts[i].payload)
  }

  /**
   The loop at its head: `data` still to go, the next packet at `off`, payload size p in force.
   `mustSend` holds until a first packet has been tried, so that an empty buffer is sent too.
   `attempts` and `accepted` log what was handed to the link and what it took; `failed` is an
   unrecoverable error.
   */
  datatype SendState = SendState(data: seq<byte>, off: u32, p: nat, veryFirst: bool, mustSend: bool,
                                 attempts: seq<Attempt>, accepted: seq<Tile>, failed: bool)
  {
    function Status(): (r: SendStatus)
    {
      if failed then Error else if !mustSend && data == [] then Ok else Pending
    }

    function Size(): (n: nat)
      ensures n <= |data|
    {
      if |data| > p then p else |data|
    }

    function Try(outcome: LinkOutcome): (a: Attempt)
    {
      Attempt(off, data[..Size()], outcome)
    }

    function AfterSent(): (s: SendState)
    {
      SendState(data[Size()..], Wrap32(off + Size()), p, false, false,
                attempts + [Try(Sent)], accepted + [Tile(off, data[..Size()])], false)
    }

    /** Start again with a payload 20% smaller. Only the fast sender still insists on sending. */
    function AfterTooBig(retryEmpty: bool): (s: SendState)
    {
      SendState(data, off, p * 8 / 10, true, mustSend && retryEmpty, attempts + [Try(TooBig)], accepted, false)
    }

    function AfterError(outcome: LinkOutcome): (s: SendState)
    {
      SendState(data, off, p, veryFirst, mustSend, attempts + [Try(outcome)], accepted, true)
    }

    function Step(retryEmpty: bool, outcome: LinkOutcome): (s: SendState)
    {
      if Status() != Pending then this
      else if outcome == Sent then AfterSent()
      else if outcome == TooBig && veryFirst then AfterTooBig(retryEmpty)
      else AfterError(outcome)
    }
  }

  /** A call from state s0 on: where the outcomes of `link` take it. It is pending if they run out first. */
  function Transmit(s0: SendState, retryEmpty: bool, link: seq<LinkOutcome>): (s: SendState)
    decreases |link|
  {
    if link == [] then s0
    else Transmit(s0, retryEmpty, link[..|link| - 1]).Step(retryEmpty, link[|link| - 1])
  }

  /** A call on a buffer. */
  function Start(data: seq<byte>, off: u32, p: nat, firstBuffer: bool): (s: SendState)
  {
    SendState(data, off, p, firstBuffer, true, [], [], false)
  }

  lemma TransmitStep(s0: SendState, retryEmpty: bool, link: seq<LinkOutcome>, k: nat)
    requires k < |link|
    ensures Transmit(s0, retryEmpty, link[..k + 1]) == Transmit(s0, retryEmpty, link[..k]).Step(retryEmpty, link[k])
  {
    assert link[..k + 1][..k] == link[..k];
  }

  /** Once a call has returned, what the link would say next is of no interest. */
  lemma {:induction false} TransmitEnd(s0: SendState, retryEmpty: bool, link: seq<LinkOutcome>, k: nat)
    requires k <= |link|
    requires k < |link| ==> Transmit(s0, retryEmpty, link[..k]).Status() != Pending
    ensures Transmit(s0, retryEmpty, link) == Transmit(s0, retryEmpty, link[..k])
    decreases |link| - k
  {
    if k < |link| {
      TransmitStep(s0, retryEmpty, link, k);
      TransmitEnd(s0, retryEmpty, link, k + 1);
    } else {
      assert link[..k] == link;
    }
  }

  lemma {:induction false} TransmitSplit(s0: SendState, retryEmpty: bool, a: seq<LinkOutcome>, b: seq<LinkOutcome>)
    ensures Transmit(s0, retryEmpty, a + b) == Transmit(Transmit(s0, retryEmpty, a), retryEmpty, b)
    decreases |b|
  {
    if b == [] {
      assert a + b == a;
    } else {
      TransmitSplit(s0, retryEmpty, a, b[..|b| - 1]);
      assert (a + b)[..|a + b| - 1] == a + b[..|b| - 1];
    }
  }

  /** After the first packet the payload size is settled, and the log only grows. */
  lemma {:induction false} TransmitLater(s0: SendState, retryEmpty: bool, link: seq<LinkOutcome>)
    requires !s0.veryFirst
    ensures var s := Transmit(s0, retryEmpty, link);
      && !s.veryFirst && s.p == s0.p && s0.attempts <= s.attempts
      && (s0.Status() == Pending && link != [] ==> |s.attempts| > |s0.attempts|)
      && (link != [] && s0.Status() != Pending ==> s == s0)
    decreases |link|
  {
    if link != [] {
      TransmitLater(s0, retryEmpty, link[..|link| - 1]);
    }
  }

  lemma OnWireNext(f: Framing, s: SendState, wire: seq<seq<byte>>, datagram: seq<byte>, outcome: LinkOutcome)
    requires OnWire(f, s.attempts, wire)
    requires datagram == Packet(f, s.off, s.data[..s.Size()])
    ensures OnWire(f, s.attempts + [s.Try(outcome)], wire + [datagram])
  {
  }

  // ------------------------------------------------------------- What a call reports

  /** The bytes of packet storage: the fast sender's is longer by the headers it also holds. */
  const STORAGE: nat := 65536

  /** The first packet does not fit the storage in which it is put together. The source does not check. */
  predicate Overruns(f: Framing, dataLen: nat, p: nat, fast: bool)
  {
    Min(dataLen, p) + HeaderSize(f) > if fast then STORAGE + HEADER_BYTES else STORAGE
  }

  /** What the caller and the link see of a call. */
  datatype Report = Report(status: SendStatus, attempts: seq<Attempt>, newOffset: u32, packetsSent: nat)

  function Reported(
    f: Framing, data: seq<byte>, off: u32, p: nat, first: bool, fast: bool, link: seq<LinkOutcome>
  ): (r: Report)
    ensures r.status == Overrun <==> Overruns(f, |data|, p, fast)
  {
    if Overruns(f, |data|, p, fast) then Report(Overrun, [], off, 0)
    else
      var s := Transmit(Start(data, off, p, first), fast, link);
      Report(s.Status(), s.attempts, if s.Status() == Ok then s.off else off, |s.accepted|)
  }

  /** These results and this wire are what the report says. */
  ghost predicate Shows(
    f: Framing, r: Report, status: SendStatus, wire: seq<seq<byte>>, newOffset: u32, packetsSent: nat
  )
  {
    status == r.status && OnWire(f, r.attempts, wire) && newOffset == r.newOffset && packetsSent == r.packetsSent
  }

  // ------------------------------------------------------------- The two senders

  /** Write both headers and the data into a packet buffer, or one header when the packet goes direct. */
  method Compose(f: Framing, storage: nat, offset: u32, payload: seq<byte>) returns (datagram: seq<byte>)
    requires HeaderSize(f) + |payload| <= storage
    ensures datagram == Packet(f, offset, payload)
  {
    var buffer := new byte[storage];
    var lbHeaderSize := 0;
    if !f.direct {
      lbHeaderSize := LB_HEADER_BYTES;
      CopyInto(buffer, 0, SetLbMetadata(f.tick, f.version, f.protocol, f.entropy));
    }
    CopyInto(buffer, lbHeaderSize,
             SetReMetadata(ReHeader(f.version, f.dataId, offset, f.fullLen, f.tick), f.reserved));
    assert buffer[..HeaderSize(f)] == Header(f, offset);
    CopyInto(buffer, HeaderSize(f), payload);
    assert buffer[..HeaderSize(f)] == Header(f, offset);
    assert buffer[HeaderSize(f)..HeaderSize(f) + |payload|] == payload;
    datagram := buffer[..HeaderSize(f) + |payload|];
  }

  /** One attempt: the next piece of the buffer is copied behind its headers and handed to the link. */
  method AttemptCopying(f: Framing, dataBuffer: seq<byte>, from: nat, n: nat, offset: u32, ghost s: SendState,
                        wire0: seq<seq<byte>>, ghost outcome: LinkOutcome)
    returns (wire: seq<seq<byte>>)
    requires from + n <= |dataBuffer| && n == s.Size() && HeaderSize(f) + n <= 65536
    requires s.data == dataBuffer[from..] && s.off == offset && OnWire(f, s.attempts, wire0)
    ensures OnWire(f, s.attempts + [s.Try(outcome)], wire)
  {
    SliceOfSuffix(dataBuffer, from, n);
    var datagram := Compose(f, 65536, offset, dataBuffer[from..from + n]);
    OnWireNext(f, s, wire0, datagram, outcome);
    wire := wire0 + [datagram];
  }

  /** The variables of the loop: where to get data from, the offset, the payload size and the flags. */
  datatype Loop = Loop(from: nat, offset: u32, payload: nat, veryFirstPacket: bool, firstLoop: bool, packetsSent: nat)

  ghost predicate Tracks(v: Loop, dataBuffer: seq<byte>, s: SendState)
  {
    && v.from <= |dataBuffer| && s.data == dataBuffer[v.from..] && s.off == v.offset && s.p == v.payload
    && s.veryFirst == v.veryFirstPacket && s.mustSend == v.firstLoop && |s.accepted| == v.packetsSent
  }

  /** One turn of the loop. */
  method TurnCopying(
    f: Framing, dataBuffer: seq<byte>, v: Loop, ghost s: SendState, wire0: seq<seq<byte>>, outcome: LinkOutcome
  )
    returns (v': Loop, wire: seq<seq<byte>>, error: bool)
    requires Tracks(v, dataBuffer, s) && s.Status() == Pending && OnWire(f, s.attempts, wire0)
    requires Min(|dataBuffer|, v.payload) + HeaderSize(f) <= 65536
    ensures var s' := s.Step(false, outcome);
      Tracks(v', dataBuffer, s') && OnWire(f, s'.attempts, wire) && error == s'.failed && v'.payload <= v.payload
  {
    var remaining := |dataBuffer| - v.from;
    var bytesToWrite := if remaining > v.payload then v.payload else remaining;
    wire := AttemptCopying(f, dataBuffer, v.from, bytesToWrite, v.offset, s, wire0, outcome);
    SliceOfSuffix(dataBuffer, v.from, bytesToWrite);
    error := false;
    if outcome == Sent {
      v' := Loop(v.from + bytesToWrite, Wrap32(v.offset + bytesToWrite), v.payload, false, false, v.packetsSent + 1);
    } else if outcome == TooBig && v.veryFirstPacket {
      v' := v.(payload := v.payload * 8 / 10, firstLoop := false);
    } else {
      v', error := v, true;
    }
  }

  /** sendPacketizedBufferSendNew: headers and data are copied into a separate packet buffer. */
  method SendCopying(f: Framing, dataBuffer: seq<byte>, maxUdpPayload: nat, offset: u32, firstBuffer: bool,
                     link: seq<LinkOutcome>)
    returns (status: SendStatus, wire: seq<seq<byte>>, newOffset: u32, packetsSent: nat)
    ensures Shows(f, Reported(f, dataBuffer, offset, maxUdpPayload, firstBuffer, false, link),
                  status, wire, newOffset, packetsSent)
  {
    if Overruns(f, |dataBuffer|, maxUdpPayload, false) {
      return Overrun, [], offset, 0;
    }
    ghost var s0 := Start(dataBuffer, offset, maxUdpPayload, firstBuffer);
    ghost var s := s0;
    var v, k, error := Loop(0, offset, maxUdpPayload, firstBuffer, true, 0), 0, false;
    wire := [];
    while (v.firstLoop || v.from < |dataBuffer|) && !error && k < |link|
      invariant k <= |link| && Tracks(v, dataBuffer, s) && v.payload <= maxUdpPayload && error == s.failed
      invariant OnWire(f, s.attempts, wire) && s == Transmit(s0, false, link[..k])
      decreases |link| - k
    {
      TransmitStep(s0, false, link, k);
      v, wire, error := TurnCopying(f, dataBuffer, v, s, wire, link[k]);
      s := s.Step(false, link[k]);
      k := k + 1;
    }
    TransmitEnd(s0, false, link, k);
    status := if error then Error else if v.firstLoop || v.from < |dataBuffer| then Pending else Ok;
    newOffset := if status == Ok then v.offset else offset;
    packetsSent := v.packetsSent;
  }

  /** The header goes in front of the data to be sent, which is not touched. */
  method ComposeInPlace(f: Framing, mem: array<byte>, at: nat, offset: u32, n: nat) returns (datagram: seq<byte>)
    requires !f.direct && HEADER_BYTES <= at && at + n <= mem.Length
    modifies mem
    ensures Headed(old(mem[..]), mem[..], at)
    ensures datagram == Packet(f, offset, old(mem[at..at + n]))
  {
    var writeHeaderTo := at - HEADER_BYTES;
    CopyInto(mem, writeHeaderTo, SetLbMetadata(f.tick, f.version, f.protocol, f.entropy));
    CopyInto(mem, writeHeaderTo + LB_HEADER_BYTES,
             SetReMetadata(ReHeader(f.version, f.dataId, offset, f.fullLen, f.tick), f.reserved));
    assert mem[writeHeaderTo..at] == Header(f, offset);
    assert mem[at..at + n] == old(mem[at..at + n]);
    datagram := mem[writeHeaderTo..at + n];
    SliceConcat(mem[..], writeHeaderTo, at, at + n);
    assert datagram == mem[..][writeHeaderTo..at + n];
  }

  /** Only the 36 bytes before `at` differ, and they start with the header's first byte. */
  ghost predicate Headed(was: seq<byte>, now: seq<byte>, at: nat)
  {
    && HEADER_BYTES <= at <= |was| == |now|
    && now[at - HEADER_BYTES] == 'L' as int
    && forall i :: 0 <= i < |now| && !(at - HEADER_BYTES <= i < at) ==> now[i] == was[i]
  }

  /**
   What in-place headers have done to the memory, with payload size p and `sent` bytes of the buffer
   sent. Unsent data and everything behind the buffer are intact; in front of the buffer nothing has
   changed unless a header went over a payload shorter than itself.
   */
  ghost predicate Touched(was: seq<byte>, now: seq<byte>, base: nat, p: nat, sent: nat)
  {
    && HEADER_BYTES <= base && p <= sent && base + sent <= |was| == |now|
    && now[base + sent..] == was[base + sent..]
    && now[..Min(base, base + p - HEADER_BYTES)] == was[..Min(base, base + p - HEADER_BYTES)]
    && now[base + p - HEADER_BYTES] == 'L' as int
  }

  lemma TouchedNext(was: seq<byte>, now: seq<byte>, now': seq<byte>, base: nat, p: nat, sent: nat, n: nat)
    requires HEADER_BYTES <= base && base + sent + n <= |was|
    requires Touched(was, now, base, p, sent) || (now == was && sent == p)
    requires Headed(now, now', base + sent)
    ensures Touched(was, now', base, p, sent) && Touched(was, now', base, p, sent + n)
  {
    assert now'[base + sent..] == was[base + sent..];
    SliceOfSuffix(now', base + sent, n);
    SliceOfSuffix(was, base + sent, n);
  }

  lemma TouchedAll(was: seq<byte>, now: seq<byte>, base: nat, p: nat, sent: nat, dataLen: nat)
    requires Touched(was, now, base, p, sent) && sent <= dataLen && base + dataLen <= |was|
    ensures Touched(was, now, base, p, dataLen)
  {
    SliceOfSuffix(now, base + sent, dataLen - sent);
    SliceOfSuffix(was, base + sent, dataLen - sent);
  }

  /** The data of the next packet is still in memory. */
  lemma UnsentData(was: seq<byte>, now: seq<byte>, base: nat, p: nat, sent: nat, dataLen: nat, n: nat)
    requires HEADER_BYTES <= base && p <= sent && sent + n <= dataLen && base + dataLen <= |was|
    requires Touched(was, now, base, p, sent) || now == was
    ensures now[base + sent..base + sent + n] == was[base..base + dataLen][sent..][..n]
  {
    SliceOfSuffix(now, base + sent, n);
    SliceOfSuffix(was, base + sent, n);
    assert was[base..base + dataLen][sent..] == was[base + sent..base + dataLen];
    SliceOfSlice(was, base + sent, base + dataLen, n);
  }

  /** One attempt after the first: the header is written over the bytes in front of the data. */
  method AttemptInPlace(f: Framing, mem: array<byte>, base: nat, ghost dataLen: nat, from: nat, n: nat, offset: u32,
                        ghost s: SendState, ghost was: seq<byte>, wire0: seq<seq<byte>>, ghost outcome: LinkOutcome)
    returns (wire: seq<seq<byte>>)
    requires !f.direct && HEADER_BYTES <= base && s.p <= from && from + n <= dataLen
    requires base + dataLen <= mem.Length == |was|
    requires Touched(was, mem[..], base, s.p, from) || (mem[..] == was && from == s.p)
    requires s.data == was[base..base + dataLen][from..] && s.off == offset && n == s.Size()
    requires OnWire(f, s.attempts, wire0)
    modifies mem
    ensures OnWire(f, s.attempts + [s.Try(outcome)], wire)
    ensures Touched(was, mem[..], base, s.p, from) && Touched(was, mem[..], base, s.p, from + n)
  {
    ghost var before := mem[..];
    UnsentData(was, before, base, s.p, from, dataLen, n);
    assert mem[base + from..base + from + n] == before[base + from..base + from + n];
    var datagram := ComposeInPlace(f, mem, base + from, offset, n);
    TouchedNext(was, before, mem[..], base, s.p, from, n);
    OnWireNext(f, s, wire0, datagram, outcome);
    wire := wire0 + [datagram];
  }

  /** One turn of the loop after the first packet. */
  method TurnInPlace(f: Framing, mem: array<byte>, base: nat, dataLen: nat, v: Loop, ghost s: SendState,
                     ghost was: seq<byte>, wire0: seq<seq<byte>>, outcome: LinkOutcome)
    returns (v': Loop, wire: seq<seq<byte>>, error: bool)
    requires !f.direct && HEADER_BYTES <= base && v.payload <= v.from < dataLen && base + dataLen <= mem.Length == |was|
    requires Touched(was, mem[..], base, v.payload, v.from) || (mem[..] == was && v.from == v.payload)
    requires Tracks(v, was[base..base + dataLen], s) && !v.veryFirstPacket && !v.firstLoop && !s.failed
    requires OnWire(f, s.attempts, wire0)
    modifies mem
    ensures var s' := s.Step(true, outcome);
      Tracks(v', was[base..base + dataLen], s') && OnWire(f, s'.attempts, wire) && error == s'.failed
    ensures v.from <= v'.from <= dataLen && !v'.veryFirstPacket && !v'.firstLoop && v'.payload == v.payload
    ensures Touched(was, mem[..], base, v.payload, v'.from)
  {
    var remaining := dataLen - v.from;
    var bytesToWrite := if remaining > v.payload then v.payload else remaining;
    wire := AttemptInPlace(f, mem, base, dataLen, v.from, bytesToWrite, v.offset, s, was, wire0, outcome);
    SliceOfSuffix(was[base..base + dataLen], v.from, bytesToWrite);
    if outcome == Sent {
      v' := Loop(v.from + bytesToWrite, Wrap32(v.offset + bytesToWrite), v.payload, false, false, v.packetsSent + 1);
      error := false;
    } else {
      v', error := v, true;
    }
  }

  /**
   The fast sender once its first packet, of v0.payload bytes, is out: every further header is written over
   the bytes in front of the data it announces, and header and data are sent in one piece.
   */
  method SendInPlace(f: Framing, mem: array<byte>, base: nat, dataLen: nat, link: seq<LinkOutcome>,
                     v0: Loop, ghost s0: SendState, wire0: seq<seq<byte>>)
    returns (v: Loop, ghost s: SendState, wire: seq<seq<byte>>, error: bool)
    requires !f.direct && HEADER_BYTES <= base && v0.from == v0.payload < dataLen && base + dataLen <= mem.Length
    requires Tracks(v0, mem[..][base..base + dataLen], s0) && !v0.veryFirstPacket && !v0.firstLoop && !s0.failed
    requires OnWire(f, s0.attempts, wire0)
    modifies mem
    ensures s == Transmit(s0, true, link) && OnWire(f, s.attempts, wire) && error == s.failed
    ensures Tracks(v, old(mem[..])[base..base + dataLen], s)
    ensures if link == [] then mem[..] == old(mem[..])
            else Touched(old(mem[..]), mem[..], base, v0.payload, dataLen)
  {
    ghost var was := mem[..];
    var k := 0;
    v, s, wire, error := v0, s0, wire0, false;
    while v.from < dataLen && !error && k < |link|
      invariant v.payload == v0.payload <= v.from <= dataLen && k <= |link|
      invariant if k == 0 then mem[..] == was && v == v0 else Touched(was, mem[..], base, v0.payload, v.from)
      invariant Tracks(v, was[base..base + dataLen], s) && !v.veryFirstPacket && !v.firstLoop && error == s.failed
      invariant OnWire(f, s.attempts, wire) && s == Transmit(s0, true, link[..k])
      decreases |link| - k
    {
      TransmitStep(s0, true, link, k);
      v, wire, error := TurnInPlace(f, mem, base, dataLen, v, s, was, wire, link[k]);
      s := s.Step(true, link[k]);
      k := k + 1;
    }
    TransmitEnd(s0, true, link, k);
    if k > 0 {
      TouchedAll(was, mem[..], base, v0.payload, v.from, dataLen);
    }
  }

  /** Some attempt comes after an accepted packet: the fast sender then writes into the data buffer. */
  ghost predicate InPlace(attempts: seq<Attempt>)
  {
    exists j :: 0 <= j < |attempts| - 1 && attempts[j].outcome == Sent
  }

  /** What a fast send leaves of the memory outside its buffer. */
  ghost predicate Outside(was: seq<byte>, now: seq<byte>, base: nat, dataLen: nat, s: SendState)
    requires HEADER_BYTES <= base && base + dataLen <= |was| == |now|
  {
    && now[base + dataLen..] == was[base + dataLen..]
    && if InPlace(s.attempts) && s.p < HEADER_BYTES
       then
         && now[base + s.p - HEADER_BYTES] == 'L' as int
         && now[..base + s.p - HEADER_BYTES] == was[..base + s.p - HEADER_BYTES]
       else now[..base] == was[..base]
  }

  lemma TouchedOutside(was: seq<byte>, now: seq<byte>, base: nat, dataLen: nat, s1: SendState, link: seq<LinkOutcome>)
    requires base + dataLen <= |was|
    requires Touched(was, now, base, s1.p, dataLen) && link != [] && !s1.veryFirst && s1.Status() == Pending
    requires s1.attempts != [] && s1.attempts[|s1.attempts| - 1].outcome == Sent
    ensures Outside(was, now, base, dataLen, Transmit(s1, true, link))
  {
    TransmitLater(s1, true, link);
    var s := Transmit(s1, true, link);
    assert s.attempts[|s1.attempts| - 1] == s1.attempts[|s1.attempts| - 1];
  }

  /** Tries of the first packet: none of them accepted, or just the last one. */
  ghost predicate Trying(f: Framing, data: seq<byte>, v: Loop, s: SendState, wire: seq<seq<byte>>, error: bool)
  {
    && Tracks(v, data, s) && OnWire(f, s.attempts, wire) && error == s.failed && !InPlace(s.attempts)
    && if v.firstLoop then v.from == 0 && NoneSent(s.attempts)
       else !error && v.from == Min(|data|, v.payload) && !v.veryFirstPacket
            && s.attempts != [] && s.attempts[|s.attempts| - 1].outcome == Sent
  }

  /** The first packet, copied together in separate storage. */
  method TurnFirst(
    f: Framing, data: seq<byte>, v: Loop, ghost s: SendState, wire0: seq<seq<byte>>, outcome: LinkOutcome
  )
    returns (v': Loop, wire: seq<seq<byte>>, error: bool)
    requires Trying(f, data, v, s, wire0, false) && v.firstLoop && !f.direct && Min(|data|, v.payload) <= 65536
    ensures Trying(f, data, v', s.Step(true, outcome), wire, error) && v'.payload <= v.payload
  {
    var bytesToWrite := if |data| > v.payload then v.payload else |data|;
    var datagram := Compose(f, 65536 + HEADER_BYTES, v.offset, data[..bytesToWrite]);
    assert data[0..] == data;
    OnWireNext(f, s, wire0, datagram, outcome);
    OneSent(s.attempts, s.Try(outcome));
    wire, error := wire0 + [datagram], false;
    if outcome == Sent {
      v' := Loop(bytesToWrite, Wrap32(v.offset + bytesToWrite), v.payload, false, false, v.packetsSent + 1);
    } else if outcome == TooBig && v.veryFirstPacket {
      v' := v.(payload := v.payload * 8 / 10);
    } else {
      v', error := v, true;
    }
  }

  /**
   The start of a fast send: the first packet is tried with ever smaller payloads. Afterwards the call has
   failed, or the link has not answered yet, or the first packet is out and the rest is to follow in place.
   */
  method SendFirst(
    f: Framing, data: seq<byte>, maxUdpPayload: nat, offset: u32, firstBuffer: bool, link: seq<LinkOutcome>
  )
    returns (v: Loop, ghost s: SendState, wire: seq<seq<byte>>, error: bool, k: nat)
    requires !f.direct && Min(|data|, maxUdpPayload) <= 65536
    ensures k <= |link| && s == Transmit(Start(data, offset, maxUdpPayload, firstBuffer), true, link[..k])
    ensures Trying(f, data, v, s, wire, error) && (v.firstLoop ==> error || k == |link|)
  {
    ghost var s0 := Start(data, offset, maxUdpPayload, firstBuffer);
    v, s, wire, error, k := Loop(0, offset, maxUdpPayload, firstBuffer, true, 0), s0, [], false, 0;
    assert data[0..] == data;
    while k < |link| && v.firstLoop && !error
      invariant k <= |link| && s == Transmit(s0, true, link[..k])
      invariant Trying(f, data, v, s, wire, error) && v.payload <= maxUdpPayload
    {
      TransmitStep(s0, true, link, k);
      v, wire, error := TurnFirst(f, data, v, s, wire, link[k]);
      s := s.Step(true, link[k]);
      k := k + 1;
    }
  }

  ghost predicate NoneSent(attempts: seq<Attempt>)
  {
    forall j :: 0 <= j < |attempts| ==> attempts[j].outcome != Sent
  }

  lemma OneSent(attempts: seq<Attempt>, a: Attempt)
    requires NoneSent(attempts)
    ensures !InPlace(attempts + [a]) && (a.outcome != Sent ==> NoneSent(attempts + [a]))
  {
  }

  /**
   sendPacketizedBufferFastNew. The data is mem[base..base + dataLen]; the 36 bytes in front of it
   belong to somebody else and are part of the model so that a header written there shows.
   */
  method SendFast(f: Framing, mem: array<byte>, base: nat, dataLen: nat, maxUdpPayload: nat, offset: u32,
                  firstBuffer: bool, link: seq<LinkOutcome>)
    returns (status: SendStatus, wire: seq<seq<byte>>, newOffset: u32, packetsSent: nat)
    requires HEADER_BYTES <= base && base + dataLen <= mem.Length
    requires !f.direct && f.reserved == 0
    modifies mem
    ensures Shows(f, Reported(f, old(mem[base..base + dataLen]), offset, maxUdpPayload, firstBuffer, true, link),
                  status, wire, newOffset, packetsSent)
    ensures status == Overrun ==> mem[..] == old(mem[..])
    ensures status != Overrun ==> Outside(old(mem[..]), mem[..], base, dataLen,
      Transmit(Start(old(mem[base..base + dataLen]), offset, maxUdpPayload, firstBuffer), true, link))
  {
    if Overruns(f, dataLen, maxUdpPayload, true) {
      return Overrun, [], offset, 0;
    }
    var data := mem[base..base + dataLen];
    ghost var was, s0 := mem[..], Start(data, offset, maxUdpPayload, firstBuffer);
    var v, s1, w, error, k := SendFirst(f, data, maxUdpPayload, offset, firstBuffer, link);
    ghost var s := s1;
    wire := w;
    assert was[base..base + dataLen] == data;
    if v.firstLoop || v.from == dataLen || k == |link| {
      TransmitEnd(s0, true, link, k);
    } else {
      TransmitSplit(s0, true, link[..k], link[k..]);
      assert link == link[..k] + link[k..];
      v, s, wire, error := SendInPlace(f, mem, base, dataLen, link[k..], v, s1, w);
      TouchedOutside(was, mem[..], base, dataLen, s1, link[k..]);
    }
    status := if error then Error else if v.firstLoop || v.from < dataLen then Pending else Ok;
    newOffset := if status == Ok then v.offset else offset;
    packetsSent := v.packetsSent;
  }
}
