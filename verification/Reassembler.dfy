/**
 Reassembling one buffer from the packets of a socket: getCompletePacketizedBuffer, which fills a
 buffer of fixed size, and getCompleteAllocatedBuffer, which doubles its buffer when a packet does not fit.
 */
module Reassembler {
  import opened Bytes
  import opened Headers

  const MAX_EJFAT_MTU: nat := 9978

  /** The initial prevTick is UINT_MAX, a 32-bit value, although ticks have 64 bits. */
  const INITIAL_PREV_TICK: u64 := 0xffff_ffff

  /** What recvfrom gives, and what the receiver makes of it. */
  datatype Recv = Failure | Datagram(bytes: seq<byte>)
  datatype Arrival = RecvFailed | TooShort | Got(h: ReHeader, payload: seq<byte>)

  function Receive(r: Recv): (a: Arrival)
  {
    if r.Failure? then RecvFailed
    else if |r.bytes| < RE_HEADER_BYTES then TooShort
    else Got(ParseReHeader(r.bytes), r.bytes[RE_HEADER_BYTES..])
  }

  function ReceiveAll(net: seq<Recv>): (arrivals: seq<Arrival>)
    ensures |arrivals| == |net|
    ensures forall i :: 0 <= i < |net| ==> arrivals[i] == Receive(net[i])
  {
    if net == [] then [] else ReceiveAll(net[..|net| - 1]) + [Receive(net[|net| - 1])]
  }

  datatype ErrorCode = RECV_MSG | INTERNAL_ERROR | BUF_TOO_SMALL | OUT_OF_MEM
  datatype Fault = DivideByZero | WriteOutOfBounds
  datatype Result =
    | Waiting
    | Complete(bytes: nat, tick: u64, dataId: u16)
    | Failed(code: ErrorCode)
    | Crash(fault: Fault)

  /** The loop variables that decide what happens to a packet. */
  datatype Control = Control(prevTick: u64, dumpTick: bool, veryFirst: bool, srcId: u16, total: nat)

  datatype Decision = Skip(c: Control) | Accept(c: Control)

  /** Reject other sources, dump ticks whose first packet did not come first, abandon a tick for a newer one. */
  function Decide(c: Control, h: ReHeader): (d: Decision)
  {
    var srcId := if c.veryFirst then h.dataId else c.srcId;
    var total := if c.veryFirst then 0 else c.total;
    if h.dataId != srcId then Skip(c)
    else if h.tick != c.prevTick then
      if h.offset != 0 then Skip(Control(h.tick, true, true, srcId, total))
      else Accept(Control(h.tick, false, false, srcId, 0))
    else if c.dumpTick then Skip(Control(c.prevTick, true, true, srcId, total))
    else Accept(Control(c.prevTick, false, false, srcId, total))
  }

  /** How a buffer that is too short is dealt with. Realloc fails above `limit` bytes and leaves `fill` behind. */
  datatype Policy = Fixed | Growing(limit: nat, fill: byte)

  datatype Room = Fits(buf: seq<byte>) | NoRoom(why: Result)

  function MakeRoom(policy: Policy, buf: seq<byte>, need: nat): (r: Room)
    ensures r.Fits? ==> need <= |r.buf| && buf <= r.buf
  {
    if need <= |buf| then Fits(buf)
    else if policy.Fixed? then NoRoom(Failed(BUF_TOO_SMALL))
    else if 2 * |buf| > policy.limit then NoRoom(Failed(OUT_OF_MEM))
    else if need > 2 * |buf| then NoRoom(Crash(WriteOutOfBounds))
    else Fits(buf + seq(|buf|, _ => policy.fill))
  }

  datatype State = State(c: Control, buf: seq<byte>, result: Result)

  function Store(policy: Policy, c: Control, buf: seq<byte>, h: ReHeader, payload: seq<byte>): (s: State)
  {
    match MakeRoom(policy, buf, h.offset + |payload|)
    case NoRoom(why) => State(c, buf, why)
    case Fits(room) =>
      var c' := c.(total := c.total + |payload|);
      State(c', Overwrite(room, h.offset, payload),
            if c'.total >= h.length then Complete(c'.total, h.tick, h.dataId) else Waiting)
  }

  /** One turn of the loop. */
  function Step(policy: Policy, s: State, a: Arrival): (s': State)
  {
    if s.result != Waiting then s
    else match a
      case RecvFailed => s.(result := Failed(RECV_MSG))
      case TooShort => s.(result := Failed(INTERNAL_ERROR))
      case Got(h, payload) =>
        if s.c.veryFirst && payload == [] then s.(result := Crash(DivideByZero))
        else match Decide(s.c, h)
          case Skip(c) => s.(c := c)
          case Accept(c) => Store(policy, c, s.buf, h, payload)
  }

  function Init(buf: seq<byte>): (s: State)
  {
    State(Control(INITIAL_PREV_TICK, false, true, 0, 0), buf, Waiting)
  }

  /** A call on a socket that delivers `net`; it is still waiting if it wants more packets than that. */
  function Run(policy: Policy, s0: State, net: seq<Arrival>): (s: State)
    decreases |net|
  {
    if net == [] then s0 else Step(policy, Run(policy, s0, net[..|net| - 1]), net[|net| - 1])
  }

  lemma RunNext(policy: Policy, s0: State, net: seq<Arrival>, k: nat)
    requires k < |net|
    ensures Run(policy, s0, net[..k + 1]) == Step(policy, Run(policy, s0, net[..k]), net[k])
  {
    assert net[..k + 1][..k] == net[..k];
  }

  lemma {:induction false} RunEnd(policy: Policy, s0: State, net: seq<Arrival>, k: nat)
    requires k <= |net|
    requires k < |net| ==> Run(policy, s0, net[..k]).result != Waiting
    ensures Run(policy, s0, net) == Run(policy, s0, net[..k])
    decreases |net| - k
  {
    if k < |net| {
      RunNext(policy, s0, net, k);
      RunEnd(policy, s0, net, k + 1);
    } else {
      assert net[..k] == net;
    }
  }

  // ------------------------------------------------------------- The two routines

  /** The part of a turn before the packet's data is looked at; `accept` says whether to store it. */
  method Judge(c: Control, h: ReHeader) returns (accept: bool, c': Control)
    ensures Decide(c, h) == if accept then Accept(c') else Skip(c')
  {
    var prevTick, dumpTick, veryFirstRead := c.prevTick, c.dumpTick, c.veryFirst;
    var srcId, totalBytesRead := c.srcId, c.total;
    if veryFirstRead {
      totalBytesRead := 0;
      srcId := h.dataId;
    } else if h.dataId != srcId {
      return false, c;
    }
    if h.tick != prevTick {
      if h.offset != 0 {
        return false, Control(h.tick, true, true, srcId, totalBytesRead);
      }
      if !veryFirstRead {
        totalBytesRead := 0;
        srcId := h.dataId;
      }
      dumpTick := false;
    } else if dumpTick {
      return false, Control(prevTick, dumpTick, true, srcId, totalBytesRead);
    }
    return true, Control(h.tick, dumpTick, false, srcId, totalBytesRead);
  }

  method GetCompletePacketizedBuffer(dataBuf: array<byte>, net: seq<Recv>) returns (r: Result)
    modifies dataBuf
    ensures var s := Run(Fixed, Init(old(dataBuf[..])), ReceiveAll(net));
      r == s.result && dataBuf[..] == s.buf
  {
    ghost var s0, arrivals := Init(dataBuf[..]), ReceiveAll(net);
    var c := Control(INITIAL_PREV_TICK, false, true, 0, 0);
    var k := 0;
    r := Waiting;
    while k < |net| && r == Waiting
      invariant k <= |net|
      invariant State(c, dataBuf[..], r) == Run(Fixed, s0, arrivals[..k])
      decreases |net| - k
    {
      RunNext(Fixed, s0, arrivals, k);
      c, r := TurnFixed(dataBuf, c, Receive(net[k]));
      k := k + 1;
    }
    RunEnd(Fixed, s0, arrivals, k);
  }

  method TurnFixed(dataBuf: array<byte>, c: Control, a: Arrival) returns (c': Control, r: Result)
    modifies dataBuf
    ensures State(c', dataBuf[..], r) == Step(Fixed, State(c, old(dataBuf[..]), Waiting), a)
  {
    match a
    case RecvFailed => return c, Failed(RECV_MSG);
    case TooShort => return c, Failed(INTERNAL_ERROR);
    case Got(h, payload) =>
      if c.veryFirst && payload == [] {
        return c, Crash(DivideByZero);
      }
      var accept, next := Judge(c, h);
      if !accept {
        return next, Waiting;
      }
      if h.offset + |payload| > dataBuf.Length {
        return next, Failed(BUF_TOO_SMALL);
      }
      CopyInto(dataBuf, h.offset, payload);
      c' := next.(total := next.total + |payload|);
      r := if c'.total >= h.length then Complete(c'.total, h.tick, h.dataId) else Waiting;
  }

  /** The size getCompleteAllocatedBuffer allocates: 100 kB if none is asked for, never below one jumbo packet. */
  function StartSize(bufLen: nat, given: bool): (n: nat)
    ensures n >= MAX_EJFAT_MTU && n >= bufLen
    ensures bufLen >= 9978 ==> n == bufLen
    ensures 0 < bufLen < 9978 ==> n == 9978
    ensures bufLen == 0 ==> n == if given then 9978 else 100000
  {
    if !given && bufLen == 0 then 100000 else Max(bufLen, MAX_EJFAT_MTU)
  }

  /** What it starts to fill: the caller's buffer if that holds a jumbo packet, else fresh memory. */
  function StartBuffer(given: bool, contents: seq<byte>, bufLen: nat, fill: byte): (buf: seq<byte>)
    ensures |buf| >= MAX_EJFAT_MTU
    ensures given && |contents| >= 9978 ==> buf == contents
    ensures !(given && |contents| >= 9978) ==>
      |buf| == StartSize(bufLen, given) && forall i :: 0 <= i < |buf| ==> buf[i] == fill
  {
    if given && |contents| >= MAX_EJFAT_MTU then contents else seq(StartSize(bufLen, given), _ => fill)
  }

  /** What a whole call amounts to. The initial malloc may fail like any later realloc. */
  function Allocated(given: bool, contents: seq<byte>, bufLen: nat, limit: nat, fill: byte, net: seq<Recv>): (s: State)
  {
    var buf := StartBuffer(given, contents, bufLen, fill);
    if !(given && |contents| >= MAX_EJFAT_MTU) && |buf| > limit then Init(buf).(result := Failed(OUT_OF_MEM))
    else Run(Growing(limit, fill), Init(buf), ReceiveAll(net))
  }

  /** A call fails before it has read anything exactly if it has to allocate more than there is. */
  lemma StartFails(given: bool, contents: seq<byte>, bufLen: nat, limit: nat, fill: byte)
    ensures Allocated(given, contents, bufLen, limit, fill, []).result ==
      if !(given && |contents| >= 9978) && StartSize(bufLen, given) > limit then Failed(OUT_OF_MEM) else Waiting
  {
  }

  method GetCompleteAllocatedBuffer(buffer: array?<byte>, bufLen: nat, limit: nat, fill: byte, net: seq<Recv>)
    returns (dataBuf: array?<byte>, r: Result)
    requires buffer != null ==> bufLen == buffer.Length
    modifies buffer
    ensures var was := if buffer != null then old(buffer[..]) else [];
      var s := Allocated(buffer != null, was, bufLen, limit, fill, net);
      r == s.result && (r.Complete? ==> dataBuf != null && dataBuf[..] == s.buf)
  {
    if buffer != null && bufLen >= MAX_EJFAT_MTU {
      dataBuf, r := Assemble(buffer, limit, fill, net);
    } else {
      var n :=
        if buffer == null && bufLen == 0 then 100000
        else if bufLen < MAX_EJFAT_MTU then MAX_EJFAT_MTU
        else bufLen;
      if n > limit {
        return buffer, Failed(OUT_OF_MEM);
      }
      var malloced := new byte[n](_ => fill);
      assert malloced[..] == seq(n, _ => fill);
      dataBuf, r := Assemble(malloced, limit, fill, net);
    }
  }

  method Assemble(buffer: array<byte>, limit: nat, fill: byte, net: seq<Recv>)
    returns (dataBuf: array<byte>, r: Result)
    modifies buffer
    ensures var s := Run(Growing(limit, fill), Init(old(buffer[..])), ReceiveAll(net));
      r == s.result && dataBuf[..] == s.buf
  {
    ghost var policy, s0, arrivals := Growing(limit, fill), Init(buffer[..]), ReceiveAll(net);
    dataBuf := buffer;
    var c := Control(INITIAL_PREV_TICK, false, true, 0, 0);
    var k := 0;
    r := Waiting;
    while k < |net| && r == Waiting
      invariant k <= |net|
      invariant dataBuf == buffer || fresh(dataBuf)
      invariant State(c, dataBuf[..], r) == Run(policy, s0, arrivals[..k])
      decreases |net| - k
    {
      RunNext(policy, s0, arrivals, k);
      dataBuf, c, r := TurnGrowing(dataBuf, limit, fill, c, Receive(net[k]));
      k := k + 1;
    }
    RunEnd(policy, s0, arrivals, k);
  }

  method TurnGrowing(buffer: array<byte>, limit: nat, fill: byte, c: Control, a: Arrival)
    returns (dataBuf: array<byte>, c': Control, r: Result)
    modifies buffer
    ensures dataBuf == buffer || fresh(dataBuf)
    ensures State(c', dataBuf[..], r) == Step(Growing(limit, fill), State(c, old(buffer[..]), Waiting), a)
  {
    dataBuf := buffer;
    match a
    case RecvFailed => return dataBuf, c, Failed(RECV_MSG);
    case TooShort => return dataBuf, c, Failed(INTERNAL_ERROR);
    case Got(h, payload) =>
      if c.veryFirst && payload == [] {
        return dataBuf, c, Crash(DivideByZero);
      }
      var accept, next := Judge(c, h);
      if !accept {
        return dataBuf, next, Waiting;
      }
      if h.offset + |payload| > dataBuf.Length {
        if 2 * dataBuf.Length > limit {
          return dataBuf, next, Failed(OUT_OF_MEM);
        }
        if h.offset + |payload| > 2 * dataBuf.Length {
          return dataBuf, next, Crash(WriteOutOfBounds);
        }
        dataBuf := Realloc(buffer, fill);
      }
      CopyInto(dataBuf, h.offset, payload);
      c' := next.(total := next.total + |payload|);
      r := if c'.total >= h.length then Complete(c'.total, h.tick, h.dataId) else Waiting;
  }

  /** realloc to twice the size: the old contents, then bytes of no particular value. */
  method Realloc(buffer: array<byte>, fill: byte) returns (dataBuf: array<byte>)
    ensures fresh(dataBuf) && dataBuf[..] == buffer[..] + seq(buffer.Length, _ => fill)
  {
    var n := buffer.Length;
    dataBuf := new byte[2 * n](i => fill);
    CopyInto(dataBuf, 0, buffer[..]);
  }
}
