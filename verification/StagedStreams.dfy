/** What a staged call makes of every stream, and that the packets of a buffer in order are read to its end. */
module StagedStreams {
  import opened Bytes
  import opened Headers
  import opened Reassembler
  import opened ReassemblerTheorems
  import opened StagedReader

  // ------------------------------------------------------------------ Every stream

  /** The buffer a call reads: the caller's, or at the very start that of the first packet. */
  function Wanted(at: Cursor, net: seq<Arrival>): (key: Key)
  {
    if at.veryFirst && net != [] && net[0].Got? then KeyOf(net[0]) else Key(at.tick, at.srcId)
  }

  /** The packets of a buffer, in the order in which they come. */
  function Ours(net: seq<Arrival>, key: Key): (s: seq<Arrival>)
    ensures |s| <= |net| && forall i :: 0 <= i < |s| ==> s[i].Got?
  {
    if net == [] then []
    else
      var n := |net| - 1;
      Ours(net[..n], key) + if net[n].Got? && KeyOf(net[n]) == key then [net[n]] else []
  }

  function BytesOf(s: seq<Arrival>): (n: nat)
    requires forall i :: 0 <= i < |s| ==> s[i].Got?
  {
    if s == [] then 0 else BytesOf(s[..|s| - 1]) + |s[|s| - 1].payload|
  }

  /** The offset the next packet has to have: where the last one of the buffer ended, in 32 bits. */
  function NextOffset(at: Cursor, net: seq<Arrival>): (x: u32)
  {
    var ours := Ours(net, Wanted(at, net));
    if at.veryFirst && net == [] then 0
    else if ours == [] then at.offset
    else Wrap32(EndOf(ours[|ours| - 1]))
  }

  /** A packet of another source or tick than those of the first one. */
  predicate Foreign(at: Cursor, net: seq<Arrival>, a: Arrival)
    requires a.Got?
  {
    !(at.veryFirst && net == []) && KeyOf(a) != Wanted(at, net)
  }

  /** The variables of a call that goes on, in terms of what it was given and what came. */
  ghost predicate Keeps(at: Cursor, net: seq<Arrival>, g: Progress)
  {
    var ours := Ours(net, Wanted(at, net));
    && g.start == at.offset && g.read == |net| && g.packets == |ours| && g.rejected == |net| - |ours|
    && g.total == BytesOf(ours) && !g.last && (at.veryFirst && net != [] ==> net[0].Got?)
    && if at.veryFirst && net == [] then g.at == at
       else g.at == Cursor(false, Wanted(at, net).dataId, Wanted(at, net).tick, NextOffset(at, net))
  }

  lemma OursNext(net: seq<Arrival>, a: Arrival, key: Key)
    ensures Ours(net + [a], key) == if a.Got? && KeyOf(a) == key then Ours(net, key) + [a] else Ours(net, key)
  {
    assert (net + [a])[..|net|] == net;
  }

  lemma BytesNext(s: seq<Arrival>, a: Arrival)
    requires (forall i :: 0 <= i < |s| ==> s[i].Got?) && a.Got?
    ensures BytesOf(s + [a]) == BytesOf(s) + |a.payload|
  {
    assert (s + [a])[..|s|] == s;
  }

  lemma WantedNext(at: Cursor, net: seq<Arrival>, a: Arrival)
    ensures net != [] || !at.veryFirst ==> Wanted(at, net + [a]) == Wanted(at, net)
    ensures net == [] && at.veryFirst && a.Got? ==> Wanted(at, net + [a]) == KeyOf(a)
  {
  }

  /** The status of a call after one more packet. */
  function NextStatus(at: Cursor, net: seq<Arrival>, a: Arrival, bufLen: nat): (r: StageStatus)
  {
    var ours := Ours(net, Wanted(at, net));
    if a.RecvFailed? then RecvError
    else if a.TooShort? then InternalError
    else if a.h.offset != NextOffset(at, net) then OutOfOrder
    else if Foreign(at, net, a) then (if |net| - |ours| + 1 >= 100 then NoReassembly else Reading)
    else if Wrap32(a.h.offset + 0x1_0000_0000 - at.offset) + |a.payload| > bufLen then Overrun
    else if Wrap32(EndOf(a)) >= a.h.length || bufLen - BytesOf(ours) - |a.payload| < MAX_EJFAT_MTU then Done
    else Reading
  }

  /** What one more packet does to a call that goes on. */
  ghost predicate Goes(at: Cursor, net: seq<Arrival>, a: Arrival, bufLen: nat, g: Progress)
  {
    && g.status == NextStatus(at, net, a, bufLen)
    && (g.status == Done ==> a.Got? && (g.last <==> Wrap32(EndOf(a)) >= a.h.length))
    && (g.status == Reading ==> Keeps(at, net + [a], g))
  }

  /** A packet of another source or tick. */
  lemma KeepsForeign(at: Cursor, net: seq<Arrival>, g: Progress, a: Arrival, bufLen: nat)
    requires Keeps(at, net, g) && g.status == Reading && a.Got? && a.h.offset == NextOffset(at, net)
    requires Foreign(at, net, a)
    ensures Goes(at, net, a, bufLen, Consider(g.(read := g.read + 1), a.h, |a.payload|, bufLen).g)
  {
    OursNext(net, a, Wanted(at, net));
    WantedNext(at, net, a);
  }

  /** Where a packet's data goes, and what is left to be read behind it. */
  lemma LocalWraps(g: Progress, h: ReHeader)
    ensures LocalOffset(g, h) == Wrap32(h.offset + 0x1_0000_0000 - g.start)
  {
    if h.offset >= g.start {
      assert Wrap32(h.offset + 0x1_0000_0000 - g.start) == Wrap32(h.offset - g.start);
    }
  }

  lemma OursAfter(at: Cursor, net: seq<Arrival>, a: Arrival)
    requires a.Got? && !Foreign(at, net, a) && (at.veryFirst && net != [] ==> net[0].Got?)
    ensures var ours := Ours(net, Wanted(at, net));
      && Wanted(at, net + [a]) == KeyOf(a) && Ours(net + [a], KeyOf(a)) == ours + [a]
      && BytesOf(ours + [a]) == BytesOf(ours) + |a.payload| && NextOffset(at, net + [a]) == Wrap32(EndOf(a))
  {
    var ours := Ours(net, Wanted(at, net));
    WantedNext(at, net, a);
    OursNext(net, a, KeyOf(a));
    BytesNext(ours, a);
    if at.veryFirst && net == [] {
      assert Ours(net, KeyOf(a)) == [] == ours;
    }
  }

  /** What becomes of a packet of the buffer that is read, at its place. */
  lemma ConsiderOurs(g: Progress, h: ReHeader, n: nat, bufLen: nat)
    requires g.status == Reading && !g.last && h.offset == if g.at.veryFirst then 0 else g.at.offset
    requires !g.at.veryFirst ==> h.dataId == g.at.srcId && h.tick == g.at.tick
    ensures var v, next := Consider(g, h, n, bufLen), Wrap32(h.offset + n);
      if LocalOffset(g, h) + n > bufLen then v == Drop(g.(status := Overrun))
      else v == Keep(Progress(Cursor(false, h.dataId, h.tick, next), g.start, h.tick, g.total + n, g.packets + 1,
        g.rejected, g.read, next >= h.length,
        if next >= h.length || bufLen - (g.total + n) < MAX_EJFAT_MTU then Done else Reading))
  {
  }

  /** The variables after a packet that was kept. */
  lemma KeepsMore(at: Cursor, net: seq<Arrival>, g: Progress, a: Arrival, g': Progress)
    requires Keeps(at, net, g) && a.Got? && !Foreign(at, net, a)
    requires g'.at == Cursor(false, a.h.dataId, a.h.tick, Wrap32(EndOf(a))) && g'.start == g.start && !g'.last
    requires g'.total == g.total + |a.payload| && g'.packets == g.packets + 1
    requires g'.rejected == g.rejected && g'.read == g.read + 1
    ensures Keeps(at, net + [a], g')
  {
    OursAfter(at, net, a);
  }

  /** A packet of the buffer that is read, at its place. */
  lemma KeepsOurs(at: Cursor, net: seq<Arrival>, g: Progress, a: Arrival, bufLen: nat)
    requires Keeps(at, net, g) && g.status == Reading && a.Got? && a.h.offset == NextOffset(at, net)
    requires !Foreign(at, net, a)
    ensures Goes(at, net, a, bufLen, Consider(g.(read := g.read + 1), a.h, |a.payload|, bufLen).g)
  {
    var g1 := g.(read := g.read + 1);
    var g' := Consider(g1, a.h, |a.payload|, bufLen).g;
    LocalWraps(g1, a.h);
    ConsiderOurs(g1, a.h, |a.payload|, bufLen);
    if g'.status == Reading {
      KeepsMore(at, net, g, a, g');
    }
  }

  /** A packet with a header changes the variables as its verdict says. */
  lemma TurnGot(s: Stage, a: Arrival)
    requires s.g.status == Reading && a.Got?
    ensures Turn(s, a).g == Consider(s.g.(read := s.g.read + 1), a.h, |a.payload|, |s.buf|).g
    ensures |Turn(s, a).buf| == |s.buf|
  {
  }

  /** A packet at the wrong offset. */
  lemma KeepsWrong(at: Cursor, net: seq<Arrival>, g: Progress, a: Arrival, bufLen: nat)
    requires Keeps(at, net, g) && g.status == Reading && a.Got? && a.h.offset != NextOffset(at, net)
    ensures Goes(at, net, a, bufLen, Consider(g.(read := g.read + 1), a.h, |a.payload|, bufLen).g)
  {
  }

  lemma KeepsVerdict(at: Cursor, net: seq<Arrival>, g: Progress, a: Arrival, bufLen: nat, g': Progress)
    requires Keeps(at, net, g) && g.status == Reading && a.Got?
    requires g' == Consider(g.(read := g.read + 1), a.h, |a.payload|, bufLen).g
    ensures Goes(at, net, a, bufLen, g')
  {
    if a.h.offset != NextOffset(at, net) {
      KeepsWrong(at, net, g, a, bufLen);
    } else if Foreign(at, net, a) {
      KeepsForeign(at, net, g, a, bufLen);
    } else {
      KeepsOurs(at, net, g, a, bufLen);
    }
  }

  /** A read that fails, or gives less than a header. */
  lemma TurnFails(s: Stage, a: Arrival)
    requires s.g.status == Reading && !a.Got?
    ensures Turn(s, a).g.status == (if a.RecvFailed? then RecvError else InternalError) && Turn(s, a).buf == s.buf
  {
  }

  lemma KeepsNext(at: Cursor, net: seq<Arrival>, s: Stage, a: Arrival, s': Stage)
    requires Keeps(at, net, s.g) && s.g.status == Reading && s' == Turn(s, a)
    ensures Goes(at, net, a, |s.buf|, s'.g) && |s'.buf| == |s.buf|
  {
    if a.Got? {
      TurnGot(s, a);
      KeepsVerdict(at, net, s.g, a, |s.buf|, s'.g);
    } else {
      TurnFails(s, a);
    }
  }

  lemma KeepsAtFirst(at: Cursor, bufLen: nat, garbage: u64)
    ensures Keeps(at, [], Begin(at, bufLen, garbage))
  {
  }

  /** A call that goes on has gone on before. */
  lemma GoesOnBefore(s: Stage, a: Arrival)
    requires Turn(s, a).g.status == Reading
    ensures s.g.status == Reading
  {
  }

  /** As long as a call goes on, every packet is of its buffer and at its place, or of another one and counted. */
  lemma {:induction false} KeepsAlways(at: Cursor, buf: seq<byte>, garbage: u64, net: seq<Arrival>)
    requires OneCall(net, at, buf, garbage).g.status == Reading
    ensures Keeps(at, net, OneCall(net, at, buf, garbage).g) && |OneCall(net, at, buf, garbage).buf| == |buf|
    decreases |net|
  {
    if net == [] {
      KeepsAtFirst(at, |buf|, garbage);
    } else {
      var n := |net| - 1;
      var s := OneCall(net[..n], at, buf, garbage);
      assert OneCall(net, at, buf, garbage) == Turn(s, net[n]);
      GoesOnBefore(s, net[n]);
      KeepsAlways(at, buf, garbage, net[..n]);
      KeepsNext(at, net[..n], s, net[n], OneCall(net, at, buf, garbage));
      assert net[..n] + [net[n]] == net;
    }
  }

  /**
   For every stream: what the next packet makes of a call that goes on, told by the stream alone. OutOfOrder exactly
   if it has another offset than the end of those kept; at the right offset it is rejected exactly if its source or
   tick is not that of the first one, and the hundredth rejected ends the call; one that is kept ends the call
   exactly if it reaches its length, and only then sets *last, or leaves less than a jumbo packet free.
   */
  lemma NextRead(at: Cursor, buf: seq<byte>, garbage: u64, net: seq<Arrival>, a: Arrival)
    requires OneCall(net, at, buf, garbage).g.status == Reading
    ensures var g := OneCall(net + [a], at, buf, garbage).g;
      && g.status == NextStatus(at, net, a, |buf|)
      && (g.status == Done ==> a.Got? && (g.last <==> Wrap32(EndOf(a)) >= a.h.length))
      && (g.status == Reading ==> g.rejected == |net| + 1 - |Ours(net + [a], Wanted(at, net + [a]))|)
  {
    assert (net + [a])[..|net|] == net;
    KeepsAlways(at, buf, garbage, net);
    KeepsNext(at, net, OneCall(net, at, buf, garbage), a, OneCall(net + [a], at, buf, garbage));
  }

  // ------------------------------------------------------------------ Packets in order

  /** A packet of the buffer, not empty. */
  ghost predicate Piece(source: seq<byte>, key: Key, a: Arrival)
  {
    a.Got? && KeyOf(a) == key && a.payload != [] && Genuine(map[key := source], a)
  }

  /** The packets of a buffer from an offset to its end, one after the other. */
  ghost predicate InLine(source: seq<byte>, key: Key, net: seq<Arrival>, from: nat)
  {
    && net != [] && (forall i :: 0 <= i < |net| ==> Piece(source, key, net[i]))
    && net[0].h.offset == from && EndOf(net[|net| - 1]) == |source|
    && forall i :: 0 < i < |net| ==> net[i].h.offset == EndOf(net[i - 1])
  }

  /** A cursor at the start of everything, or in this buffer. */
  ghost predicate Before(at: Cursor, key: Key)
  {
    if at.veryFirst then at.offset == 0 else Key(at.tick, at.srcId) == key
  }

  /** Where the first k packets end. */
  function EndAfter(net: seq<Arrival>, from: nat, k: nat): (x: nat)
    requires k <= |net| && forall i :: 0 <= i < |net| ==> net[i].Got?
  {
    if k == 0 then from else EndOf(net[k - 1])
  }

  /** With k packets the call is over: the buffer has ended, or there is less than a jumbo packet's room left. */
  ghost predicate Full(net: seq<Arrival>, from: nat, bufLen: nat, k: nat)
    requires k <= |net| && forall i :: 0 <= i < |net| ==> net[i].Got?
  {
    k == |net| || bufLen - (EndAfter(net, from, k) - from) < MAX_EJFAT_MTU
  }

  /** The variables after k packets in order. */
  ghost predicate After(source: seq<byte>, key: Key, net: seq<Arrival>, at: Cursor, k: nat, g: Progress, bufLen: nat)
    requires k <= |net| && forall i :: 0 <= i < |net| ==> net[i].Got?
  {
    var e := EndAfter(net, at.offset, k);
    && at.offset <= e <= |source| < 0x1_0000_0000
    && g.at == (if k == 0 then at else Cursor(false, key.dataId, key.tick, e)) && g.start == at.offset
    && g.total == e - at.offset <= bufLen && g.packets == g.read == k && g.rejected == 0
    && (k > 0 ==> g.packetTick == key.tick) && (g.last <==> k == |net|)
    && g.status == if Full(net, at.offset, bufLen, k) then Done else Reading
  }

  /** What was read is the source from the first offset on. */
  ghost predicate Holds(source: seq<byte>, from: nat, n: nat, buf: seq<byte>)
  {
    n <= |buf| && from + n <= |source| && buf[..n] == source[from..from + n]
  }

  /** Where packet k is, and that none is the end but the last. */
  lemma InLineAt(source: seq<byte>, key: Key, net: seq<Arrival>, from: nat, k: nat)
    requires InLine(source, key, net, from) && k < |net|
    ensures Piece(source, key, net[k]) && net[k].h.offset == EndAfter(net, from, k)
    ensures |source| == net[k].h.length && EndOf(net[k]) <= |source|
    ensures EndOf(net[k]) == |source| <==> k + 1 == |net|
  {
    assert Piece(source, key, net[k]);
    if k + 1 < |net| {
      assert Piece(source, key, net[k + 1]);
      assert net[k + 1].h.offset == EndOf(net[k]);
    }
  }

  /** Room for packet k: it is no more than a jumbo packet, or there is room for all. */
  ghost predicate RoomFor(source: seq<byte>, from: nat, a: Arrival, bufLen: nat)
    requires a.Got?
  {
    |a.payload| <= MAX_EJFAT_MTU || bufLen >= |source| - from
  }

  /** The next packet in order is kept. */
  lemma AfterKept(source: seq<byte>, key: Key, net: seq<Arrival>, at: Cursor, k: nat, g: Progress, bufLen: nat)
    requires InLine(source, key, net, at.offset) && Before(at, key) && k < |net|
    requires After(source, key, net, at, k, g, bufLen) && !Full(net, at.offset, bufLen, k)
    requires RoomFor(source, at.offset, net[k], bufLen)
    ensures var v := Consider(g.(read := g.read + 1), net[k].h, |net[k].payload|, bufLen);
      && v.Keep? && After(source, key, net, at, k + 1, v.g, bufLen)
      && v.g.total == g.total + |net[k].payload| && LocalOffset(g, net[k].h) == g.total
  {
    InLineAt(source, key, net, at.offset, k);
    ConsiderOurs(g.(read := g.read + 1), net[k].h, |net[k].payload|, bufLen);
  }

  lemma AfterNext(source: seq<byte>, key: Key, net: seq<Arrival>, at: Cursor, k: nat, s: Stage)
    requires InLine(source, key, net, at.offset) && Before(at, key) && k < |net|
    requires After(source, key, net, at, k, s.g, |s.buf|) && !Full(net, at.offset, |s.buf|, k)
    requires RoomFor(source, at.offset, net[k], |s.buf|) && Holds(source, at.offset, s.g.total, s.buf)
    ensures var s' := Turn(s, net[k]);
      && |s'.buf| == |s.buf| && After(source, key, net, at, k + 1, s'.g, |s.buf|)
      && Holds(source, at.offset, s'.g.total, s'.buf)
  {
    var a, g1 := net[k], s.g.(read := s.g.read + 1);
    AfterKept(source, key, net, at, k, s.g, |s.buf|);
    TurnKeeps(s, a, Consider(g1, a.h, |a.payload|, |s.buf|).g);
    InLineAt(source, key, net, at.offset, k);
    KeptBytes(source, s.buf, at.offset, s.g.total, a.payload);
  }

  lemma {:induction false} AfterAlways(
    source: seq<byte>, key: Key, net: seq<Arrival>, at: Cursor, buf: seq<byte>, garbage: u64, k: nat
  )
    requires InLine(source, key, net, at.offset) && Before(at, key) && k <= |net| && |buf| >= MAX_EJFAT_MTU
    requires forall i :: 0 <= i < |net| ==> RoomFor(source, at.offset, net[i], |buf|)
    requires forall j :: 0 <= j < k ==> !Full(net, at.offset, |buf|, j)
    ensures var s := OneCall(net[..k], at, buf, garbage);
      |s.buf| == |buf| && After(source, key, net, at, k, s.g, |buf|) && Holds(source, at.offset, s.g.total, s.buf)
    decreases k
  {
    if k == 0 {
      InLineAt(source, key, net, at.offset, 0);
    } else {
      AfterAlways(source, key, net, at, buf, garbage, k - 1);
      assert net[..k][..k - 1] == net[..k - 1];
      AfterNext(source, key, net, at, k - 1, OneCall(net[..k - 1], at, buf, garbage));
    }
  }

  lemma {:induction false} FirstFull(net: seq<Arrival>, from: nat, bufLen: nat, k0: nat) returns (k: nat)
    requires (forall i :: 0 <= i < |net| ==> net[i].Got?) && k0 <= |net|
    requires forall j :: 0 <= j < k0 ==> !Full(net, from, bufLen, j)
    ensures k0 <= k <= |net| && Full(net, from, bufLen, k) && forall j :: 0 <= j < k ==> !Full(net, from, bufLen, j)
    decreases |net| - k0
  {
    if Full(net, from, bufLen, k0) {
      k := k0;
    } else {
      k := FirstFull(net, from, bufLen, k0 + 1);
    }
  }

  /**
   A call on the packets of a buffer in order, with room for a jumbo packet to begin with: it reads k of them, and
   succeeds with exactly the first that reaches the end or leaves less than a jumbo packet free, with that stretch
   of the source in front of its buffer, and *last set exactly at the end.
   */
  lemma ReadsInOrder(source: seq<byte>, key: Key, net: seq<Arrival>, at: Cursor, buf: seq<byte>, garbage: u64)
    returns (k: nat)
    requires InLine(source, key, net, at.offset) && Before(at, key) && |buf| >= MAX_EJFAT_MTU
    requires forall i :: 0 <= i < |net| ==> RoomFor(source, at.offset, net[i], |buf|)
    ensures 0 < k <= |net| && Full(net, at.offset, |buf|, k)
    ensures forall j :: 0 <= j < k ==>
      !Full(net, at.offset, |buf|, j) && OneCall(net[..j], at, buf, garbage).g.status == Reading
    ensures var s := OneCall(net, at, buf, garbage);
      && s.g.status == Done && s.g.packets == s.g.read == k && (s.g.last <==> k == |net|) && s.g.start == at.offset
      && s.g.at == Next(s.g) == Cursor(false, key.dataId, key.tick, EndOf(net[k - 1]))
      && at.offset + s.g.total == EndOf(net[k - 1]) && Holds(source, at.offset, s.g.total, s.buf)
  {
    InLineAt(source, key, net, at.offset, 0);
    k := FirstFull(net, at.offset, |buf|, 0);
    forall j | 0 <= j < k ensures OneCall(net[..j], at, buf, garbage).g.status == Reading {
      AfterAlways(source, key, net, at, buf, garbage, j);
    }
    AfterAlways(source, key, net, at, buf, garbage, k);
    ReadEnd(Stage(Begin(at, |buf|, garbage), buf), net, k);
  }

  /** With room for the rest of the source and a jumbo packet, one call reads it to its end. */
  lemma ReadsAll(source: seq<byte>, key: Key, net: seq<Arrival>, at: Cursor, buf: seq<byte>, garbage: u64)
    requires InLine(source, key, net, at.offset) && Before(at, key)
    requires |buf| >= |source| - at.offset + MAX_EJFAT_MTU
    ensures at.offset <= |source|
    ensures var s := OneCall(net, at, buf, garbage);
      && s.g.status == Done && s.g.last && s.g.packets == |net| && s.g.total == |source| - at.offset <= |s.buf|
      && s.buf[..s.g.total] == source[at.offset..]
  {
    InLineAt(source, key, net, at.offset, 0);
    var k := ReadsInOrder(source, key, net, at, buf, garbage);
    InLineAt(source, key, net, at.offset, k - 1);
  }

  // ------------------------------------------------------------------ A series of calls

  lemma InLineRest(source: seq<byte>, key: Key, net: seq<Arrival>, from: nat, k: nat)
    requires InLine(source, key, net, from) && 0 < k < |net|
    ensures InLine(source, key, net[k..], EndOf(net[k - 1]))
  {
    var rest := net[k..];
    forall i | 0 <= i < |rest| ensures Piece(source, key, rest[i]) {
      assert rest[i] == net[i + k];
    }
    forall i | 0 < i < |rest| ensures rest[i].h.offset == EndOf(rest[i - 1]) {
      assert rest[i] == net[i + k] && rest[i - 1] == net[i + k - 1];
    }
  }

  /** A call that has read k packets in order is good. */
  lemma InOrderGood(source: seq<byte>, key: Key, net: seq<Arrival>, at: Cursor, s: Stage, k: nat)
    requires InLine(source, key, net, at.offset) && 0 < k <= |net|
    requires s.g.status == Done && (s.g.last <==> k == |net|) && s.g.start == at.offset
    requires s.g.at == Cursor(false, key.dataId, key.tick, EndOf(net[k - 1]))
    requires at.offset + s.g.total == EndOf(net[k - 1]) && Holds(source, at.offset, s.g.total, s.buf)
    ensures Good(source, s) && Key(s.g.at.tick, s.g.at.srcId) == key
  {
    InLineAt(source, key, net, at.offset, k - 1);
  }

  /** Several calls have read the source to its end, and only the last of them says so. */
  ghost predicate Finished(source: seq<byte>, key: Key, ss: seq<Stage>, from: nat)
  {
    && from <= |source| && Joins(source, key, ss, from) && Joined(ss) == source[from..]
    && forall i :: 0 <= i < |ss| ==> (ss[i].g.last <==> i == |ss| - 1)
  }

  lemma FinishedOne(source: seq<byte>, key: Key, s: Stage)
    requires Good(source, s) && Key(s.g.at.tick, s.g.at.srcId) == key && s.g.last
    ensures Finished(source, key, [s], s.g.start)
  {
    JoinsOne(source, key, s);
  }

  lemma FinishedMore(source: seq<byte>, key: Key, s: Stage, rest: seq<Stage>)
    requires Good(source, s) && Key(s.g.at.tick, s.g.at.srcId) == key && !s.g.last
    requires Finished(source, key, rest, s.g.at.offset)
    ensures Finished(source, key, [s] + rest, s.g.start)
  {
    JoinsFirst(source, key, s, rest);
    SliceConcat(source, s.g.start, s.g.at.offset, |source|);
    assert ([s] + rest)[1..] == rest;
  }

  lemma StagesMore(net: seq<Arrival>, at: Cursor, bufs: seq<seq<byte>>, garbage: u64, m: nat)
    requires m < |bufs| && OneCall(net, at, bufs[0], garbage).g.status == Done
    ensures var s := OneCall(net, at, bufs[0], garbage);
      s.g.read <= |net| && Stages(net, at, bufs[..m + 1], garbage)
        == [s] + Stages(net[s.g.read..], Next(s.g), bufs[1..][..m], garbage)
  {
    assert bufs[..m + 1][1..] == bufs[1..][..m] && bufs[..m + 1][0] == bufs[0];
  }

  /**
   Calls with buffers of at least a jumbo packet each, on the packets of a source in order: after at most as many
   calls as packets the source has been read to its end, every call succeeded, and only the last one sets *last.
   */
  lemma {:induction false} StagesFinish(
    source: seq<byte>, key: Key, net: seq<Arrival>, at: Cursor, bufs: seq<seq<byte>>, garbage: u64
  ) returns (m: nat)
    requires InLine(source, key, net, at.offset) && Before(at, key) && Small(net)
    requires |bufs| >= |net| && forall i :: 0 <= i < |bufs| ==> |bufs[i]| >= MAX_EJFAT_MTU
    ensures 0 < m <= |net| && |Stages(net, at, bufs[..m], garbage)| == m
    ensures Finished(source, key, Stages(net, at, bufs[..m], garbage), at.offset)
    decreases |bufs|
  {
    var s := OneCall(net, at, bufs[0], garbage);
    var k := ReadsInOrder(source, key, net, at, bufs[0], garbage);
    InOrderGood(source, key, net, at, s, k);
    if k == |net| {
      m := 1;
      StagesMore(net, at, bufs, garbage, 0);
      assert Stages(net, at, bufs[..m], garbage) == [s];
      FinishedOne(source, key, s);
    } else {
      InLineRest(source, key, net, at.offset, k);
      assert Small(net[k..]);
      var m' := StagesFinish(source, key, net[k..], Next(s.g), bufs[1..], garbage);
      m := m' + 1;
      var rest := Stages(net[k..], Next(s.g), bufs[1..][..m'], garbage);
      StagesMore(net, at, bufs, garbage, m');
      assert Stages(net, at, bufs[..m], garbage) == [s] + rest;
      FinishedMore(source, key, s, rest);
    }
  }
}
