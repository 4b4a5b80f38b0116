/** When a buffer that a receiver reports complete is the buffer that was sent, duplicates included. */
module Contents {
  import opened Bytes
  import opened Counting
  import opened Headers
  import opened Reassembler
  import opened ReassemblerTheorems

  // ------------------------------------------------------------------ What was stored

  /** The packets stored so far in a call, and where those of the buffer under construction begin. */
  datatype Journal = Journal(c: Control, all: seq<Arrival>, start: nat)

  function Note(j: Journal, a: Arrival): (j': Journal)
  {
    if !a.Got? then j
    else match Decide(j.c, a.h)
      case Skip(c) => j.(c := c)
      case Accept(c) =>
        Journal(c.(total := c.total + |a.payload|), j.all + [a], if c.total == 0 then |j.all| else j.start)
  }

  function JournalOf(net: seq<Arrival>): (j: Journal)
  {
    if net == [] then Journal(Init([]).c, [], 0) else Note(JournalOf(net[..|net| - 1]), net[|net| - 1])
  }

  /** The stream makes the call return with its last packet. */
  ghost predicate Completes(policy: Policy, buf: seq<byte>, net: seq<Arrival>)
  {
    && net != [] && Run(policy, Init(buf), net[..|net| - 1]).result == Waiting
    && Run(policy, Init(buf), net).result.Complete?
  }

  /** The call is still waiting, or has just completed. */
  ghost predicate Live(policy: Policy, buf: seq<byte>, net: seq<Arrival>)
  {
    Run(policy, Init(buf), net).result == Waiting || Completes(policy, buf, net)
  }

  lemma LiveBefore(policy: Policy, buf: seq<byte>, net: seq<Arrival>)
    requires Live(policy, buf, net) && net != []
    ensures Run(policy, Init(buf), net[..|net| - 1]).result == Waiting
  {
  }

  /** What one more packet does to a call that goes on or completes. */
  lemma LiveStep(policy: Policy, s: State, a: Arrival)
    requires s.result == Waiting
    requires var r := Step(policy, s, a).result; r == Waiting || r.Complete?
    ensures a.Got? && match Decide(s.c, a.h)
      case Skip(c) => Step(policy, s, a) == s.(c := c)
      case Accept(c) =>
        && MakeRoom(policy, s.buf, EndOf(a)).Fits?
        && var s' := Step(policy, s, a);
           && s'.buf == Overwrite(MakeRoom(policy, s.buf, EndOf(a)).buf, a.h.offset, a.payload)
           && s'.c == c.(total := c.total + |a.payload|)
           && s'.result == if s'.c.total >= a.h.length then Complete(s'.c.total, a.h.tick, a.h.dataId) else Waiting
  {
  }

  lemma {:induction false} JournalTracks(policy: Policy, buf: seq<byte>, net: seq<Arrival>)
    requires Live(policy, buf, net)
    ensures Run(policy, Init(buf), net).c == JournalOf(net).c
    decreases |net|
  {
    if net != [] {
      var n := |net| - 1;
      LiveBefore(policy, buf, net);
      JournalTracks(policy, buf, net[..n]);
      LiveStep(policy, Run(policy, Init(buf), net[..n]), net[n]);
    }
  }

  // ------------------------------------------------------------------ The last packet at a position

  /** Whose byte is at position x: that of the last packet stored there. */
  function LastWriter(all: seq<Arrival>, x: nat): (w: Option<Key>)
    decreases |all|
  {
    if all == [] then None
    else
      var a := all[|all| - 1];
      if a.Got? && a.h.offset <= x < EndOf(a) then Some(KeyOf(a)) else LastWriter(all[..|all| - 1], x)
  }

  lemma LastWriterNext(all: seq<Arrival>, a: Arrival, x: nat)
    requires a.Got?
    ensures LastWriter(all + [a], x) == if a.h.offset <= x < EndOf(a) then Some(KeyOf(a)) else LastWriter(all, x)
  {
    assert (all + [a])[..|all|] == all;
  }

  /** The memory before the call and what realloc leaves behind are all z. */
  ghost predicate Uniform(policy: Policy, buf: seq<byte>, z: byte)
  {
    (forall i :: 0 <= i < |buf| ==> buf[i] == z) && (policy.Growing? ==> policy.fill == z)
  }

  /** Position x holds the byte of its last writer, or what was there before. */
  ghost predicate Written(world: World, policy: Policy, buf: seq<byte>, all: seq<Arrival>, s: State, x: nat)
    requires x < |s.buf|
  {
    match LastWriter(all, x)
    case Some(key) => key in world && x < |world[key]| && s.buf[x] == world[key][x]
    case None => forall z :: Uniform(policy, buf, z) ==> s.buf[x] == z
  }

  lemma OverwriteAt(s: seq<byte>, at: nat, src: seq<byte>, x: nat)
    requires at + |src| <= |s| && x < |s|
    ensures Overwrite(s, at, src)[x] == if at <= x < at + |src| then src[x - at] else s[x]
  {
  }

  lemma RoomAt(policy: Policy, buf: seq<byte>, need: nat, x: nat)
    requires MakeRoom(policy, buf, need).Fits? && x < |MakeRoom(policy, buf, need).buf|
    ensures MakeRoom(policy, buf, need).buf[x] ==
      if x < |buf| then buf[x] else if policy.Growing? then policy.fill else 0
  {
  }

  lemma WrittenStore(
    world: World, policy: Policy, buf: seq<byte>, all: seq<Arrival>, s: State, s': State, a: Arrival, x: nat
  )
    requires a.Got? && Genuine(world, a) && MakeRoom(policy, s.buf, EndOf(a)).Fits?
    requires s'.buf == Overwrite(MakeRoom(policy, s.buf, EndOf(a)).buf, a.h.offset, a.payload) && x < |s'.buf|
    requires x < |s.buf| ==> Written(world, policy, buf, all, s, x)
    requires x >= |s.buf| ==> LastWriter(all, x) == None
    ensures Written(world, policy, buf, all + [a], s', x)
  {
    var room := MakeRoom(policy, s.buf, EndOf(a)).buf;
    OverwriteAt(room, a.h.offset, a.payload, x);
    RoomAt(policy, s.buf, EndOf(a), x);
    LastWriterNext(all, a, x);
  }

  /** Nothing is written beyond the memory. */
  lemma {:induction false} WrittenInside(policy: Policy, buf: seq<byte>, net: seq<Arrival>, x: nat)
    requires Live(policy, buf, net) && x >= |Run(policy, Init(buf), net).buf|
    ensures LastWriter(JournalOf(net).all, x) == None
    decreases |net|
  {
    if net != [] {
      var n := |net| - 1;
      var s := Run(policy, Init(buf), net[..n]);
      LiveBefore(policy, buf, net);
      JournalTracks(policy, buf, net[..n]);
      LiveStep(policy, s, net[n]);
      WrittenInside(policy, buf, net[..n], x);
      LastWriterNext(JournalOf(net[..n]).all, net[n], x);
    }
  }

  lemma {:induction false} WrittenAlways(world: World, policy: Policy, buf: seq<byte>, net: seq<Arrival>, x: nat)
    requires AllGenuine(world, net) && Live(policy, buf, net) && x < |Run(policy, Init(buf), net).buf|
    ensures Written(world, policy, buf, JournalOf(net).all, Run(policy, Init(buf), net), x)
    decreases |net|
  {
    if net != [] {
      var n := |net| - 1;
      var s, s', j := Run(policy, Init(buf), net[..n]), Run(policy, Init(buf), net), JournalOf(net[..n]);
      LiveBefore(policy, buf, net);
      JournalTracks(policy, buf, net[..n]);
      LiveStep(policy, s, net[n]);
      assert Genuine(world, net[n]);
      if x < |s.buf| {
        WrittenAlways(world, policy, buf, net[..n], x);
      } else {
        WrittenInside(policy, buf, net[..n], x);
      }
      if Decide(s.c, net[n].h).Accept? {
        WrittenStore(world, policy, buf, j.all, s, s', net[n], x);
      }
    }
  }

  // ------------------------------------------------------------------ Other contents

  /** Packets that differ at most in the bytes they carry. */
  ghost predicate SameHeader(a: Arrival, b: Arrival)
  {
    && (a.Got? <==> b.Got?) && (a.RecvFailed? <==> b.RecvFailed?)
    && (a.Got? ==> a.h == b.h && |a.payload| == |b.payload|)
  }

  ghost predicate SameHeaders(net: seq<Arrival>, net': seq<Arrival>)
  {
    |net| == |net'| && forall i :: 0 <= i < |net| ==> SameHeader(net[i], net'[i])
  }

  function WithFill(policy: Policy, fill: byte): (p: Policy)
  {
    if policy.Fixed? then Fixed else Growing(policy.limit, fill)
  }

  lemma SameStore(
    policy: Policy, fill: byte, c: Control, buf: seq<byte>, buf': seq<byte>, h: ReHeader, p: seq<byte>, p': seq<byte>
  )
    requires |buf| == |buf'| && |p| == |p'|
    ensures var s, s' := Store(policy, c, buf, h, p), Store(WithFill(policy, fill), c, buf', h, p');
      s.c == s'.c && s.result == s'.result && |s.buf| == |s'.buf|
  {
  }

  lemma SameStep(policy: Policy, fill: byte, s: State, s': State, a: Arrival, a': Arrival)
    requires s.c == s'.c && s.result == s'.result && |s.buf| == |s'.buf| && SameHeader(a, a')
    ensures var t, t' := Step(policy, s, a), Step(WithFill(policy, fill), s', a');
      t.c == t'.c && t.result == t'.result && |t.buf| == |t'.buf|
  {
    if a.Got? && Decide(s.c, a.h).Accept? {
      SameStore(policy, fill, Decide(s.c, a.h).c, s.buf, s'.buf, a.h, a.payload, a'.payload);
    }
  }

  /** What a call does and reports does not depend on the bytes. */
  lemma {:induction false} SameRun(
    policy: Policy, fill: byte, buf: seq<byte>, buf': seq<byte>, net: seq<Arrival>, net': seq<Arrival>
  )
    requires |buf| == |buf'| && SameHeaders(net, net')
    ensures var s, s' := Run(policy, Init(buf), net), Run(WithFill(policy, fill), Init(buf'), net');
      s.c == s'.c && s.result == s'.result && |s.buf| == |s'.buf|
    decreases |net|
  {
    if net != [] {
      var n := |net| - 1;
      SameRun(policy, fill, buf, buf', net[..n], net'[..n]);
      var s, s' := Run(policy, Init(buf), net[..n]), Run(WithFill(policy, fill), Init(buf'), net'[..n]);
      SameStep(policy, fill, s, s', net[n], net'[n]);
    }
  }

  lemma {:induction false} SameJournal(net: seq<Arrival>, net': seq<Arrival>)
    requires SameHeaders(net, net')
    ensures JournalOf(net).c == JournalOf(net').c && SameHeaders(JournalOf(net).all, JournalOf(net').all)
    decreases |net|
  {
    if net != [] {
      var n := |net| - 1;
      SameJournal(net[..n], net'[..n]);
      assert SameHeader(net[n], net'[n]);
    }
  }

  lemma {:induction false} SameWriter(all: seq<Arrival>, all': seq<Arrival>, x: nat)
    requires SameHeaders(all, all')
    ensures LastWriter(all, x) == LastWriter(all', x)
    decreases |all|
  {
    if all != [] {
      var n := |all| - 1;
      assert SameHeader(all[n], all'[n]);
      SameWriter(all[..n], all'[..n], x);
    }
  }

  // ------------------------------------------------------------------ Exactly when a complete buffer is right

  /** A call reports a buffer complete, and it is the buffer that was sent. */
  ghost predicate Right(world: World, s: State)
  {
    s.result.Complete? &&
    var key := Key(s.result.tick, s.result.dataId);
    key in world && s.result.bytes == |world[key]| <= |s.buf| && s.buf[..s.result.bytes] == world[key]
  }

  /** Whatever the buffers sent contain, whatever was in memory before, and whatever realloc leaves behind. */
  ghost predicate RightAlways(policy: Policy, n: nat, net: seq<Arrival>)
  {
    forall world: World, net', buf: seq<byte>, fill: byte ::
      SameHeaders(net, net') && AllGenuine(world, net') && |buf| == n ==>
        Right(world, Run(WithFill(policy, fill), Init(buf), net'))
  }

  /** The bytes counted are as many as the buffer has, and the last packet stored at each position is one of it. */
  ghost predicate Sufficient(net: seq<Arrival>)
    requires net != [] && net[|net| - 1].Got?
  {
    var j, a := JournalOf(net), net[|net| - 1];
    j.c.total == a.h.length && LastOf(j.all, KeyOf(a), a.h.length)
  }

  ghost predicate LastOf(all: seq<Arrival>, key: Key, n: nat)
  {
    forall x: nat :: x < n ==> LastWriter(all, x) == Some(key)
  }

  /** The packet that completes a buffer is one of it. */
  lemma CompletedBy(policy: Policy, buf: seq<byte>, net: seq<Arrival>)
    requires Completes(policy, buf, net)
    ensures var a := net[|net| - 1];
      && a.Got? && Run(policy, Init(buf), net).result == Complete(JournalOf(net).c.total, a.h.tick, a.h.dataId)
      && JournalOf(net).c.total >= a.h.length
  {
    var n := |net| - 1;
    LiveStep(policy, Run(policy, Init(buf), net[..n]), net[n]);
    JournalTracks(policy, buf, net);
  }

  /** A position whose last packet is of this buffer holds its byte. */
  lemma RightByte(world: World, policy: Policy, buf: seq<byte>, net: seq<Arrival>, key: Key, x: nat)
    requires AllGenuine(world, net) && Live(policy, buf, net) && LastWriter(JournalOf(net).all, x) == Some(key)
    ensures var s := Run(policy, Init(buf), net);
      x < |s.buf| && key in world && x < |world[key]| && s.buf[x] == world[key][x]
  {
    if x >= |Run(policy, Init(buf), net).buf| {
      WrittenInside(policy, buf, net, x);
    } else {
      WrittenAlways(world, policy, buf, net, x);
    }
  }

  lemma SufficientIsRight(world: World, policy: Policy, buf: seq<byte>, net: seq<Arrival>)
    requires AllGenuine(world, net) && Completes(policy, buf, net) && net[|net| - 1].Got? && Sufficient(net)
    ensures Right(world, Run(policy, Init(buf), net))
  {
    var s, a := Run(policy, Init(buf), net), net[|net| - 1];
    CompletedBy(policy, buf, net);
    assert Genuine(world, a);
    var source := world[KeyOf(a)];
    if source != [] {
      RightByte(world, policy, buf, net, KeyOf(a), |source| - 1);
    }
    forall x | 0 <= x < |source| ensures s.buf[..|source|][x] == source[x] {
      RightByte(world, policy, buf, net, KeyOf(a), x);
    }
    assert s.buf[..|source|] == source;
  }

  function Constant(n: nat, z: byte): (s: seq<byte>)
    ensures |s| == n && forall i :: 0 <= i < n ==> s[i] == z
  {
    seq(n, _ => z)
  }

  /** The same buffers with nothing but 0 in the one in question, and nothing but 1 in the others. */
  ghost function Marked(world: World, key: Key): (w: World)
    ensures w.Keys == world.Keys && forall k :: k in w ==> w[k] == Constant(|world[k]|, if k == key then 0 else 1)
  {
    map k | k in world :: Constant(|world[k]|, if k == key then 0 else 1)
  }

  ghost function MarkedPacket(a: Arrival, key: Key): (b: Arrival)
    ensures SameHeader(a, b)
  {
    if a.Got? then Got(a.h, Constant(|a.payload|, if KeyOf(a) == key then 0 else 1)) else a
  }

  ghost function MarkedNet(net: seq<Arrival>, key: Key): (net': seq<Arrival>)
    ensures SameHeaders(net, net')
  {
    seq(|net|, i requires 0 <= i < |net| => MarkedPacket(net[i], key))
  }

  lemma MarkedGenuine(world: World, net: seq<Arrival>, key: Key)
    requires AllGenuine(world, net)
    ensures AllGenuine(Marked(world, key), MarkedNet(net, key))
  {
    var w, net' := Marked(world, key), MarkedNet(net, key);
    forall i | 0 <= i < |net'| ensures Genuine(w, net'[i]) {
      assert Genuine(world, net[i]);
      var a := net'[i];
      if a.Got? {
        assert a.payload == w[KeyOf(a)][a.h.offset..a.h.offset + |a.payload|];
      }
    }
  }

  lemma RightIsSufficient(world: World, policy: Policy, buf: seq<byte>, net: seq<Arrival>)
    requires AllGenuine(world, net) && Completes(policy, buf, net) && net[|net| - 1].Got?
    requires RightAlways(policy, |buf|, net)
    ensures Sufficient(net)
  {
    var a := net[|net| - 1];
    var key := KeyOf(a);
    var w, net', ones, p := Marked(world, key), MarkedNet(net, key), Constant(|buf|, 1), WithFill(policy, 1);
    var s' := Run(p, Init(ones), net');
    MarkedGenuine(world, net, key);
    assert Right(w, s');
    SameRun(policy, 1, buf, ones, net, net');
    CompletedBy(policy, buf, net);
    assert Genuine(world, a);
    SameNet(policy, buf, ones, net, net', 1);
    forall x: nat | x < a.h.length ensures LastWriter(JournalOf(net).all, x) == Some(key) {
      WrittenAlways(w, p, ones, net', x);
      assert Uniform(p, ones, 1);
      assert s'.buf[x] == s'.buf[..a.h.length][x] == w[key][x] == 0;
      SameJournal(net, net');
      SameWriter(JournalOf(net).all, JournalOf(net').all, x);
    }
  }

  lemma SameNet(policy: Policy, buf: seq<byte>, buf': seq<byte>, net: seq<Arrival>, net': seq<Arrival>, fill: byte)
    requires |buf| == |buf'| && SameHeaders(net, net') && Completes(policy, buf, net)
    ensures Completes(WithFill(policy, fill), buf', net')
  {
    var n := |net| - 1;
    SameRun(policy, fill, buf, buf', net, net');
    SameRun(policy, fill, buf, buf', net[..n], net'[..n]);
  }

  /**
   Exactly when a call that completes is right, for every stream of genuine packets, duplicates and all, and
   whatever the bytes: the count is the length, and the last packet stored at each position is of that buffer.
   */
  lemma RightExactly(world: World, policy: Policy, buf: seq<byte>, net: seq<Arrival>)
    requires AllGenuine(world, net) && Completes(policy, buf, net)
    ensures net[|net| - 1].Got? && (RightAlways(policy, |buf|, net) <==> Sufficient(net))
  {
    CompletedBy(policy, buf, net);
    if RightAlways(policy, |buf|, net) {
      RightIsSufficient(world, policy, buf, net);
    }
    if Sufficient(net) {
      forall world': World, net', buf': seq<byte>, fill: byte
        | SameHeaders(net, net') && AllGenuine(world', net') && |buf'| == |buf|
        ensures Right(world', Run(WithFill(policy, fill), Init(buf'), net'))
      {
        SameNet(policy, buf, buf', net, net', fill);
        SufficientSame(net, net');
        SufficientIsRight(world', WithFill(policy, fill), buf', net');
      }
    }
  }

  lemma SufficientSame(net: seq<Arrival>, net': seq<Arrival>)
    requires SameHeaders(net, net') && net != [] && net[|net| - 1].Got? && Sufficient(net)
    ensures net'[|net'| - 1].Got? && Sufficient(net')
  {
    var a, a' := net[|net| - 1], net'[|net'| - 1];
    assert SameHeader(a, a');
    SameJournal(net, net');
    forall x: nat | x < a.h.length ensures LastWriter(JournalOf(net').all, x) == Some(KeyOf(a')) {
      SameWriter(JournalOf(net).all, JournalOf(net').all, x);
    }
  }

  // ------------------------------------------------------------------ No byte twice

  function TotalBytes(s: seq<Arrival>): (n: nat)
  {
    if s == [] then 0
    else TotalBytes(s[..|s| - 1]) + if s[|s| - 1].Got? then |s[|s| - 1].payload| else 0
  }

  /** The positions these packets carry. */
  function Covered(s: seq<Arrival>): (c: set<nat>)
  {
    if s == [] then {}
    else
      var c, a := Covered(s[..|s| - 1]), s[|s| - 1];
      if a.Got? then Extend(c, a.h.offset, |a.payload|) else c
  }

  ghost predicate AllOf(s: seq<Arrival>, key: Key)
  {
    forall i :: 0 <= i < |s| ==> s[i].Got? && KeyOf(s[i]) == key
  }

  lemma {:induction false} CoveredBy(s: seq<Arrival>, key: Key, x: nat)
    requires AllOf(s, key)
    ensures x in Covered(s) <==> exists i :: 0 <= i < |s| && Carries(s[i], key, x)
    decreases |s|
  {
    if s != [] {
      var n := |s| - 1;
      CoveredBy(s[..n], key, x);
      assert s[n].Got? && KeyOf(s[n]) == key;
      if i :| 0 <= i < |s[..n]| && Carries(s[..n][i], key, x) {
        assert Carries(s[i], key, x);
      }
      if i :| 0 <= i < |s| && Carries(s[i], key, x) {
        assert i < n ==> Carries(s[..n][i], key, x);
      }
    }
  }

  ghost predicate Apart(covered: set<nat>, off: nat, n: nat)
  {
    forall x :: off <= x < off + n ==> x !in covered
  }

  /** n more bytes cover n more positions exactly if none of them was covered. */
  lemma {:induction false} ExtendCounts(covered: set<nat>, off: nat, n: nat)
    ensures |Extend(covered, off, n)| <= |covered| + n
    ensures |Extend(covered, off, n)| == |covered| + n <==> Apart(covered, off, n)
    decreases n
  {
    if n > 0 {
      ExtendCounts(covered, off, n - 1);
      var before, x := Extend(covered, off, n - 1), off + n - 1;
      assert x in before <==> x in covered;
      assert Apart(covered, off, n) <==> Apart(covered, off, n - 1) && x !in covered;
      OneElement(before, x);
    }
  }

  lemma OneElement(s: set<nat>, x: nat)
    ensures |s + {x}| == if x in s then |s| else |s| + 1
  {
    if x in s {
      assert s + {x} == s;
    }
  }

  lemma DuplicateFreeBefore(s: seq<Arrival>, key: Key)
    requires AllOf(s, key) && s != [] && DuplicateFree(s)
    ensures DuplicateFree(s[..|s| - 1]) && Apart(Covered(s[..|s| - 1]), s[|s| - 1].h.offset, |s[|s| - 1].payload|)
  {
    var n := |s| - 1;
    forall x | s[n].h.offset <= x < EndOf(s[n]) ensures x !in Covered(s[..n]) {
      CoveredBy(s[..n], key, x);
      assert Carries(s[n], key, x);
      forall i | 0 <= i < |s[..n]| ensures !Carries(s[..n][i], key, x) {
        assert s[..n][i] == s[i];
      }
    }
  }

  lemma DuplicateFreeAfter(s: seq<Arrival>, key: Key)
    requires AllOf(s, key) && s != [] && DuplicateFree(s[..|s| - 1])
    requires Apart(Covered(s[..|s| - 1]), s[|s| - 1].h.offset, |s[|s| - 1].payload|)
    ensures DuplicateFree(s)
  {
    var n := |s| - 1;
    forall i, j, k, x | 0 <= i < j < |s| && Carries(s[i], k, x) ensures !Carries(s[j], k, x) {
      assert s[i] == s[..n][i];
      if j < n {
        assert s[j] == s[..n][j];
      } else {
        CoveredBy(s[..n], key, x);
        assert x in Covered(s[..n]);
      }
    }
  }

  /** Packets carry as many positions as bytes exactly if no byte is carried twice. */
  lemma {:induction false} CountsIfDuplicateFree(s: seq<Arrival>, key: Key)
    requires AllOf(s, key)
    ensures |Covered(s)| <= TotalBytes(s) && (|Covered(s)| == TotalBytes(s) <==> DuplicateFree(s))
    decreases |s|
  {
    if s != [] {
      var n := |s| - 1;
      assert s[n].Got?;
      CountsIfDuplicateFree(s[..n], key);
      ExtendCounts(Covered(s[..n]), s[n].h.offset, |s[n].payload|);
      if DuplicateFree(s) {
        DuplicateFreeBefore(s, key);
      } else if DuplicateFree(s[..n]) && Apart(Covered(s[..n]), s[n].h.offset, |s[n].payload|) {
        DuplicateFreeAfter(s, key);
      }
    }
  }

  /** From `start` on the journal has the packets of the buffer under construction, and they are counted. */
  ghost predicate InOrderly(j: Journal)
  {
    && j.start <= |j.all| && (forall i :: 0 <= i < |j.all| ==> j.all[i].Got?)
    && (!j.c.veryFirst ==> AllOf(j.all[j.start..], Current(j.c)) && j.c.total == TotalBytes(j.all[j.start..]))
  }

  lemma AppendSuffix(s: seq<Arrival>, a: Arrival, from: nat)
    requires from <= |s|
    ensures (s + [a])[from..] == s[from..] + [a]
  {
  }

  lemma CountOne(s: seq<Arrival>, a: Arrival, key: Key)
    requires AllOf(s, key) && a.Got? && KeyOf(a) == key
    ensures AllOf(s + [a], key) && TotalBytes(s + [a]) == TotalBytes(s) + |a.payload|
  {
    assert (s + [a])[..|s|] == s;
  }

  /** A packet that is stored begins a new buffer, or is one more of the buffer under construction. */
  lemma AcceptKeeps(c: Control, h: ReHeader)
    requires Decide(c, h).Accept?
    ensures var c' := Decide(c, h).c;
      && !c'.veryFirst && Current(c') == Key(h.tick, h.dataId)
      && (c'.total != 0 ==> c'.total == c.total && !c.veryFirst && Current(c) == Current(c'))
  {
  }

  /** One more packet behind those from `start` on. */
  lemma OneMoreInOrderly(all: seq<Arrival>, start: nat, a: Arrival, c: Control)
    requires start <= |all| && (forall i :: 0 <= i < |all| ==> all[i].Got?) && a.Got? && Current(c) == KeyOf(a)
    requires AllOf(all[start..], KeyOf(a)) && c.total == TotalBytes(all[start..])
    ensures InOrderly(Journal(c.(total := c.total + |a.payload|), all + [a], start))
  {
    AppendSuffix(all, a, start);
    CountOne(all[start..], a, KeyOf(a));
  }

  lemma NoteInOrderly(j: Journal, a: Arrival)
    requires InOrderly(j)
    ensures InOrderly(Note(j, a))
  {
    if a.Got? && Decide(j.c, a.h).Accept? {
      var c := Decide(j.c, a.h).c;
      AcceptKeeps(j.c, a.h);
      if c.total == 0 {
        assert j.all[|j.all|..] == [];
        OneMoreInOrderly(j.all, |j.all|, a, c);
      } else {
        OneMoreInOrderly(j.all, j.start, a, c);
      }
    }
  }

  lemma {:induction false} JournalInOrderly(net: seq<Arrival>)
    ensures InOrderly(JournalOf(net))
    decreases |net|
  {
    if net != [] {
      JournalInOrderly(net[..|net| - 1]);
      NoteInOrderly(JournalOf(net[..|net| - 1]), net[|net| - 1]);
    }
  }

  lemma {:induction false} StoredGenuine(world: World, net: seq<Arrival>)
    requires AllGenuine(world, net)
    ensures AllGenuine(world, JournalOf(net).all)
    decreases |net|
  {
    if net != [] {
      var n := |net| - 1;
      StoredGenuine(world, net[..n]);
      assert Genuine(world, net[n]);
    }
  }

  /** The buffer was not begun, given up and taken up again: nothing of it was stored before. */
  ghost predicate NotResumed(j: Journal, key: Key)
  {
    forall i :: 0 <= i < j.start && i < |j.all| ==> j.all[i].Got? ==> KeyOf(j.all[i]) != key
  }

  /** Then the last packet at a position is one of the buffer exactly if some packet of it is there. */
  lemma {:induction false} WriterInAttempt(all: seq<Arrival>, start: nat, key: Key, x: nat)
    requires start <= |all| && AllOf(all[start..], key)
    requires forall i :: 0 <= i < start ==> all[i].Got? ==> KeyOf(all[i]) != key
    ensures LastWriter(all, x) == Some(key) <==> x in Covered(all[start..])
    decreases |all|
  {
    var n := |all| - 1;
    if start == |all| {
      WriterBefore(all, key, x);
    } else {
      assert all[start..][..n - start] == all[..n][start..] && all[start..][n - start] == all[n];
      assert AllOf(all[..n][start..], key);
      WriterInAttempt(all[..n], start, key, x);
    }
  }

  lemma {:induction false} WriterBefore(all: seq<Arrival>, key: Key, x: nat)
    requires forall i :: 0 <= i < |all| ==> all[i].Got? ==> KeyOf(all[i]) != key
    ensures LastWriter(all, x) != Some(key)
    decreases |all|
  {
    if all != [] {
      WriterBefore(all[..|all| - 1], key, x);
    }
  }

  lemma {:induction false} CoveredInside(world: World, s: seq<Arrival>, key: Key, x: nat)
    requires AllGenuine(world, s) && AllOf(s, key) && x in Covered(s)
    ensures key in world && x < |world[key]|
    decreases |s|
  {
    CoveredBy(s, key, x);
    var i :| 0 <= i < |s| && Carries(s[i], key, x);
    assert Genuine(world, s[i]);
  }

  /** The state of the journal when a buffer completes. */
  lemma CompletedJournal(world: World, policy: Policy, buf: seq<byte>, net: seq<Arrival>)
    requires AllGenuine(world, net) && Completes(policy, buf, net)
    ensures var a, j := net[|net| - 1], JournalOf(net);
      && a.Got? && InOrderly(j)
      && AllOf(j.all[j.start..], KeyOf(a)) && j.c.total == TotalBytes(j.all[j.start..]) >= a.h.length
  {
    var n := |net| - 1;
    CompletedBy(policy, buf, net);
    JournalInOrderly(net);
    JournalTracks(policy, buf, net[..n]);
    LiveStep(policy, Run(policy, Init(buf), net[..n]), net[n]);
  }

  ghost predicate CoversUpTo(covered: set<nat>, n: nat)
  {
    forall x: nat :: x < n ==> x in covered
  }

  lemma AllCovered(covered: set<nat>, n: nat)
    requires forall x :: x in covered ==> x < n
    ensures |covered| <= n && (|covered| == n <==> CoversUpTo(covered, n))
  {
    Pigeonhole(covered, n);
    if CoversUpTo(covered, n) {
      assert covered == UpTo(n);
    }
  }

  lemma CoveredAll(world: World, s: seq<Arrival>, key: Key)
    requires AllGenuine(world, s) && AllOf(s, key) && key in world
    ensures |Covered(s)| <= |world[key]| && (|Covered(s)| == |world[key]| <==> CoversUpTo(Covered(s), |world[key]|))
  {
    forall x | x in Covered(s) ensures x < |world[key]| {
      CoveredInside(world, s, key, x);
    }
    AllCovered(Covered(s), |world[key]|);
  }

  lemma LastIfCovered(all: seq<Arrival>, start: nat, key: Key, n: nat)
    requires start <= |all| && AllOf(all[start..], key)
    requires forall i :: 0 <= i < start ==> all[i].Got? ==> KeyOf(all[i]) != key
    ensures LastOf(all, key, n) <==> CoversUpTo(Covered(all[start..]), n)
  {
    forall x: nat ensures LastWriter(all, x) == Some(key) <==> x in Covered(all[start..]) {
      WriterInAttempt(all, start, key, x);
    }
  }

  /** Enough bytes, and each position last written by the buffer, exactly if no byte came twice. */
  lemma AttemptSuffices(world: World, all: seq<Arrival>, start: nat, key: Key)
    requires start <= |all| && AllGenuine(world, all) && key in world && AllOf(all[start..], key)
    requires forall i :: 0 <= i < start ==> all[i].Got? ==> KeyOf(all[i]) != key
    requires TotalBytes(all[start..]) >= |world[key]|
    ensures TotalBytes(all[start..]) == |world[key]| && LastOf(all, key, |world[key]|) <==> DuplicateFree(all[start..])
  {
    assert AllGenuine(world, all[start..]);
    CountsIfDuplicateFree(all[start..], key);
    CoveredAll(world, all[start..], key);
    LastIfCovered(all, start, key, |world[key]|);
  }

  /**
   For a buffer that was not given up and taken up again: a call that completes is right, whatever the bytes,
   exactly if no byte is carried twice by the packets stored for it. Duplicates elsewhere do no harm.
   */
  lemma RightIfNoByteTwice(world: World, policy: Policy, buf: seq<byte>, net: seq<Arrival>)
    requires AllGenuine(world, net) && Completes(policy, buf, net)
    requires net[|net| - 1].Got? ==> NotResumed(JournalOf(net), KeyOf(net[|net| - 1]))
    ensures JournalOf(net).start <= |JournalOf(net).all|
    ensures RightAlways(policy, |buf|, net) <==> DuplicateFree(JournalOf(net).all[JournalOf(net).start..])
  {
    var a, j := net[|net| - 1], JournalOf(net);
    RightExactly(world, policy, buf, net);
    CompletedJournal(world, policy, buf, net);
    StoredGenuine(world, net);
    assert Genuine(world, a);
    AttemptSuffices(world, j.all, j.start, KeyOf(a));
  }

  // ------------------------------------------------------------------ A duplicate that does no harm

  function Part(tick: u64, length: u32, offset: u32, x: byte): (a: Arrival)
  {
    Got(ReHeader(2, 1, offset, length, tick), [x])
  }

  lemma PartStored(c: Control, buf: seq<byte>, c': Control, tick: u64, length: u32, offset: u32, x: byte)
    requires offset < |buf| && Decide(c, Part(tick, length, offset, x).h) == Accept(c') && c'.total + 1 < length
    ensures Step(Fixed, State(c, buf, Waiting), Part(tick, length, offset, x)) ==
      State(c'.(total := c'.total + 1), buf[offset := x], Waiting)
  {
    assert Overwrite(buf, offset, [x]) == buf[offset := x];
  }

  /** Two packets of a tick, then one of another. */
  function StaleStart(): (net: seq<Arrival>)
  {
    [Part(1, 3, 0, 5), Part(1, 3, 1, 20), Part(2, 2, 0, 10)]
  }

  lemma StaleRun(buf: seq<byte>)
    requires |buf| == 3
    ensures Run(Fixed, Init(buf), StaleStart()) == State(Control(2, false, false, 1, 1), [10, 20, buf[2]], Waiting)
  {
    var net, t1, t2 := StaleStart(), Control(1, false, false, 1, 0), Control(2, false, false, 1, 0);
    PartStored(Init(buf).c, buf, t1, 1, 3, 0, 5);
    PartStored(t1.(total := 1), buf[0 := 5], t1.(total := 1), 1, 3, 1, 20);
    PartStored(t1.(total := 2), buf[0 := 5][1 := 20], t2, 2, 2, 0, 10);
    assert net[..0] == [] && net[..3] == net;
    RunNext(Fixed, Init(buf), net, 0);
    RunNext(Fixed, Init(buf), net, 1);
    RunNext(Fixed, Init(buf), net, 2);
  }

  /**
   Why contents have to vary: a byte left behind by an abandoned tick can happen to be right, so that a stream
   with a packet twice comes out right for every memory.
   */
  lemma StaleByteStandsIn(buf: seq<byte>)
    requires |buf| == 3
    ensures var world: World := map[Key(1, 1) := [5, 20, 7], Key(2, 1) := [10, 20]];
      var net := StaleStart() + [Part(2, 2, 0, 10)];
      AllGenuine(world, net) && !DuplicateFree(net) && Right(world, Run(Fixed, Init(buf), net))
  {
    assert [5, 20, 7][0..1] == [5] && [5, 20, 7][1..2] == [20] && [10, 20][0..1] == [10];
    var net, c := StaleStart() + [Part(2, 2, 0, 10)], Control(2, false, false, 1, 1);
    assert Carries(net[2], Key(2, 1), 0) && Carries(net[3], Key(2, 1), 0);
    StaleRun(buf);
    assert net[..3] == StaleStart();
    assert Overwrite([10, 20, buf[2]], 0, [10]) == [10, 20, buf[2]];
    assert Run(Fixed, Init(buf), net) == State(c.(total := 2), [10, 20, buf[2]], Complete(2, 2, 1));
  }
}
