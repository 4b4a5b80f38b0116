/** When a receiver completes a buffer on a stream of packets of any ticks and sources. */
module MixedStreams {
  import opened Bytes
  import opened Headers
  import opened Reassembler
  import opened ReassemblerTheorems
  import opened Completion
  import opened Contents

  // ------------------------------------------------------------------ Attempts

  /** The tick of the last packet; prevTick starts as UINT_MAX. */
  function LastTick(net: seq<Arrival>): (t: u64)
  {
    if net == [] then INITIAL_PREV_TICK
    else if net[|net| - 1].Got? then net[|net| - 1].h.tick
    else LastTick(net[..|net| - 1])
  }

  predicate SomeGot(net: seq<Arrival>)
  {
    exists i :: 0 <= i < |net| && net[i].Got?
  }

  /** With nothing under way, this packet begins a buffer: offset 0 and a tick other than the one given up last. */
  predicate Opens(net: seq<Arrival>, h: ReHeader)
  {
    if SomeGot(net) then h.offset == 0 && h.tick != LastTick(net) else h.offset == 0 || h.tick == INITIAL_PREV_TICK
  }

  /**
   Where in the stream the buffer begins that is being assembled, if one is. Packets from other sources are passed
   over; one from its own source with another tick ends it, and begins a new one if its offset is 0.
   */
  function Attempt(net: seq<Arrival>): (r: Option<nat>)
    ensures r.Some? ==> r.value < |net| && net[r.value].Got?
  {
    if net == [] then None
    else
      var n, a := |net| - 1, net[|net| - 1];
      var before := Attempt(net[..n]);
      if !a.Got? then before
      else if before.None? then (if Opens(net[..n], a.h) then Some(n) else None)
      else if KeyOf(a) == KeyOf(net[before.value]) || a.h.dataId != net[before.value].h.dataId then before
      else if a.h.offset == 0 then Some(n)
      else None
  }

  /** The last packet is of the buffer being assembled. */
  predicate Takes(net: seq<Arrival>)
    requires net != []
  {
    && net[|net| - 1].Got? && Attempt(net).Some?
    && net[|net| - 1].h.dataId == net[Attempt(net).value].h.dataId
  }

  /** No packet from position i on is of the source of packet j and of another tick. */
  ghost predicate Unbroken(net: seq<Arrival>, j: nat, i: nat)
    requires j < |net| && net[j].Got?
  {
    forall k :: i <= k < |net| && net[k].Got? && net[k].h.dataId == net[j].h.dataId ==> net[k].h.tick == net[j].h.tick
  }

  /** An attempt goes on exactly as long as its source sends no other tick. */
  lemma {:induction false} AttemptStands(net: seq<Arrival>, j: nat)
    requires j < |net| && Attempt(net[..j + 1]) == Some(j)
    ensures net[j].Got? && (Attempt(net) == Some(j) <==> Unbroken(net, j, j + 1))
    decreases |net|
  {
    var n := |net| - 1;
    if j == n {
      assert net[..j + 1] == net;
    } else {
      assert net[..n][..j + 1] == net[..j + 1];
      AttemptStands(net[..n], j);
      assert Unbroken(net, j, j + 1) ==> Unbroken(net[..n], j, j + 1);
      if Unbroken(net[..n], j, j + 1) && net[n].Got? {
        assert Unbroken(net, j, j + 1) <==>
          (net[n].h.dataId == net[j].h.dataId ==> net[n].h.tick == net[j].h.tick);
      }
    }
  }

  /** The packets of a source from position i on. */
  ghost function OfSource(net: seq<Arrival>, i: nat, id: u16): (s: seq<Arrival>)
    decreases |net|
  {
    if i >= |net| then []
    else
      var n := |net| - 1;
      OfSource(net[..n], i, id) + if net[n].Got? && net[n].h.dataId == id then [net[n]] else []
  }

  // ------------------------------------------------------------------ The receiver follows its attempt

  /** The attempt, all of whose packets are stored and counted. */
  ghost predicate Assembling(net: seq<Arrival>, j: nat, c: Control)
    requires j < |net| && net[j].Got?
  {
    && !c.veryFirst && !c.dumpTick && Current(c) == KeyOf(net[j])
    && AllOf(OfSource(net, j, c.srcId), Current(c)) && c.total == TotalBytes(OfSource(net, j, c.srcId))
  }

  /** The variables of a receiver are what the stream says. */
  ghost predicate Follows(net: seq<Arrival>, c: Control)
  {
    match Attempt(net)
    case None => c.veryFirst && c.prevTick == LastTick(net) && (c.dumpTick <==> SomeGot(net))
    case Some(j) => Assembling(net, j, c)
  }

  lemma SomeGotNext(net: seq<Arrival>)
    requires net != []
    ensures SomeGot(net) <==> SomeGot(net[..|net| - 1]) || net[|net| - 1].Got?
  {
    var n := |net| - 1;
    if SomeGot(net) && !net[n].Got? {
      var i :| 0 <= i < |net| && net[i].Got?;
      assert net[..n][i].Got?;
    }
    if SomeGot(net[..n]) {
      var i :| 0 <= i < n && net[..n][i].Got?;
      assert net[i].Got?;
    }
  }

  lemma {:induction false} NothingGot(net: seq<Arrival>)
    requires !SomeGot(net)
    ensures LastTick(net) == INITIAL_PREV_TICK
    decreases |net|
  {
    if net != [] {
      SomeGotNext(net);
      NothingGot(net[..|net| - 1]);
    }
  }

  /** What is decided with nothing under way. */
  lemma DecideIdle(net: seq<Arrival>, c: Control, h: ReHeader)
    requires c.veryFirst && c.prevTick == LastTick(net) && (c.dumpTick <==> SomeGot(net))
    ensures Decide(c, h) == if Opens(net, h) then Accept(Control(h.tick, false, false, h.dataId, 0))
                            else Skip(Control(h.tick, true, true, h.dataId, 0))
  {
    if !SomeGot(net) {
      NothingGot(net);
    }
  }

  /** How the attempt goes on with the last packet. */
  lemma AttemptNext(net: seq<Arrival>)
    requires net != [] && net[|net| - 1].Got?
    ensures var n, a, before := |net| - 1, net[|net| - 1], Attempt(net[..|net| - 1]);
      Attempt(net) ==
        if before.None? then (if Opens(net[..n], a.h) then Some(n) else None)
        else if KeyOf(a) == KeyOf(net[before.value]) || a.h.dataId != net[before.value].h.dataId then before
        else if a.h.offset == 0 then Some(n)
        else None
  {
  }

  /** What is decided while a buffer is being assembled. */
  lemma DecideUnderWay(c: Control, h: ReHeader)
    requires !c.veryFirst && !c.dumpTick
    ensures Decide(c, h).Accept? <==> h.dataId == c.srcId && (h.tick == c.prevTick || h.offset == 0)
  {
  }

  /** A packet is stored exactly if it is of the buffer being assembled. */
  lemma TakesExactly(net: seq<Arrival>, c: Control)
    requires net != [] && net[|net| - 1].Got? && Follows(net[..|net| - 1], c)
    ensures Decide(c, net[|net| - 1].h).Accept? <==> Takes(net)
  {
    AttemptNext(net);
    var before := Attempt(net[..|net| - 1]);
    if before.Some? {
      DecideUnderWay(c, net[|net| - 1].h);
      assert net[..|net| - 1][before.value] == net[before.value];
    } else {
      DecideIdle(net[..|net| - 1], c, net[|net| - 1].h);
    }
  }

  /** The first packet of an attempt. */
  lemma FollowsFirst(net: seq<Arrival>, c: Control)
    requires net != [] && net[|net| - 1].Got? && Follows(net[..|net| - 1], c) && Attempt(net) == Some(|net| - 1)
    ensures var a := net[|net| - 1]; Decide(c, a.h) == Accept(Control(a.h.tick, false, false, a.h.dataId, 0))
    ensures Assembling(net, |net| - 1, Control(net[|net| - 1].h.tick, false, false, net[|net| - 1].h.dataId,
      |net[|net| - 1].payload|))
  {
    var n, a := |net| - 1, net[|net| - 1];
    if Attempt(net[..n]).None? {
      DecideIdle(net[..n], c, a.h);
    }
    assert OfSource(net[..n], n, a.h.dataId) == [];
    CountOne([], a, KeyOf(a));
  }

  /** A further packet of an attempt. */
  lemma FollowsMore(net: seq<Arrival>, c: Control, j: nat)
    requires net != [] && j < |net| - 1 && net[|net| - 1].Got? && net[j].Got? && Assembling(net[..|net| - 1], j, c)
    requires KeyOf(net[|net| - 1]) == KeyOf(net[j])
    ensures Decide(c, net[|net| - 1].h) == Accept(c)
    ensures Assembling(net, j, c.(total := c.total + |net[|net| - 1].payload|))
  {
    CountOne(OfSource(net[..|net| - 1], j, c.srcId), net[|net| - 1], Current(c));
  }

  /** A packet that is passed over. */
  lemma FollowsPassed(net: seq<Arrival>, c: Control, j: nat)
    requires net != [] && j < |net| - 1 && net[j].Got? && Assembling(net[..|net| - 1], j, c)
    requires net[|net| - 1].Got? ==> net[|net| - 1].h.dataId != net[j].h.dataId
    ensures net[|net| - 1].Got? ==> Decide(c, net[|net| - 1].h) == Skip(c)
    ensures Assembling(net, j, c)
  {
    assert OfSource(net, j, c.srcId) == OfSource(net[..|net| - 1], j, c.srcId);
  }

  /** A packet with which an attempt is given up. */
  lemma FollowsGivenUp(net: seq<Arrival>, c: Control, j: nat)
    requires net != [] && j < |net| - 1 && net[j].Got? && Assembling(net[..|net| - 1], j, c)
    requires net[|net| - 1].Got? && Attempt(net[..|net| - 1]) == Some(j) && Attempt(net).None?
    ensures var h := net[|net| - 1].h; Decide(c, h) == Skip(Control(h.tick, true, true, c.srcId, c.total))
  {
    AttemptNext(net);
  }

  /** What the last packet does while a buffer is being assembled. */
  lemma FollowsOn(net: seq<Arrival>, journal: Journal, j: nat)
    requires net != [] && net[|net| - 1].Got? && Attempt(net[..|net| - 1]) == Some(j) && Attempt(net) != Some(|net| - 1)
    requires Assembling(net[..|net| - 1], j, journal.c)
    ensures Follows(net, Note(journal, net[|net| - 1]).c)
  {
    var a := net[|net| - 1];
    AttemptNext(net);
    assert SomeGot(net);
    if Attempt(net).None? {
      FollowsGivenUp(net, journal.c, j);
    } else if KeyOf(a) == KeyOf(net[j]) {
      FollowsMore(net, journal.c, j);
    } else {
      FollowsPassed(net, journal.c, j);
    }
  }

  lemma FollowsNext(net: seq<Arrival>, journal: Journal)
    requires net != [] && Follows(net[..|net| - 1], journal.c)
    ensures Follows(net, Note(journal, net[|net| - 1]).c)
  {
    var n, a := |net| - 1, net[|net| - 1];
    SomeGotNext(net);
    match Attempt(net[..n])
    case None =>
      if a.Got? {
        DecideIdle(net[..n], journal.c, a.h);
        if Attempt(net).Some? {
          FollowsFirst(net, journal.c);
        }
      }
    case Some(j) =>
      if !a.Got? {
        FollowsPassed(net, journal.c, j);
      } else if Attempt(net) == Some(n) {
        FollowsFirst(net, journal.c);
      } else {
        FollowsOn(net, journal, j);
      }
  }

  /**
   In every stream the receiver assembles the buffer that the stream says: it has stored and counted all packets of
   its source since its first one, and all of them are of its tick.
   */
  lemma {:induction false} AttemptIsRun(net: seq<Arrival>)
    ensures Follows(net, JournalOf(net).c)
    decreases |net|
  {
    if net != [] {
      AttemptIsRun(net[..|net| - 1]);
      FollowsNext(net, JournalOf(net[..|net| - 1]));
    }
  }

  /** The packets that the stream says are stored. */
  ghost function Stored(net: seq<Arrival>): (s: seq<Arrival>)
  {
    if net == [] then []
    else Stored(net[..|net| - 1]) + if Takes(net) then [net[|net| - 1]] else []
  }

  /** They are those that the receiver stores. */
  lemma {:induction false} StoredExactly(net: seq<Arrival>)
    ensures JournalOf(net).all == Stored(net)
    decreases |net|
  {
    if net != [] {
      StoredExactly(net[..|net| - 1]);
      AttemptIsRun(net[..|net| - 1]);
      if net[|net| - 1].Got? {
        TakesExactly(net, JournalOf(net[..|net| - 1]).c);
      }
    }
  }

  // ------------------------------------------------------------------ What an attempt carries

  /** A packet from position i on carries byte x of the buffer. */
  ghost predicate CarriedAt(net: seq<Arrival>, i: nat, key: Key, x: nat)
  {
    exists j :: i <= j < |net| && Carries(net[j], key, x)
  }

  lemma CarriedNext(net: seq<Arrival>, i: nat, key: Key, x: nat)
    requires i < |net|
    ensures CarriedAt(net, i, key, x) <==> CarriedAt(net[..|net| - 1], i, key, x) || Carries(net[|net| - 1], key, x)
  {
    var n := |net| - 1;
    if CarriedAt(net[..n], i, key, x) {
      var j :| i <= j < |net[..n]| && Carries(net[..n][j], key, x);
      assert Carries(net[j], key, x);
    }
    if CarriedAt(net, i, key, x) && !Carries(net[n], key, x) {
      var j :| i <= j < |net| && Carries(net[j], key, x);
      assert Carries(net[..n][j], key, x);
    }
  }

  /** One more packet of the source covers what it carries. */
  lemma CoveredNext(s: seq<Arrival>, s': seq<Arrival>, a: Arrival, key: Key, x: nat)
    requires s' == s + [a] && a.Got? && KeyOf(a) == key
    ensures x in Covered(s') <==> x in Covered(s) || Carries(a, key, x)
  {
    assert s'[..|s'| - 1] == s && s'[|s'| - 1] == a;
  }

  /** What the packets of the source cover is what they carry. */
  ghost predicate Agrees(net: seq<Arrival>, i: nat, key: Key, x: nat)
  {
    x in Covered(OfSource(net, i, key.dataId)) <==> CarriedAt(net, i, key, x)
  }

  lemma AgreesNext(net: seq<Arrival>, i: nat, key: Key, x: nat)
    requires i < |net| && AllOf(OfSource(net, i, key.dataId), key) && Agrees(net[..|net| - 1], i, key, x)
    ensures Agrees(net, i, key, x)
  {
    var a, s, s' := net[|net| - 1], OfSource(net[..|net| - 1], i, key.dataId), OfSource(net, i, key.dataId);
    CarriedNext(net, i, key, x);
    if a.Got? && a.h.dataId == key.dataId {
      assert s'[|s'| - 1] == a;
      CoveredNext(s, s', a, key, x);
    } else {
      assert s' == s && !Carries(a, key, x);
    }
  }

  lemma AllOfFront(net: seq<Arrival>, i: nat, key: Key)
    requires i < |net| && AllOf(OfSource(net, i, key.dataId), key)
    ensures AllOf(OfSource(net[..|net| - 1], i, key.dataId), key)
  {
    assert OfSource(net[..|net| - 1], i, key.dataId) <= OfSource(net, i, key.dataId);
  }

  lemma {:induction false} SourceCovers(net: seq<Arrival>, i: nat, key: Key, x: nat)
    requires AllOf(OfSource(net, i, key.dataId), key)
    ensures Agrees(net, i, key, x)
    decreases |net|
  {
    if i < |net| {
      AllOfFront(net, i, key);
      SourceCovers(net[..|net| - 1], i, key, x);
      AgreesNext(net, i, key, x);
    }
  }

  lemma {:induction false} SourceDuplicateFree(net: seq<Arrival>, i: nat, key: Key)
    requires DuplicateFree(net) && AllOf(OfSource(net, i, key.dataId), key)
    ensures DuplicateFree(OfSource(net, i, key.dataId))
    decreases |net|
  {
    if i < |net| {
      var n, id := |net| - 1, key.dataId;
      var s, s' := OfSource(net[..n], i, id), OfSource(net, i, id);
      AllOfFront(net, i, key);
      SourceDuplicateFree(net[..n], i, key);
      if net[n].Got? && net[n].h.dataId == id {
        assert s'[..|s'| - 1] == s && s'[|s'| - 1] == net[n];
        forall x | net[n].h.offset <= x < EndOf(net[n]) ensures x !in Covered(s) {
          SourceCovers(net[..n], i, key, x);
          assert Carries(net[n], key, x);
        }
        DuplicateFreeAfter(s', key);
      }
    }
  }

  lemma {:induction false} SourceGenuine(world: World, net: seq<Arrival>, i: nat, id: u16)
    requires AllGenuine(world, net)
    ensures AllGenuine(world, OfSource(net, i, id))
    decreases |net|
  {
    if i < |net| {
      SourceGenuine(world, net[..|net| - 1], i, id);
      assert Genuine(world, net[|net| - 1]);
    }
  }

  /** Every byte of a buffer of n bytes is carried by a packet from position i on. */
  ghost predicate CarriedSince(net: seq<Arrival>, i: nat, key: Key, n: nat)
  {
    forall x: nat :: x < n ==> CarriedAt(net, i, key, x)
  }

  /** As many bytes as the buffer has: that is every one of them. */
  lemma EnoughIsAll(world: World, net: seq<Arrival>, i: nat)
    requires AllGenuine(world, net) && DuplicateFree(net) && net != [] && net[|net| - 1].Got?
    requires AllOf(OfSource(net, i, net[|net| - 1].h.dataId), KeyOf(net[|net| - 1]))
    ensures var a := net[|net| - 1];
      TotalBytes(OfSource(net, i, a.h.dataId)) >= a.h.length <==> CarriedSince(net, i, KeyOf(a), a.h.length)
  {
    var a := net[|net| - 1];
    var key, s := KeyOf(a), OfSource(net, i, a.h.dataId);
    assert Genuine(world, a);
    SourceGenuine(world, net, i, a.h.dataId);
    SourceDuplicateFree(net, i, key);
    CountsIfDuplicateFree(s, key);
    CoveredAll(world, s, key);
    forall x: nat ensures x in Covered(s) <==> CarriedAt(net, i, key, x) {
      SourceCovers(net, i, key, x);
    }
  }

  // ------------------------------------------------------------------ The theorems

  /** The bytes counted when the last packet of the stream, one that is stored, has been stored. */
  ghost function Counted(net: seq<Arrival>): (n: nat)
    requires net != [] && Takes(net)
  {
    TotalBytes(OfSource(net, Attempt(net).value, net[|net| - 1].h.dataId))
  }

  /** Why a packet that is stored finds no room. */
  function WhyNoRoom(policy: Policy, n: nat): (r: Result)
  {
    if policy.Fixed? then Failed(BUF_TOO_SMALL)
    else if 2 * n > policy.limit then Failed(OUT_OF_MEM)
    else Crash(WriteOutOfBounds)
  }

  /** What a packet makes of a state that waits, in terms of the decision about it. */
  lemma StepExactly(policy: Policy, s: State, a: Arrival, total: nat)
    requires s.result == Waiting && a.Got?
    requires Decide(s.c, a.h).Accept? ==> total == Decide(s.c, a.h).c.total + |a.payload|
    ensures Step(policy, s, a).result ==
      if a.payload == [] && s.c.veryFirst then Crash(DivideByZero)
      else if Decide(s.c, a.h).Skip? then Waiting
      else if !HasRoom(policy, |s.buf|, EndOf(a)) then WhyNoRoom(policy, |s.buf|)
      else if total >= a.h.length then Complete(total, a.h.tick, a.h.dataId)
      else Waiting
  {
  }

  /**
   For every stream and every kind of memory: what the next packet makes of a receiver that waits, told by the
   stream alone. A failed or short read ends the call; an empty packet with nothing under way divides by zero; a
   packet that is not of the buffer being assembled is passed over; one that is ends the call if it finds no room,
   and completes the buffer exactly if the packets since the attempt began count up to its length.
   */
  lemma NextExactly(policy: Policy, buf: seq<byte>, net: seq<Arrival>)
    requires net != [] && Run(policy, Init(buf), net[..|net| - 1]).result == Waiting
    ensures var n, a := |Run(policy, Init(buf), net[..|net| - 1]).buf|, net[|net| - 1];
      Run(policy, Init(buf), net).result ==
        if a.RecvFailed? then Failed(RECV_MSG)
        else if a.TooShort? then Failed(INTERNAL_ERROR)
        else if a.payload == [] && Attempt(net[..|net| - 1]).None? then Crash(DivideByZero)
        else if !Takes(net) then Waiting
        else if !HasRoom(policy, n, EndOf(a)) then WhyNoRoom(policy, n)
        else if Counted(net) >= a.h.length then Complete(Counted(net), a.h.tick, a.h.dataId)
        else Waiting
  {
    var n, a := |net| - 1, net[|net| - 1];
    JournalTracks(policy, buf, net[..n]);
    AttemptIsRun(net[..n]);
    if a.Got? {
      TakesExactly(net, JournalOf(net[..n]).c);
      AttemptIsRun(net);
      StepExactly(policy, Run(policy, Init(buf), net[..n]), a, JournalOf(net).c.total);
    }
  }

  /**
   For every duplicate-free stream of genuine packets, ticks and sources mixed, lost and reordered at will: a
   receiver that waits, and has room for the next packet, completes with it if and only if the packet is of the
   buffer being assembled and every byte of that is carried by a packet since the one with which its attempt began.
   Those that arrived before, or while another source or tick was being assembled, do not count.
   */
  lemma CompletesMixedExactly(world: World, policy: Policy, buf: seq<byte>, net: seq<Arrival>)
    requires AllGenuine(world, net) && DuplicateFree(net)
    requires net != [] && Run(policy, Init(buf), net[..|net| - 1]).result == Waiting
    requires net[|net| - 1].Got? && net[|net| - 1].payload != []
    requires HasRoom(policy, |Run(policy, Init(buf), net[..|net| - 1]).buf|, EndOf(net[|net| - 1]))
    ensures Run(policy, Init(buf), net).result.Complete? <==>
      Takes(net) && CarriedSince(net, Attempt(net).value, KeyOf(net[|net| - 1]), net[|net| - 1].h.length)
  {
    NextExactly(policy, buf, net);
    if Takes(net) {
      AttemptIsRun(net);
      EnoughIsAll(world, net, Attempt(net).value);
    }
  }
}
