/** Streams of packets for getBuffers: one that completes a tick, and one that never does. */
module EtStreams {
  import opened Bytes
  import opened Headers
  import opened EtAssembler
  import opened EtTheorems
  import opened EtSafety
  import opened EtRuns
  import opened EtCompletion
  import opened ReassemblerTheorems
  import R = Reassembler

  /** The set of free entries always has something to give. */
  lemma {:induction false} SomeChoices(cfg: Config, net: seq<R.Arrival>) returns (choices: seq<nat>)
    requires cfg.pool >= 1
    ensures |choices| == |net| && ChoicesOk(cfg, net, choices)
    decreases |net|
  {
    if net == [] {
      choices := [];
    } else {
      var n := |net| - 1;
      var before := SomeChoices(cfg, net[..n]);
      var s, c: nat := Run(cfg, net[..n], before), 0;
      if s.free != {} {
        c :| c in s.free;
      }
      choices := before + [c];
      MoreChoices(cfg, net, before, c);
    }
  }

  lemma MoreChoices(cfg: Config, net: seq<R.Arrival>, before: seq<nat>, c: nat)
    requires cfg.pool >= 1 && net != [] && |before| == |net| - 1 && ChoicesOk(cfg, net[..|net| - 1], before)
    requires ChoiceOk(Run(cfg, net[..|net| - 1], before), c)
    ensures ChoicesOk(cfg, net, before + [c])
  {
    var n, choices := |net| - 1, before + [c];
    forall k | 0 <= k < |net| ensures ChoiceOk(Run(cfg, net[..k], choices[..k]), choices[k]) {
      if k < n {
        assert net[..k] == net[..n][..k] && choices[..k] == before[..k];
      } else {
        assert net[..k] == net[..n] && choices[..k] == before;
      }
    }
  }

  // ------------------------------------------------------------------ When the loop goes on

  /** A genuine packet of an expected source ends the loop exactly if its buffer is too long or nothing was fetched. */
  lemma LoopsOn(world: World, cfg: Config, net: seq<R.Arrival>, choices: seq<nat>, k: nat)
    requires |choices| == |net| && cfg.pool >= 1 && k < |net| && AllGenuine(world, net) && Known(cfg, net[k])
    requires Run(cfg, net[..k], choices[..k]).status == Looping
    ensures Run(cfg, net[..k + 1], choices[..k + 1]).status == Looping <==>
      net[k].h.length <= |cfg.blank| && !Unfetched(cfg, net, k)
  {
    RunNext(cfg, net, choices, k);
    UnfetchedExactly(cfg, net, choices, k);
    assert Genuine(world, net[k]);
    var idx := IndexOf(cfg.ids, net[k].h.dataId).value;
    TakeLoops(world, cfg, Run(cfg, net[..k], choices[..k]), idx, net[k], choices[k]);
  }

  lemma TakeLoops(world: World, cfg: Config, s: Et, idx: nat, a: R.Arrival, choice: nat)
    requires a.Got? && Genuine(world, a) && Fit(cfg, s) && idx < |cfg.ids| && s.status == Looping
    ensures Take(cfg, s, idx, a.h, a.payload, choice).status == Looping <==>
      a.h.length <= |cfg.blank| && Select(cfg, s, a.h.tick, choice).status != Undefined
  {
    var s1, s2, s3 := TakeStages(cfg, s, idx, a.h, a.payload, choice);
    if s1.status == Looping {
      WriteInside(world, cfg, s1, idx, a);
    }
  }

  /** A loop that has ended stays so. */
  lemma StoppedStep(cfg: Config, s: Et, a: R.Arrival, choice: nat)
    requires Fit(cfg, s) && Step(cfg, s, a, choice).status == Looping
    ensures s.status == Looping
  {
  }

  // ------------------------------------------------------------------ Writing to an entry that went back

  /** The tick of the last packet from an expected source before packet k. */
  ghost function LastKnown(cfg: Config, net: seq<R.Arrival>, k: nat): (t: Option<u64>)
    requires k <= |net|
  {
    if k == 0 then None
    else if Known(cfg, net[k - 1]) then Some(net[k - 1].h.tick)
    else LastKnown(cfg, net, k - 1)
  }

  ghost predicate Recalls(cfg: Config, net: seq<R.Arrival>, k: nat, s: Et)
    requires k <= |net|
  {
    s.status == Looping ==> LastKnown(cfg, net, k) == if s.cached then Some(s.prevTick) else None
  }

  lemma RecallsStep(cfg: Config, net: seq<R.Arrival>, k: nat, s: Et, choice: nat)
    requires k < |net| && Fit(cfg, s) && Recalls(cfg, net, k, s)
    ensures Recalls(cfg, net, k + 1, Step(cfg, s, net[k], choice))
  {
    if s.status == Looping && Known(cfg, net[k]) {
      TakeRecalls(cfg, s, IndexOf(cfg.ids, net[k].h.dataId).value, net[k].h, net[k].payload, choice);
    } else {
      StepOther(cfg, s, net[k], choice);
    }
  }

  /** What a packet does to the variables that remember it, and to `stale`. */
  lemma TakeRecalls(cfg: Config, s: Et, idx: nat, h: ReHeader, payload: seq<byte>, choice: nat)
    requires Fit(cfg, s) && idx < |cfg.ids| && s.status == Looping
    ensures var s' := Take(cfg, s, idx, h, payload, choice);
      && (s'.status == Looping ==> s'.cached && s'.prevTick == h.tick)
      && (s'.stale <==> s.stale || (s.cached && s.prevTick == h.tick && h.tick !in s.open && Fits(cfg, h, payload)))
  {
    var s1, s2, s3 := TakeStages(cfg, s, idx, h, payload, choice);
    WriteFrame(cfg, s1, idx, h, payload);
    assert SizedEntry(cfg, s1.entries[s1.current]);
  }

  /** The packet's buffer and its data fit an event. */
  predicate Fits(cfg: Config, h: ReHeader, payload: seq<byte>)
  {
    h.length <= |cfg.blank| && h.offset + |payload| <= |cfg.blank|
  }

  lemma {:induction false} RecallsAlways(cfg: Config, net: seq<R.Arrival>, choices: seq<nat>, states: seq<Et>, k: nat)
    requires |choices| == |net| && |states| == |net| + 1 && cfg.pool >= 1 && states[0] == Init(cfg) && k <= |net|
    requires forall k :: 0 <= k < |net| ==> Follows(cfg, net, choices, states, k)
    ensures Recalls(cfg, net, k, states[k])
    decreases k
  {
    if k > 0 {
      RecallsAlways(cfg, net, choices, states, k - 1);
      assert Follows(cfg, net, choices, states, k - 1);
      RecallsStep(cfg, net, k - 1, states[k - 1], choices[k - 1]);
    }
  }

  /** Packet k goes on with a tick that the packet before it, or one before that, closed. */
  ghost predicate GoesOnClosed(cfg: Config, net: seq<R.Arrival>, k: nat, s: Et)
    requires k < |net|
  {
    && Known(cfg, net[k]) && LastKnown(cfg, net, k) == Some(net[k].h.tick) && net[k].h.tick !in s.open
    && Fits(cfg, net[k].h, net[k].payload)
  }

  /**
   For every stream: packet k is written to an entry that went back exactly if the last packet from an expected
   source was of the same tick and the tick is closed, for then neither is the map looked at nor an entry taken.
   */
  lemma StaleExactly(cfg: Config, net: seq<R.Arrival>, choices: seq<nat>, k: nat)
    requires |choices| == |net| && cfg.pool >= 1 && k < |net| && Run(cfg, net[..k], choices[..k]).status == Looping
    ensures var s := Run(cfg, net[..k], choices[..k]);
      Run(cfg, net[..k + 1], choices[..k + 1]).stale <==> s.stale || GoesOnClosed(cfg, net, k, s)
  {
    var s := Run(cfg, net[..k], choices[..k]);
    var states := Trace(cfg, net, choices);
    RecallsAlways(cfg, net, choices, states, k);
    RunNext(cfg, net, choices, k);
    if Known(cfg, net[k]) {
      TakeRecalls(cfg, s, IndexOf(cfg.ids, net[k].h.dataId).value, net[k].h, net[k].payload, choices[k]);
    } else {
      StepOther(cfg, s, net[k], choices[k]);
    }
  }

  lemma ExpiredIsClosed(cfg: Config, s: Et, t: u64)
    requires InWindow(cfg, s) && Expired(cfg, t, s.biggest)
    ensures t !in s.open
  {
  }

  /** Two packets in a row of a tick that has left the window: the second is written to an entry that went back. */
  lemma LatePacketsGoStale(cfg: Config, net: seq<R.Arrival>, choices: seq<nat>, k: nat)
    requires |choices| == |net| && cfg.pool >= 1 && k + 1 < |net|
    requires Known(cfg, net[k]) && Known(cfg, net[k + 1]) && net[k].h.tick == net[k + 1].h.tick
    requires Run(cfg, net[..k + 1], choices[..k + 1]).status == Looping && Fits(cfg, net[k + 1].h, net[k + 1].payload)
    requires Expired(cfg, net[k].h.tick, Run(cfg, net[..k + 1], choices[..k + 1]).biggest)
    ensures Run(cfg, net[..k + 2], choices[..k + 2]).stale
  {
    WindowAlways(cfg, net, choices, k + 1);
    ExpiredIsClosed(cfg, Run(cfg, net[..k + 1], choices[..k + 1]), net[k].h.tick);
    assert LastKnown(cfg, net, k + 1) == Some(net[k].h.tick);
    StaleExactly(cfg, net, choices, k + 1);
  }

  // ------------------------------------------------------------------ Bursts

  /** From a up to b all packets from expected sources are of tick t, the last is, and every source is carried whole. */
  ghost predicate Burst(world: World, cfg: Config, net: seq<R.Arrival>, a: nat, b: nat, t: u64)
  {
    && a < b <= |net| && Known(cfg, net[b - 1]) && net[b - 1].h.tick == t
    && forall i :: 0 <= i < |cfg.ids| ==> WholeOf(world, cfg, net, a, b, t, i)
  }

  ghost predicate WholeOf(world: World, cfg: Config, net: seq<R.Arrival>, a: nat, b: nat, t: u64, i: nat)
    requires a <= b <= |net| && i < |cfg.ids|
  {
    WholeRun(world, cfg, net, a, b, t, cfg.ids[i])
  }

  lemma BurstIsWhole(world: World, cfg: Config, net: seq<R.Arrival>, a: nat, b: nat, t: u64)
    requires Burst(world, cfg, net, a, b, t)
    ensures AllRuns(world, cfg, net, b, t)
  {
    forall i | 0 <= i < |cfg.ids| ensures RunOf(world, cfg, net, b, t, i) {
      assert WholeOf(world, cfg, net, a, b, t, i);
    }
  }

  /** Packet k is not one of another tick. */
  ghost predicate OnTick(cfg: Config, net: seq<R.Arrival>, k: nat, t: u64)
    requires k < |net|
  {
    Known(cfg, net[k]) ==> net[k].h.tick == t
  }

  lemma BurstFacts(world: World, cfg: Config, net: seq<R.Arrival>, a: nat, b: nat, t: u64)
    requires Burst(world, cfg, net, a, b, t)
    ensures Known(cfg, net[b - 1]) && forall k :: a <= k < b ==> OnTick(cfg, net, k, t)
    ensures AllRuns(world, cfg, net, b, t)
  {
    BurstIsWhole(world, cfg, net, a, b, t);
    assert WholeOf(world, cfg, net, a, b, t, IndexOf(cfg.ids, net[b - 1].h.dataId).value);
  }

  /** A packet before the last of its tick gives nothing back. */
  lemma NothingNew(world: World, cfg: Config, net: seq<R.Arrival>, choices: seq<nat>, k: nat, j: nat)
    requires |choices| == |net| && cfg.pool >= 1 && ChoicesOk(cfg, net, choices) && k < j < |net|
    requires GoodStream(world, cfg, net) && DistinctIds(cfg) && Known(cfg, net[j])
    requires Run(cfg, net[..k + 1], choices[..k + 1]).status == Looping
    requires (Known(cfg, net[k]) ==> net[k].h.tick == net[j].h.tick)
    ensures Newly(world, cfg, net, k) == []
  {
    NotYet(world, cfg, net, choices, k + 1, j);
  }

  /** Packet k gives back tick t if it is the last of the burst, and no other. */
  ghost predicate Gives(states: seq<Et>, k: nat, b: nat, t: u64)
    requires k + 1 < |states|
  {
    CompletedTicks(states[k + 1].returned) == CompletedTicks(states[k].returned) + if k + 1 == b then [t] else []
  }

  lemma {:induction false} GivesOnce(states: seq<Et>, a: nat, m: nat, b: nat, t: u64)
    requires a <= m <= b < |states| && forall k :: a <= k < m ==> Gives(states, k, b, t)
    ensures CompletedTicks(states[m].returned) == CompletedTicks(states[a].returned) + if a < m == b then [t] else []
    decreases m
  {
    if a < m {
      GivesOnce(states, a, m - 1, b, t);
      assert Gives(states, m - 1, b, t);
    }
  }

  lemma LastNewly(world: World, cfg: Config, net: seq<R.Arrival>, k: nat, t: u64)
    requires k < |net| && Known(cfg, net[k]) && net[k].h.tick == t && AllRuns(world, cfg, net, k + 1, t)
    ensures Newly(world, cfg, net, k) == [t]
  {
  }

  lemma GivesNewly(
    world: World, cfg: Config, net: seq<R.Arrival>, choices: seq<nat>, states: seq<Et>, k: nat, b: nat, t: u64
  )
    requires |choices| == |net| && cfg.pool >= 1 && ChoicesOk(cfg, net, choices) && DistinctIds(cfg)
    requires k < |net| && GoodStream(world, cfg, net) && Newly(world, cfg, net, k) == if k + 1 == b then [t] else []
    requires TraceAt(cfg, net, choices, states, k) && states[k + 1].status == Looping
    ensures Gives(states, k, b, t)
  {
    CompletedWhen(world, cfg, net, choices, k);
  }

  ghost predicate TraceAt(cfg: Config, net: seq<R.Arrival>, choices: seq<nat>, states: seq<Et>, k: nat)
    requires |choices| == |net| && cfg.pool >= 1 && k < |net|
  {
    && |states| == |net| + 1 && states[k] == Run(cfg, net[..k], choices[..k])
    && states[k + 1] == Run(cfg, net[..k + 1], choices[..k + 1])
  }

  /** A packet before the last of the burst. */
  lemma BurstEarly(
    world: World, cfg: Config, net: seq<R.Arrival>, choices: seq<nat>, states: seq<Et>, k: nat, b: nat, t: u64
  )
    requires |choices| == |net| && cfg.pool >= 1 && ChoicesOk(cfg, net, choices) && DistinctIds(cfg)
    requires k + 1 < b <= |net| && OnTick(cfg, net, k, t) && Known(cfg, net[b - 1]) && net[b - 1].h.tick == t
    requires GoodStream(world, cfg, net) && TraceAt(cfg, net, choices, states, k) && states[k + 1].status == Looping
    ensures Gives(states, k, b, t)
  {
    NothingNew(world, cfg, net, choices, k, b - 1);
    GivesNewly(world, cfg, net, choices, states, k, b, t);
  }

  lemma BurstGives(
    world: World, cfg: Config, net: seq<R.Arrival>, choices: seq<nat>, states: seq<Et>,
    k: nat, m: nat, b: nat, t: u64
  )
    requires |choices| == |net| && cfg.pool >= 1 && ChoicesOk(cfg, net, choices) && DistinctIds(cfg)
    requires k < m <= b <= |net| && OnTick(cfg, net, k, t) && Known(cfg, net[b - 1]) && net[b - 1].h.tick == t
    requires GoodStream(world, cfg, net) && AllRuns(world, cfg, net, b, t)
    requires Run(cfg, net[..m], choices[..m]).status == Looping && TraceAt(cfg, net, choices, states, k)
    ensures Gives(states, k, b, t)
  {
    RanBefore(cfg, net, choices, k + 1, m);
    if k + 1 < b {
      BurstEarly(world, cfg, net, choices, states, k, b, t);
    } else {
      LastNewly(world, cfg, net, k, t);
      GivesNewly(world, cfg, net, choices, states, k, b, t);
    }
  }

  /** A loop that runs after m packets ran before. */
  lemma {:induction false} RanBefore(cfg: Config, net: seq<R.Arrival>, choices: seq<nat>, k: nat, m: nat)
    requires |choices| == |net| && cfg.pool >= 1 && k <= m <= |net|
    requires Run(cfg, net[..m], choices[..m]).status == Looping
    ensures Run(cfg, net[..k], choices[..k]).status == Looping
    decreases m
  {
    if k < m {
      RunNext(cfg, net, choices, m - 1);
      StoppedStep(cfg, Run(cfg, net[..m - 1], choices[..m - 1]), net[m - 1], choices[m - 1]);
      RanBefore(cfg, net, choices, k, m - 1);
    }
  }

  /**
   A burst, whatever came before it: the tick is given back with its last packet, not before, and no other
   tick meanwhile.
   */
  lemma BurstCompletes(
    world: World, cfg: Config, net: seq<R.Arrival>, choices: seq<nat>, a: nat, m: nat, b: nat, t: u64
  )
    requires |choices| == |net| && cfg.pool >= 1 && ChoicesOk(cfg, net, choices) && DistinctIds(cfg)
    requires GoodStream(world, cfg, net) && Burst(world, cfg, net, a, b, t) && a <= m <= b
    requires Run(cfg, net[..m], choices[..m]).status == Looping
    ensures CompletedTicks(Run(cfg, net[..m], choices[..m]).returned) ==
      CompletedTicks(Run(cfg, net[..a], choices[..a]).returned) + if m == b then [t] else []
  {
    BurstFacts(world, cfg, net, a, b, t);
    assert OnTick(cfg, net, b - 1, t);
    BurstSteps(world, cfg, net, choices, a, m, b, t);
  }

  lemma BurstSteps(world: World, cfg: Config, net: seq<R.Arrival>, choices: seq<nat>, a: nat, m: nat, b: nat, t: u64)
    requires |choices| == |net| && cfg.pool >= 1 && ChoicesOk(cfg, net, choices) && DistinctIds(cfg)
    requires a <= m <= b <= |net| && a < b && Known(cfg, net[b - 1]) && net[b - 1].h.tick == t
    requires GoodStream(world, cfg, net) && AllRuns(world, cfg, net, b, t)
    requires Run(cfg, net[..m], choices[..m]).status == Looping
    requires forall k :: a <= k < b ==> OnTick(cfg, net, k, t)
    ensures CompletedTicks(Run(cfg, net[..m], choices[..m]).returned) ==
      CompletedTicks(Run(cfg, net[..a], choices[..a]).returned) + if m == b then [t] else []
  {
    var states := Trace(cfg, net, choices);
    forall k | a <= k < m ensures Gives(states, k, b, t) {
      assert TraceAt(cfg, net, choices, states, k);
      BurstGives(world, cfg, net, choices, states, k, m, b, t);
    }
    GivesOnce(states, a, m, b, t);
    assert states[a] == Run(cfg, net[..a], choices[..a]) && states[m] == Run(cfg, net[..m], choices[..m]);
  }

  // The smallest burst: one source, one packet of one byte.

  function OnePacket(x: byte, tick: u64): (net: seq<R.Arrival>)
  {
    [R.Got(ReHeader(2, 7, 0, 1, tick), [x])]
  }

  lemma OnePacketBurst(cfg: Config, x: byte, tick: u64)
    requires cfg.ids == [7] && cfg.prescale == 1 && tick + 4 < WORD64
    ensures GoodStream(map[Key(tick, 7) := [x]], cfg, OnePacket(x, tick))
    ensures Burst(map[Key(tick, 7) := [x]], cfg, OnePacket(x, tick), 0, 1, tick)
  {
    var net, world: World := OnePacket(x, tick), map[Key(tick, 7) := [x]];
    assert Genuine(world, net[0]) && IndexOf(cfg.ids, 7) == Some(0);
    assert SourceBytes(net, 7, 0, 1) == SourceBytes(net, 7, 0, 0) + 1;
    assert From(net[0], 7);
    assert WholeOf(world, cfg, net, 0, 1, tick, 0);
  }

  lemma OnePacketTick(cfg: Config, x: byte, tick: u64, choices: seq<nat>)
    requires cfg.ids == [7] && |cfg.blank| == 1 && cfg.prescale == 1 && cfg.pool == 10 && tick + 4 < WORD64
    requires |choices| == 1 && ChoicesOk(cfg, OnePacket(x, tick), choices)
    ensures CompletedTicks(Run(cfg, OnePacket(x, tick), choices).returned) == [tick]
  {
    OnePacketBurst(cfg, x, tick);
    FirstBurst(map[Key(tick, 7) := [x]], cfg, OnePacket(x, tick), choices, tick);
  }

  lemma FirstBurst(world: World, cfg: Config, net: seq<R.Arrival>, choices: seq<nat>, t: u64)
    requires |choices| == |net| == 1 && cfg.pool >= 1 && ChoicesOk(cfg, net, choices) && DistinctIds(cfg)
    requires t != UINT64_MAX
    requires GoodStream(world, cfg, net) && Burst(world, cfg, net, 0, 1, t) && Known(cfg, net[0])
    requires net[0].h.tick == t && net[0].h.length <= |cfg.blank|
    ensures CompletedTicks(Run(cfg, net, choices).returned) == [t]
  {
    assert net[..1] == net && choices[..1] == choices && net[..0] == [] && choices[..0] == [];
    LoopsOn(world, cfg, net, choices, 0);
    BurstCompletes(world, cfg, net, choices, 0, 1, 1, t);
    assert CompletedTicks(Init(cfg).returned) == [];
  }

  // ------------------------------------------------------------------ Switching ticks

  /** Each packet is of another tick than the one before it, and is only a part of its buffer. */
  ghost predicate Switching(cfg: Config, net: seq<R.Arrival>)
  {
    && (forall k :: 0 <= k < |net| ==> Known(cfg, net[k]) && |net[k].payload| < net[k].h.length)
    && (forall k :: 0 < k < |net| ==> Changes(net, k))
  }

  ghost predicate Changes(net: seq<R.Arrival>, k: nat)
    requires 0 < k < |net|
  {
    net[k].Got? && net[k - 1].Got? ==> net[k].h.tick != net[k - 1].h.tick
  }

  ghost predicate NoneFlagged(events: seq<EtEvent>)
  {
    forall i :: 0 <= i < |events| ==> !events[i].hasData
  }

  ghost predicate Unflagged(s: Et)
    requires Wired(s)
  {
    CompletedTicks(s.returned) == [] && forall t :: t in s.open ==> NoneFlagged(s.entries[s.open[t]])
  }

  lemma SelectUnflagged(cfg: Config, s: Et, tick: u64, choice: nat)
    requires Fit(cfg, s) && Conserved(s) && ChoiceOk(s, choice) && Unflagged(s)
    ensures Fit(cfg, Select(cfg, s, tick, choice)) && Unflagged(Select(cfg, s, tick, choice))
  {
    var s' := Select(cfg, s, tick, choice);
    SelectFit(cfg, s, tick, choice);
    forall t | t in s'.open ensures NoneFlagged(s'.entries[s'.open[t]]) {
      if t in s.open {
        SelectFrame(cfg, s, tick, choice, t);
      } else {
        SelectFresh(cfg, s, tick, choice);
      }
    }
  }

  lemma WriteUnflagged(cfg: Config, s: Et, idx: nat, h: ReHeader, payload: seq<byte>)
    requires Fit(cfg, s) && idx < |cfg.ids| && Conserved(s) && Unflagged(s) && Uses(s, h.tick, s.current)
    requires s.status == Looping
    requires s.written == Zeros(|cfg.ids|) && |payload| < h.length && Write(cfg, s, idx, h, payload).status == Looping
    ensures var s' := Write(cfg, s, idx, h, payload); Fit(cfg, s') && Unflagged(s') && s'.written[idx] < h.length
  {
    var s' := Write(cfg, s, idx, h, payload);
    WriteFit(cfg, s, idx, h, payload);
    WriteFrame(cfg, s, idx, h, payload);
    var ev' := WriteResult(cfg, s, idx, h, payload);
    assert NoneFlagged(s.entries[s.open[h.tick]]);
    forall t | t in s'.open ensures NoneFlagged(s'.entries[s'.open[t]]) {
      assert NoneFlagged(s.entries[s.open[t]]);
    }
  }

  /** A write that ends the loop leaves everything as it was. */
  lemma WriteStops(cfg: Config, s: Et, idx: nat, h: ReHeader, payload: seq<byte>)
    requires Usable(cfg, s, idx) && Wired(s) && Unflagged(s) && s.status == Looping
    requires Write(cfg, s, idx, h, payload).status != Looping
    ensures Wired(Write(cfg, s, idx, h, payload)) && Unflagged(Write(cfg, s, idx, h, payload))
  {
  }

  lemma TakeUnflagged(cfg: Config, s: Et, idx: nat, h: ReHeader, payload: seq<byte>, choice: nat)
    requires Fit(cfg, s) && idx < |cfg.ids| && Conserved(s) && ChoiceOk(s, choice) && Unflagged(s)
    requires s.status == Looping && |payload| < h.length && (s.cached ==> h.tick != s.prevTick)
    ensures Unflagged(Take(cfg, s, idx, h, payload, choice))
  {
    var s1, s2, s3 := TakeStages(cfg, s, idx, h, payload, choice);
    SelectUnflagged(cfg, s, h.tick, choice);
    SelectConserved(cfg, s, h.tick, choice);
    if s1.status == Looping && s2.status == Looping {
      WriteUnflagged(cfg, s1, idx, h, payload);
      EvictCompletes(cfg, s2);
    } else if s1.status == Looping {
      WriteStops(cfg, s1, idx, h, payload);
    }
  }

  /** Nothing is flagged before packet k, whose tick is not the one before. */
  ghost predicate Switched(cfg: Config, net: seq<R.Arrival>, k: nat, s: Et)
    requires k <= |net|
  {
    && Fit(cfg, s) && Unflagged(s)
    && (s.status == Looping && s.cached ==> k > 0 && net[k - 1].Got? && s.prevTick == net[k - 1].h.tick)
  }

  lemma SwitchedStep(cfg: Config, net: seq<R.Arrival>, k: nat, s: Et, choice: nat)
    requires k < |net| && Switching(cfg, net) && Switched(cfg, net, k, s) && Conserved(s) && ChoiceOk(s, choice)
    ensures Switched(cfg, net, k + 1, Step(cfg, s, net[k], choice))
  {
    assert Known(cfg, net[k]) && |net[k].payload| < net[k].h.length;
    if s.status == Looping {
      var idx := IndexOf(cfg.ids, net[k].h.dataId).value;
      assert k > 0 ==> Changes(net, k);
      TakeUnflagged(cfg, s, idx, net[k].h, net[k].payload, choice);
      TakeShrinks(cfg, s, idx, net[k].h, net[k].payload, choice);
    }
  }

  lemma InitSwitched(cfg: Config, net: seq<R.Arrival>)
    requires cfg.pool >= 1
    ensures Switched(cfg, net, 0, Init(cfg))
  {
    InitFit(cfg);
  }

  ghost predicate Passes(cfg: Config, net: seq<R.Arrival>, states: seq<Et>, k: nat)
    requires |states| == |net| + 1 && k < |net|
  {
    Switched(cfg, net, k, states[k]) ==> Switched(cfg, net, k + 1, states[k + 1])
  }

  lemma SwitchedNext(cfg: Config, net: seq<R.Arrival>, choices: seq<nat>, states: seq<Et>, k: nat)
    requires |choices| == |net| && |states| == |net| + 1 && k < |net| && Switching(cfg, net)
    requires Follows(cfg, net, choices, states, k) && Conserved(states[k]) && ChoiceOk(states[k], choices[k])
    ensures Passes(cfg, net, states, k)
  {
    if Switched(cfg, net, k, states[k]) {
      SwitchedStep(cfg, net, k, states[k], choices[k]);
    }
  }

  lemma {:induction false} SwitchedAlways(cfg: Config, net: seq<R.Arrival>, states: seq<Et>, k: nat)
    requires |states| == |net| + 1 && k <= |net| && Switched(cfg, net, 0, states[0])
    requires forall k :: 0 <= k < |net| ==> Passes(cfg, net, states, k)
    ensures Switched(cfg, net, k, states[k])
    decreases k
  {
    if k > 0 {
      SwitchedAlways(cfg, net, states, k - 1);
      assert Passes(cfg, net, states, k - 1);
    }
  }

  /**
   Counters restart with every change of tick, so a stream of parts that changes ticks at every packet, genuine
   or not, never completes a tick and never flags an event.
   */
  lemma SwitchingNeverCompletes(cfg: Config, net: seq<R.Arrival>, choices: seq<nat>)
    requires |choices| == |net| && cfg.pool >= 1 && ChoicesOk(cfg, net, choices) && Switching(cfg, net)
    ensures Unflagged(Run(cfg, net, choices))
  {
    var states := Trace(cfg, net, choices);
    forall k | 0 <= k < |net| ensures Passes(cfg, net, states, k) {
      EntriesConserved(cfg, net, choices, k);
      SwitchedNext(cfg, net, choices, states, k);
    }
    InitSwitched(cfg, net);
    SwitchedAlways(cfg, net, states, |net|);
    assert net[..|net|] == net && choices[..|net|] == choices;
  }

  // ------------------------------------------------------------------ All bytes, and nothing complete

  /** The buffers of two ticks, each in two packets, in turns. */
  function InTurns(t: u64, u: u64): (net: seq<R.Arrival>)
  {
    [Half(t, 0), Half(u, 0), Half(t, 1), Half(u, 1)]
  }

  function Half(tick: u64, offset: u32): (a: R.Arrival)
  {
    R.Got(ReHeader(2, 7, offset, 2, tick), [9])
  }

  ghost function TwoBuffers(t: u64, u: u64): (world: World)
  {
    map[Key(t, 7) := [9, 9], Key(u, 7) := [9, 9]]
  }

  lemma InTurnsGenuine(t: u64, u: u64)
    requires t != u
    ensures AllGenuine(TwoBuffers(t, u), InTurns(t, u)) && DuplicateFree(InTurns(t, u))
  {
    var net, world := InTurns(t, u), TwoBuffers(t, u);
    assert [9, 9][0..1] == [9] && [9, 9][1..2] == [9];
    forall i | 0 <= i < |net| ensures Genuine(world, net[i]) {
    }
    forall i, j, key, x | 0 <= i < j < |net| && Carries(net[i], key, x) ensures !Carries(net[j], key, x) {
    }
  }

  lemma InTurnsGood(cfg: Config, t: u64, u: u64)
    requires cfg.ids == [7] && cfg.prescale >= 1 && t < u <= t + 4 * cfg.prescale && u + 4 * cfg.prescale < WORD64
    ensures GoodStream(TwoBuffers(t, u), cfg, InTurns(t, u)) && Switching(cfg, InTurns(t, u))
  {
    InTurnsGenuine(t, u);
    InTurnsTimely(cfg, t, u);
  }

  lemma InTurnsTimely(cfg: Config, t: u64, u: u64)
    requires cfg.ids == [7] && cfg.prescale >= 1 && t < u <= t + 4 * cfg.prescale && u + 4 * cfg.prescale < WORD64
    ensures Timely(cfg, InTurns(t, u)) && EmptyOnce(InTurns(t, u)) && Switching(cfg, InTurns(t, u))
  {
    var net := InTurns(t, u);
    assert IndexOf(cfg.ids, 7) == Some(0);
    forall i | 0 <= i < |net| ensures Known(cfg, net[i]) && t <= net[i].h.tick <= u && |net[i].payload| == 1 {
    }
  }

  lemma InTurnsArrives(t: u64, u: u64, key: Key, x: nat)
    requires t != u && key in TwoBuffers(t, u) && x < 2
    ensures Arrived(InTurns(t, u), 4, key, x)
  {
    var net := InTurns(t, u);
    var i := (if key.tick == t then 0 else 1) + 2 * x;
    assert Carries(net[i], key, x);
  }

  lemma {:induction false} InTurnsLoops(cfg: Config, t: u64, u: u64, choices: seq<nat>, k: nat)
    requires cfg.ids == [7] && |cfg.blank| >= 2 && cfg.pool >= 1 && t < u < UINT64_MAX && |choices| == 4 && k <= 4
    ensures Run(cfg, InTurns(t, u)[..k], choices[..k]).status == Looping
    decreases k
  {
    if k > 0 {
      var net := InTurns(t, u);
      InTurnsLoops(cfg, t, u, choices, k - 1);
      InTurnsGenuine(t, u);
      assert IndexOf(cfg.ids, 7) == Some(0) && net[k - 1].h.length == 2 && net[k - 1].h.tick in {t, u};
      LoopsOn(TwoBuffers(t, u), cfg, net, choices, k - 1);
    }
  }

  /**
   Every byte of two ticks arrives, once and inside the window, and the loop gives back neither and flags no
   event, because their packets come in turns.
   */
  lemma AllBytesNothingComplete(cfg: Config, t: u64, u: u64) returns (choices: seq<nat>)
    requires cfg.ids == [7] && |cfg.blank| >= 2 && cfg.prescale >= 1 && cfg.pool >= 1
    requires t < u <= t + 4 * cfg.prescale && u + 4 * cfg.prescale < WORD64
    ensures |choices| == 4 && ChoicesOk(cfg, InTurns(t, u), choices) && GoodStream(TwoBuffers(t, u), cfg, InTurns(t, u))
    ensures forall key, x :: key in TwoBuffers(t, u) && 0 <= x < |TwoBuffers(t, u)[key]| ==>
      Arrived(InTurns(t, u), 4, key, x)
    ensures Run(cfg, InTurns(t, u), choices).status == Looping && Unflagged(Run(cfg, InTurns(t, u), choices))
  {
    InTurnsGood(cfg, t, u);
    choices := SomeChoices(cfg, InTurns(t, u));
    InTurnsLoops(cfg, t, u, choices, 4);
    assert InTurns(t, u)[..4] == InTurns(t, u) && choices[..4] == choices;
    SwitchingNeverCompletes(cfg, InTurns(t, u), choices);
    forall key, x | key in TwoBuffers(t, u) && 0 <= x < |TwoBuffers(t, u)[key]|
      ensures Arrived(InTurns(t, u), 4, key, x)
    {
      InTurnsArrives(t, u, key, x);
    }
  }
}
