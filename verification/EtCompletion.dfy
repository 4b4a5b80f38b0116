/** Exactly when getBuffers flags an event and gives a tick back complete. */
module EtCompletion {
  import opened Bytes
  import opened Headers
  import opened EtAssembler
  import opened EtTheorems
  import opened EtSafety
  import opened EtRuns
  import opened ReassemblerTheorems
  import R = Reassembler

  ghost predicate DistinctIds(cfg: Config)
  {
    forall i, j :: 0 <= i < j < |cfg.ids| ==> cfg.ids[i] != cfg.ids[j]
  }

  lemma {:induction false} IndexOfId(ids: seq<u16>, i: nat)
    requires i < |ids| && forall i, j :: 0 <= i < j < |ids| ==> ids[i] != ids[j]
    ensures IndexOf(ids, ids[i]) == Some(i)
    decreases |ids|
  {
    var n := |ids| - 1;
    if i < n {
      IndexOfId(ids[..n], i);
    }
  }

  /** The ticks given back complete, in order. */
  ghost function CompletedTicks(given: seq<Given>): (ts: seq<u64>)
  {
    if given == [] then [] else
      CompletedTicks(given[..|given| - 1]) + if given[|given| - 1].Completed? then [given[|given| - 1].tick] else []
  }

  lemma CompletedAppend(given: seq<Given>, g: Given)
    ensures CompletedTicks(given + [g]) == CompletedTicks(given) + if g.Completed? then [g.tick] else []
  {
    assert (given + [g])[..|given|] == given;
  }

  lemma EvictCompletes(cfg: Config, s: Et)
    requires Wired(s)
    ensures CompletedTicks(Evict(cfg, s).returned) == CompletedTicks(s.returned)
  {
    var ts := ExpiredTicks(cfg, s.open, s.biggest);
    if ts != {} {
      CompletedAppend(s.returned, Evicted(ContentsOf(s.open, s.entries, ts)));
    }
  }

  // ------------------------------------------------------------------ What the flags and counters say

  /** The event of source i is flagged exactly if a run has carried its buffer. */
  ghost predicate FlagExact(
    world: World, cfg: Config, net: seq<R.Arrival>, k: nat, t: u64, events: seq<EtEvent>, i: nat
  )
    requires k <= |net| && i < |cfg.ids| == |events|
  {
    events[i].hasData <==> RunOf(world, cfg, net, k, t, i)
  }

  ghost predicate EntryExact(world: World, cfg: Config, net: seq<R.Arrival>, k: nat, t: u64, events: seq<EtEvent>)
    requires k <= |net|
  {
    |events| == |cfg.ids| && forall i :: 0 <= i < |cfg.ids| ==> FlagExact(world, cfg, net, k, t, events, i)
  }

  ghost predicate FlagsExact(world: World, cfg: Config, net: seq<R.Arrival>, k: nat, s: Et)
    requires k <= |net| && Wired(s)
  {
    forall t :: t in s.open ==> EntryExact(world, cfg, net, k, t, s.entries[s.open[t]])
  }

  ghost predicate CounterExact(cfg: Config, net: seq<R.Arrival>, k: nat, t: u64, written: seq<nat>, i: nat)
    requires k <= |net| && i < |cfg.ids| == |written|
  {
    written[i] == Carried(cfg, net, t, k, cfg.ids[i])
  }

  /** The counters are those of the current run of tick t. */
  ghost predicate CountersExact(cfg: Config, net: seq<R.Arrival>, k: nat, t: u64, written: seq<nat>)
    requires k <= |net|
  {
    |written| == |cfg.ids| && forall i :: 0 <= i < |cfg.ids| ==> CounterExact(cfg, net, k, t, written, i)
  }

  /** No packet of this tick came last. */
  ghost predicate Idle(cfg: Config, net: seq<R.Arrival>, k: nat, t: u64)
    requires k <= |net|
  {
    CountersExact(cfg, net, k, t, Zeros(|cfg.ids|))
  }

  ghost predicate OthersIdle(cfg: Config, net: seq<R.Arrival>, k: nat, tick: u64)
    requires k <= |net|
  {
    forall t: u64 :: t != tick ==> Idle(cfg, net, k, t)
  }

  /** No open tick has had all its runs: it would have been given back. */
  ghost predicate Unfinished(world: World, cfg: Config, net: seq<R.Arrival>, k: nat, s: Et)
    requires k <= |net|
  {
    forall t :: t in s.open ==> !AllRuns(world, cfg, net, k, t)
  }

  /** A tick that was seen and is closed stays closed. */
  ghost predicate ClosedOver(cfg: Config, net: seq<R.Arrival>, k: nat, s: Et)
    requires k <= |net|
  {
    forall t :: SeenTick(cfg, net, k, t) && t !in s.open ==> Over(cfg, net, k, t, s.biggest)
  }

  ghost predicate Finished(world: World, cfg: Config, net: seq<R.Arrival>, k: nat, t: u64)
    requires k <= |net|
  {
    SeenTick(cfg, net, k, t) && AllRuns(world, cfg, net, k, t)
  }

  ghost predicate CompletedExact(world: World, cfg: Config, net: seq<R.Arrival>, k: nat, s: Et)
    requires k <= |net|
  {
    forall t :: t in CompletedTicks(s.returned) <==> Finished(world, cfg, net, k, t)
  }

  ghost predicate Exact(world: World, cfg: Config, net: seq<R.Arrival>, k: nat, s: Et)
    requires k <= |net|
  {
    s.status == Looping ==>
      && Wired(s) && FlagsExact(world, cfg, net, k, s) && Unfinished(world, cfg, net, k, s)
      && CountersExact(cfg, net, k, s.prevTick, s.written) && OthersIdle(cfg, net, k, s.prevTick)
      && ClosedOver(cfg, net, k, s) && CompletedExact(world, cfg, net, k, s) && EvictedExact(world, cfg, net, k, s)
  }

  /** What went back by eviction is flagged exactly as far as runs had carried buffers, and is over. */
  ghost predicate GivenExact(world: World, cfg: Config, net: seq<R.Arrival>, k: nat, g: Given, biggest: u64)
    requires k <= |net|
  {
    g.Evicted? ==> forall t :: t in g.entries ==>
      EntryExact(world, cfg, net, k, t, g.entries[t]) && Over(cfg, net, k, t, biggest)
  }

  ghost predicate EvictedExact(world: World, cfg: Config, net: seq<R.Arrival>, k: nat, s: Et)
    requires k <= |net|
  {
    forall j :: 0 <= j < |s.returned| ==> GivenExact(world, cfg, net, k, s.returned[j], s.biggest)
  }

  // ------------------------------------------------------------------ Packets of other ticks

  /** Packet k is not one of tick t from an expected source. */
  ghost predicate Elsewhere(cfg: Config, net: seq<R.Arrival>, k: nat, t: u64)
    requires k < |net|
  {
    Known(cfg, net[k]) ==> net[k].h.tick != t
  }

  lemma RunElsewhere(world: World, cfg: Config, net: seq<R.Arrival>, k: nat, t: u64, i: nat)
    requires k < |net| && DistinctIds(cfg) && i < |cfg.ids| && Elsewhere(cfg, net, k, t)
    ensures RunOf(world, cfg, net, k + 1, t, i) <==> RunOf(world, cfg, net, k, t, i)
  {
    IndexOfId(cfg.ids, i);
    RunsElsewhere(world, cfg, net, k, t, cfg.ids[i]);
  }

  lemma EntryElsewhere(world: World, cfg: Config, net: seq<R.Arrival>, k: nat, t: u64, events: seq<EtEvent>)
    requires k < |net| && DistinctIds(cfg) && Elsewhere(cfg, net, k, t) && EntryExact(world, cfg, net, k, t, events)
    ensures EntryExact(world, cfg, net, k + 1, t, events)
  {
    var k' := k + 1;
    forall i | 0 <= i < |cfg.ids| ensures FlagExact(world, cfg, net, k', t, events, i) {
      assert FlagExact(world, cfg, net, k, t, events, i);
      RunElsewhere(world, cfg, net, k, t, i);
    }
  }

  lemma SeenElsewhere(cfg: Config, net: seq<R.Arrival>, k: nat, t: u64)
    requires k < |net| && Elsewhere(cfg, net, k, t)
    ensures SeenTick(cfg, net, k + 1, t) <==> SeenTick(cfg, net, k, t)
  {
    if SeenTick(cfg, net, k, t) {
      var i :| 0 <= i < k && Known(cfg, net[i]) && net[i].h.tick == t;
      assert Known(cfg, net[i]);
    }
  }

  lemma AllRunsElsewhere(world: World, cfg: Config, net: seq<R.Arrival>, k: nat, t: u64)
    requires k < |net| && DistinctIds(cfg) && Elsewhere(cfg, net, k, t)
    ensures AllRuns(world, cfg, net, k + 1, t) <==> AllRuns(world, cfg, net, k, t)
  {
    var k' := k + 1;
    forall i | 0 <= i < |cfg.ids| ensures RunOf(world, cfg, net, k', t, i) <==> RunOf(world, cfg, net, k, t, i) {
      RunElsewhere(world, cfg, net, k, t, i);
    }
  }

  lemma FinishedElsewhere(world: World, cfg: Config, net: seq<R.Arrival>, k: nat, t: u64)
    requires k < |net| && DistinctIds(cfg) && Elsewhere(cfg, net, k, t)
    ensures Finished(world, cfg, net, k + 1, t) <==> Finished(world, cfg, net, k, t)
  {
    SeenElsewhere(cfg, net, k, t);
    AllRunsElsewhere(world, cfg, net, k, t);
  }

  lemma OverLater(cfg: Config, net: seq<R.Arrival>, k: nat, t: u64, biggest: u64, biggest': u64)
    requires Over(cfg, net, k, t, biggest) && biggest <= biggest'
    ensures Over(cfg, net, k + 1, t, biggest')
  {
  }

  /** What went back before the packet stays as it was. */
  lemma GivenLater(world: World, cfg: Config, net: seq<R.Arrival>, k: nat, g: Given, biggest: u64, biggest': u64)
    requires k < |net| && DistinctIds(cfg) && GivenExact(world, cfg, net, k, g, biggest) && biggest <= biggest'
    requires Known(cfg, net[k]) ==> !Over(cfg, net, k, net[k].h.tick, biggest)
    ensures GivenExact(world, cfg, net, k + 1, g, biggest')
  {
    var k' := k + 1;
    if g.Evicted? {
      forall t | t in g.entries
        ensures EntryExact(world, cfg, net, k', t, g.entries[t]) && Over(cfg, net, k', t, biggest')
      {
        EntryElsewhere(world, cfg, net, k, t, g.entries[t]);
        OverLater(cfg, net, k, t, biggest, biggest');
      }
    }
  }

  // ------------------------------------------------------------------ A packet that is passed over

  lemma CountersSkip(cfg: Config, net: seq<R.Arrival>, k: nat, t: u64, written: seq<nat>)
    requires k < |net| && !Known(cfg, net[k]) && DistinctIds(cfg) && CountersExact(cfg, net, k, t, written)
    ensures CountersExact(cfg, net, k + 1, t, written)
  {
    var k' := k + 1;
    forall i | 0 <= i < |cfg.ids| ensures CounterExact(cfg, net, k', t, written, i) {
      assert CounterExact(cfg, net, k, t, written, i);
      IndexOfId(cfg.ids, i);
      CarriedSkip(cfg, net, t, k, cfg.ids[i]);
    }
  }

  lemma SkipExact(world: World, cfg: Config, net: seq<R.Arrival>, k: nat, s: Et)
    requires k < |net| && !Known(cfg, net[k]) && DistinctIds(cfg) && s.status == Looping && Exact(world, cfg, net, k, s)
    ensures Exact(world, cfg, net, k + 1, s)
  {
    var k' := k + 1;
    forall t | t in s.open
      ensures EntryExact(world, cfg, net, k', t, s.entries[s.open[t]]) && !AllRuns(world, cfg, net, k', t)
    {
      EntryElsewhere(world, cfg, net, k, t, s.entries[s.open[t]]);
      AllRunsElsewhere(world, cfg, net, k, t);
    }
    CountersSkip(cfg, net, k, s.prevTick, s.written);
    forall t: u64 | t != s.prevTick ensures Idle(cfg, net, k', t) {
      assert Idle(cfg, net, k, t);
      CountersSkip(cfg, net, k, t, Zeros(|cfg.ids|));
    }
    SkipClosed(world, cfg, net, k, s);
    forall j | 0 <= j < |s.returned| ensures GivenExact(world, cfg, net, k', s.returned[j], s.biggest) {
      GivenLater(world, cfg, net, k, s.returned[j], s.biggest, s.biggest);
    }
  }

  lemma SkipClosed(world: World, cfg: Config, net: seq<R.Arrival>, k: nat, s: Et)
    requires k < |net| && !Known(cfg, net[k]) && DistinctIds(cfg)
    requires ClosedOver(cfg, net, k, s) && CompletedExact(world, cfg, net, k, s)
    ensures ClosedOver(cfg, net, k + 1, s) && CompletedExact(world, cfg, net, k + 1, s)
  {
    var k' := k + 1;
    forall t | SeenTick(cfg, net, k', t) && t !in s.open ensures Over(cfg, net, k', t, s.biggest) {
      SeenElsewhere(cfg, net, k, t);
      OverLater(cfg, net, k, t, s.biggest, s.biggest);
    }
    forall t ensures t in CompletedTicks(s.returned) <==> Finished(world, cfg, net, k', t) {
      FinishedElsewhere(world, cfg, net, k, t);
    }
  }

  // ------------------------------------------------------------------ Finding or opening the tick

  /** A tick that has not been seen has no runs. */
  lemma NoRunsYet(world: World, cfg: Config, net: seq<R.Arrival>, k: nat, t: u64)
    requires k <= |net| && DistinctIds(cfg) && !SeenTick(cfg, net, k, t)
    ensures EntryExact(world, cfg, net, k, t, NewEntry(cfg))
  {
    forall i | 0 <= i < |cfg.ids| ensures FlagExact(world, cfg, net, k, t, NewEntry(cfg), i) {
      IndexOfId(cfg.ids, i);
      if RunOf(world, cfg, net, k, t, i) {
        RunSeen(world, cfg, net, k, t, cfg.ids[i]);
      }
    }
  }

  /** A packet whose tick is closed is the first of it. */
  lemma OpenedAnew(world: World, cfg: Config, net: seq<R.Arrival>, k: nat, s: Et)
    requires GoodStream(world, cfg, net) && k < |net| && Known(cfg, net[k]) && ClosedOver(cfg, net, k, s)
    requires (s.biggest == 0 || SeenTick(cfg, net, k, s.biggest)) && net[k].h.tick !in s.open
    ensures !SeenTick(cfg, net, k, net[k].h.tick)
  {
    NotOver(world, cfg, net, k, s.biggest);
  }

  lemma SelectExact(world: World, cfg: Config, net: seq<R.Arrival>, k: nat, s: Et, choice: nat)
    requires GoodStream(world, cfg, net) && k < |net| && Known(cfg, net[k]) && DistinctIds(cfg)
    requires EtSound(world, cfg, net, k, s) && Conserved(s) && ChoiceOk(s, choice) && s.status == Looping
    requires Exact(world, cfg, net, k, s)
    ensures var s' := Select(cfg, s, net[k].h.tick, choice);
      s'.status == Looping ==>
        && Wired(s') && FlagsExact(world, cfg, net, k, s')
        && CountersExact(cfg, net, k, net[k].h.tick, s'.written)
  {
    var tick := net[k].h.tick;
    var s' := Select(cfg, s, tick, choice);
    SelectFit(cfg, s, tick, choice);
    if tick != s.prevTick {
      assert Idle(cfg, net, k, tick);
      SelectFlags(world, cfg, net, k, s, choice);
    }
  }

  lemma SelectFlags(world: World, cfg: Config, net: seq<R.Arrival>, k: nat, s: Et, choice: nat)
    requires GoodStream(world, cfg, net) && k < |net| && Known(cfg, net[k]) && DistinctIds(cfg)
    requires net[k].h.tick != s.prevTick
    requires Fit(cfg, s) && Conserved(s) && ChoiceOk(s, choice) && (s.biggest == 0 || SeenTick(cfg, net, k, s.biggest))
    requires FlagsExact(world, cfg, net, k, s) && ClosedOver(cfg, net, k, s)
    ensures Wired(Select(cfg, s, net[k].h.tick, choice))
    ensures FlagsExact(world, cfg, net, k, Select(cfg, s, net[k].h.tick, choice))
  {
    var tick := net[k].h.tick;
    var s' := Select(cfg, s, tick, choice);
    SelectFit(cfg, s, tick, choice);
    forall t | t in s'.open ensures EntryExact(world, cfg, net, k, t, s'.entries[s'.open[t]]) {
      if t in s.open {
        SelectFrame(cfg, s, tick, choice, t);
      } else {
        SelectFresh(cfg, s, tick, choice);
        OpenedAnew(world, cfg, net, k, s);
        NoRunsYet(world, cfg, net, k, tick);
      }
    }
  }

  // ------------------------------------------------------------------ Storing the data

  /** The packet's own source: its flag and its counter tell of the run that ends with the packet. */
  lemma OwnExact(world: World, cfg: Config, net: seq<R.Arrival>, k: nat, idx: nat, flag: bool, total: nat)
    requires k < |net| && Known(cfg, net[k]) && idx == IndexOf(cfg.ids, net[k].h.dataId).value && Genuine(world, net[k])
    requires flag <==> RunOf(world, cfg, net, k, net[k].h.tick, idx)
    requires total == Carried(cfg, net, net[k].h.tick, k, cfg.ids[idx])
    ensures flag || total + |net[k].payload| >= net[k].h.length <==> RunOf(world, cfg, net, k + 1, net[k].h.tick, idx)
    ensures total + |net[k].payload| == Carried(cfg, net, net[k].h.tick, k + 1, cfg.ids[idx])
  {
    var tick, id := net[k].h.tick, cfg.ids[idx];
    CarriedNext(cfg, net, tick, k, id);
    RunsHere(world, cfg, net, k, tick, id);
  }

  /** The other sources of its tick. */
  lemma OtherExact(world: World, cfg: Config, net: seq<R.Arrival>, k: nat, i: nat)
    requires k < |net| && Known(cfg, net[k]) && DistinctIds(cfg) && i < |cfg.ids| && cfg.ids[i] != net[k].h.dataId
    ensures RunOf(world, cfg, net, k + 1, net[k].h.tick, i) <==> RunOf(world, cfg, net, k, net[k].h.tick, i)
    ensures Carried(cfg, net, net[k].h.tick, k + 1, cfg.ids[i]) == Carried(cfg, net, net[k].h.tick, k, cfg.ids[i])
  {
    IndexOfId(cfg.ids, i);
    RunsElsewhere(world, cfg, net, k, net[k].h.tick, cfg.ids[i]);
    CarriedNext(cfg, net, net[k].h.tick, k, cfg.ids[i]);
  }

  lemma EntryWritten(
    world: World, cfg: Config, net: seq<R.Arrival>, k: nat, idx: nat,
    written: seq<nat>, events: seq<EtEvent>, written': seq<nat>, events': seq<EtEvent>
  )
    requires k < |net| && Known(cfg, net[k]) && DistinctIds(cfg) && Genuine(world, net[k])
    requires idx == IndexOf(cfg.ids, net[k].h.dataId).value
    requires EntryExact(world, cfg, net, k, net[k].h.tick, events) && CountersExact(cfg, net, k, net[k].h.tick, written)
    requires |events'| == |events| && forall i :: 0 <= i < |events| && i != idx ==> events'[i] == events[i]
    requires written' == written[idx := written[idx] + |net[k].payload|]
    requires events'[idx].hasData == (events[idx].hasData || written'[idx] >= net[k].h.length)
    ensures EntryExact(world, cfg, net, k + 1, net[k].h.tick, events')
    ensures CountersExact(cfg, net, k + 1, net[k].h.tick, written')
  {
    var k', tick := k + 1, net[k].h.tick;
    forall i | 0 <= i < |cfg.ids|
      ensures FlagExact(world, cfg, net, k', tick, events', i) && CounterExact(cfg, net, k', tick, written', i)
    {
      assert FlagExact(world, cfg, net, k, tick, events, i) && CounterExact(cfg, net, k, tick, written, i);
      if i == idx {
        OwnExact(world, cfg, net, k, idx, events[idx].hasData, written[idx]);
      } else {
        OtherExact(world, cfg, net, k, i);
      }
    }
  }

  lemma OthersIdleNow(cfg: Config, net: seq<R.Arrival>, k: nat)
    requires k < |net| && Known(cfg, net[k])
    ensures OthersIdle(cfg, net, k + 1, net[k].h.tick)
  {
    var k' := k + 1;
    forall t: u64 | t != net[k].h.tick ensures Idle(cfg, net, k', t) {
      forall i | 0 <= i < |cfg.ids| ensures CounterExact(cfg, net, k', t, Zeros(|cfg.ids|), i) {
        CarriedNext(cfg, net, t, k, cfg.ids[i]);
      }
    }
  }

  lemma WriteExact(world: World, cfg: Config, net: seq<R.Arrival>, k: nat, s: Et, idx: nat)
    requires GoodStream(world, cfg, net) && k < |net| && Known(cfg, net[k])
    requires idx == IndexOf(cfg.ids, net[k].h.dataId).value
    requires DistinctIds(cfg) && Conserved(s) && Selected(world, cfg, net, k, s, net[k].h.tick) && s.status == Looping
    requires FlagsExact(world, cfg, net, k, s) && CountersExact(cfg, net, k, net[k].h.tick, s.written)
    requires Write(cfg, s, idx, net[k].h, net[k].payload).status == Looping
    ensures var s' := Write(cfg, s, idx, net[k].h, net[k].payload);
      && Fit(cfg, s') && FlagsExact(world, cfg, net, k + 1, s')
      && CountersExact(cfg, net, k + 1, net[k].h.tick, s'.written)
      && (s'.entries[s'.current][idx].hasData <==> s'.written[idx] >= net[k].h.length)
  {
    var h, events, k' := net[k].h, s.entries[s.current], k + 1;
    var s' := Write(cfg, s, idx, h, net[k].payload);
    WriteFit(cfg, s, idx, h, net[k].payload);
    WriteFrame(cfg, s, idx, h, net[k].payload);
    var ev' := WriteResult(cfg, s, idx, h, net[k].payload);
    assert Genuine(world, net[k]);
    NotFlagged(world, cfg, net, k, s, idx);
    EntryWritten(world, cfg, net, k, idx, s.written, events, s'.written, s'.entries[s.current]);
    forall t | t in s'.open ensures EntryExact(world, cfg, net, k', t, s'.entries[s'.open[t]]) {
      if t != h.tick {
        EntryElsewhere(world, cfg, net, k, t, s.entries[s.open[t]]);
      }
    }
  }

  /** A source of which a packet comes is not complete. */
  lemma NotFlagged(world: World, cfg: Config, net: seq<R.Arrival>, k: nat, s: Et, idx: nat)
    requires k < |net| && Known(cfg, net[k]) && idx == IndexOf(cfg.ids, net[k].h.dataId).value
    requires Selected(world, cfg, net, k, s, net[k].h.tick)
    ensures !s.entries[s.current][idx].hasData
  {
    var events := s.entries[s.current];
    assert EntrySound(world, cfg, net, k, net[k].h.tick, events);
    assert EventSound(world, net, k, Key(net[k].h.tick, cfg.ids[idx]), events[idx]);
    assert KeyOf(net[k]) == Key(net[k].h.tick, cfg.ids[idx]);
  }

  // ------------------------------------------------------------------ Giving ticks back

  lemma AllFlagged(world: World, cfg: Config, net: seq<R.Arrival>, k: nat, t: u64, events: seq<EtEvent>)
    requires k <= |net| && EntryExact(world, cfg, net, k, t, events)
    ensures AllHaveData(events) <==> AllRuns(world, cfg, net, k, t)
  {
    forall i | 0 <= i < |cfg.ids| ensures events[i].hasData <==> RunOf(world, cfg, net, k, t, i) {
      assert FlagExact(world, cfg, net, k, t, events, i);
    }
  }

  /** The tick of the packet goes back exactly if all its sources have had their runs. */
  lemma CompleteExact(world: World, cfg: Config, net: seq<R.Arrival>, k: nat, s: Et, tick: u64, idx: nat, last: bool)
    requires k <= |net| && Fit(cfg, s) && FlagsExact(world, cfg, net, k, s) && Uses(s, tick, s.current)
    requires idx < |cfg.ids|
    requires last <==> s.entries[s.current][idx].hasData
    ensures var s' := Complete(s, tick, last);
      && s'.open == (if AllRuns(world, cfg, net, k, tick) then s.open - {tick} else s.open)
      && CompletedTicks(s'.returned) ==
        CompletedTicks(s.returned) + if AllRuns(world, cfg, net, k, tick) then [tick] else []
  {
    var events := s.entries[s.current];
    assert EntryExact(world, cfg, net, k, tick, events);
    AllFlagged(world, cfg, net, k, tick, events);
    if AllHaveData(events) {
      CompletedAppend(s.returned, Completed(tick, events));
    }
  }

  /** What eviction leaves is as it was. */
  lemma EvictExact(world: World, cfg: Config, net: seq<R.Arrival>, k: nat, s: Et)
    requires k <= |net| && Fit(cfg, s) && FlagsExact(world, cfg, net, k, s) && Unfinished(world, cfg, net, k, s)
    ensures var s' := Evict(cfg, s);
      && Fit(cfg, s') && FlagsExact(world, cfg, net, k, s') && Unfinished(world, cfg, net, k, s')
      && CompletedTicks(s'.returned) == CompletedTicks(s.returned)
  {
    EvictFit(cfg, s);
    EvictCompletes(cfg, s);
  }

  lemma EvictOver(cfg: Config, net: seq<R.Arrival>, k: nat, s: Et, t: u64)
    requires Wired(s) && Clear(cfg, s) && cfg.prescale >= 0 && t in s.open && t !in Evict(cfg, s).open
    ensures Over(cfg, net, k, t, s.biggest)
  {
    assert t in ExpiredTicks(cfg, s.open, s.biggest);
  }

  lemma CompleteOver(world: World, cfg: Config, net: seq<R.Arrival>, k: nat, s: Et, tick: u64)
    requires k <= |net| && Selected(world, cfg, net, k, s, tick) && FlagsExact(world, cfg, net, k, s)
    requires AllRuns(world, cfg, net, k, tick)
    ensures Over(cfg, net, k, tick, s.biggest)
  {
    var events := s.entries[s.current];
    assert EntrySound(world, cfg, net, k, tick, events) && EntryExact(world, cfg, net, k, tick, events);
    AllFlagged(world, cfg, net, k, tick, events);
    forall i | 0 <= i < |cfg.ids| ensures NoMore(net, k, Key(tick, cfg.ids[i])) {
      assert EventSound(world, net, k, Key(tick, cfg.ids[i]), events[i]);
    }
  }

  // ------------------------------------------------------------------ A packet from an expected source

  /** After the write: what is left to do is to give ticks back. */
  ghost predicate Stored(world: World, cfg: Config, net: seq<R.Arrival>, k: nat, s: Et, s2: Et)
    requires k < |net| && Known(cfg, net[k])
  {
    var tick := net[k].h.tick;
    && Selected(world, cfg, net, k + 1, s2, tick) && FlagsExact(world, cfg, net, k + 1, s2) && Clear(cfg, s2)
    && CountersExact(cfg, net, k + 1, tick, s2.written) && s2.status == Looping
    && s2.open.Keys == s.open.Keys + {tick} && s2.returned == s.returned && s2.biggest >= s.biggest
  }

  lemma TakeStored(world: World, cfg: Config, net: seq<R.Arrival>, k: nat, s: Et, choice: nat, idx: nat, s1: Et, s2: Et)
    requires GoodStream(world, cfg, net) && k < |net| && Known(cfg, net[k]) && DistinctIds(cfg)
    requires RunSound(world, cfg, net, k, s) && Conserved(s) && ChoiceOk(s, choice) && s.status == Looping
    requires Exact(world, cfg, net, k, s) && idx == IndexOf(cfg.ids, net[k].h.dataId).value
    requires s1 == Select(cfg, s, net[k].h.tick, choice) && Fit(cfg, s1) && s1.status == Looping
    requires s2 == Write(cfg, s1, idx, net[k].h, net[k].payload) && s2.status == Looping
    ensures Stored(world, cfg, net, k, s, s2)
    ensures s2.entries[s2.current][idx].hasData <==> s2.written[idx] >= net[k].h.length
  {
    SelectSound(world, cfg, net, k, s, choice);
    SelectSeen(cfg, net, k, s, choice);
    SelectConserved(cfg, s, net[k].h.tick, choice);
    SelectExact(world, cfg, net, k, s, choice);
    WriteSound(world, cfg, net, k, s1, idx);
    WriteExact(world, cfg, net, k, s1, idx);
    WriteFrame(cfg, s1, idx, net[k].h, net[k].payload);
    SelectKeys(cfg, s, net[k].h.tick, choice);
    ClearShrinks(cfg, s1, s2);
  }

  lemma SelectKeys(cfg: Config, s: Et, tick: u64, choice: nat)
    ensures var s' := Select(cfg, s, tick, choice);
      tick in s'.open ==> s'.open.Keys == s.open.Keys + {tick} && s'.returned == s.returned && s'.biggest >= s.biggest
  {
  }

  /** Which ticks are open after the packet, and that they are as they should be. */
  lemma GiveBack(world: World, cfg: Config, net: seq<R.Arrival>, k: nat, s: Et, s2: Et, idx: nat, last: bool)
    requires k < |net| && Known(cfg, net[k]) && DistinctIds(cfg) && Stored(world, cfg, net, k, s, s2) && idx < |cfg.ids|
    requires Unfinished(world, cfg, net, k, s) && (last <==> s2.entries[s2.current][idx].hasData)
    ensures var tick, s3 := net[k].h.tick, Complete(s2, net[k].h.tick, last);
      && Fit(cfg, s3) && FlagsExact(world, cfg, net, k + 1, s3) && Unfinished(world, cfg, net, k + 1, s3)
      && s3.open.Keys == s2.open.Keys - (if AllRuns(world, cfg, net, k + 1, tick) then {tick} else {})
      && CompletedTicks(s3.returned) ==
        CompletedTicks(s.returned) + if AllRuns(world, cfg, net, k + 1, tick) then [tick] else []
  {
    var tick, k' := net[k].h.tick, k + 1;
    var s3 := Complete(s2, tick, last);
    FinishFit(cfg, s2, tick, last);
    CompleteExact(world, cfg, net, k', s2, tick, idx, last);
    forall t | t in s3.open ensures !AllRuns(world, cfg, net, k', t) {
      if t != tick {
        AllRunsElsewhere(world, cfg, net, k, t);
      }
    }
  }

  lemma CloseOverAll(world: World, cfg: Config, net: seq<R.Arrival>, k: nat, s: Et, s2: Et, s3: Et)
    requires k < |net| && Known(cfg, net[k]) && Stored(world, cfg, net, k, s, s2) && ClosedOver(cfg, net, k, s)
    requires cfg.prescale >= 0
    requires Fit(cfg, s3) && s3.biggest == s2.biggest
    requires s3.open.Keys ==
      s2.open.Keys - (if AllRuns(world, cfg, net, k + 1, net[k].h.tick) then {net[k].h.tick} else {})
    ensures ClosedOver(cfg, net, k + 1, Evict(cfg, s3))
  {
    var tick, k', s4 := net[k].h.tick, k + 1, Evict(cfg, s3);
    forall t | SeenTick(cfg, net, k', t) && t !in s4.open ensures Over(cfg, net, k', t, s4.biggest) {
      if t in s3.open {
        ClearShrinks(cfg, s2, s3);
        EvictOver(cfg, net, k', s3, t);
      } else if t == tick {
        CompleteOver(world, cfg, net, k', s2, tick);
      } else {
        SeenElsewhere(cfg, net, k, t);
        OverLater(cfg, net, k, t, s.biggest, s2.biggest);
      }
    }
  }

  lemma CompletedLater(world: World, cfg: Config, net: seq<R.Arrival>, k: nat, s: Et, s': Et)
    requires k < |net| && Known(cfg, net[k]) && DistinctIds(cfg) && CompletedExact(world, cfg, net, k, s)
    requires CompletedTicks(s'.returned) ==
      CompletedTicks(s.returned) + if AllRuns(world, cfg, net, k + 1, net[k].h.tick) then [net[k].h.tick] else []
    ensures CompletedExact(world, cfg, net, k + 1, s')
  {
    var k', tick := k + 1, net[k].h.tick;
    assert SeenTick(cfg, net, k', tick);
    forall t ensures t in CompletedTicks(s'.returned) <==> Finished(world, cfg, net, k', t) {
      if t != tick {
        FinishedElsewhere(world, cfg, net, k, t);
      } else if AllRuns(world, cfg, net, k, tick) {
        AllRunsGrow(world, cfg, net, k, tick);
      }
    }
  }

  lemma AllRunsGrow(world: World, cfg: Config, net: seq<R.Arrival>, k: nat, t: u64)
    requires k < |net| && AllRuns(world, cfg, net, k, t)
    ensures AllRuns(world, cfg, net, k + 1, t)
  {
    var k' := k + 1;
    forall i | 0 <= i < |cfg.ids| ensures RunOf(world, cfg, net, k', t, i) {
      assert RunOf(world, cfg, net, k, t, i);
      RunsGrow(world, cfg, net, k, t, cfg.ids[i]);
    }
  }

  /** What goes back by eviction is as the flags of its open ticks were. */
  lemma EvictGives(world: World, cfg: Config, net: seq<R.Arrival>, k: nat, s: Et)
    requires k <= |net| && Fit(cfg, s) && FlagsExact(world, cfg, net, k, s) && Clear(cfg, s) && cfg.prescale >= 0
    ensures var ts := ExpiredTicks(cfg, s.open, s.biggest);
      GivenExact(world, cfg, net, k, Evicted(ContentsOf(s.open, s.entries, ts)), s.biggest)
  {
    var ts := ExpiredTicks(cfg, s.open, s.biggest);
    forall t | t in ts
      ensures EntryExact(world, cfg, net, k, t, s.entries[s.open[t]]) && Over(cfg, net, k, t, s.biggest)
    {
      EvictOver(cfg, net, k, s, t);
    }
  }

  lemma GivensLater(world: World, cfg: Config, net: seq<R.Arrival>, k: nat, s: Et, s2: Et, last: bool)
    requires k < |net| && Known(cfg, net[k]) && DistinctIds(cfg) && Stored(world, cfg, net, k, s, s2)
    requires cfg.prescale >= 0
    requires EvictedExact(world, cfg, net, k, s) && !Over(cfg, net, k, net[k].h.tick, s.biggest)
    requires var s3 := Complete(s2, net[k].h.tick, last); Fit(cfg, s3) && FlagsExact(world, cfg, net, k + 1, s3)
    ensures EvictedExact(world, cfg, net, k + 1, Evict(cfg, Complete(s2, net[k].h.tick, last)))
  {
    var k', s3 := k + 1, Complete(s2, net[k].h.tick, last);
    var s4 := Evict(cfg, s3);
    ClearShrinks(cfg, s2, s3);
    EvictGives(world, cfg, net, k', s3);
    forall j | 0 <= j < |s4.returned| ensures GivenExact(world, cfg, net, k', s4.returned[j], s4.biggest) {
      if j < |s.returned| {
        GivenLater(world, cfg, net, k, s.returned[j], s.biggest, s4.biggest);
      }
    }
  }

  /** From the write to the end of the turn. */
  lemma StoredExact(world: World, cfg: Config, net: seq<R.Arrival>, k: nat, s: Et, s2: Et, idx: nat, last: bool)
    requires k < |net| && Known(cfg, net[k]) && DistinctIds(cfg) && Stored(world, cfg, net, k, s, s2) && idx < |cfg.ids|
    requires Unfinished(world, cfg, net, k, s) && ClosedOver(cfg, net, k, s) && CompletedExact(world, cfg, net, k, s)
    requires (last <==> s2.entries[s2.current][idx].hasData) && cfg.prescale >= 0
    requires Fit(cfg, Complete(s2, net[k].h.tick, last))
    requires EvictedExact(world, cfg, net, k, s) && !Over(cfg, net, k, net[k].h.tick, s.biggest)
    ensures var s', tick := Evict(cfg, Complete(s2, net[k].h.tick, last)), net[k].h.tick;
      && Exact(world, cfg, net, k + 1, s')
      && CompletedTicks(s'.returned) ==
        CompletedTicks(s.returned) + if AllRuns(world, cfg, net, k + 1, tick) then [tick] else []
  {
    var s3 := Complete(s2, net[k].h.tick, last);
    GiveBack(world, cfg, net, k, s, s2, idx, last);
    EvictExact(world, cfg, net, k + 1, s3);
    CloseOverAll(world, cfg, net, k, s, s2, s3);
    CompletedLater(world, cfg, net, k, s, Evict(cfg, s3));
    GivensLater(world, cfg, net, k, s, s2, last);
    OthersIdleNow(cfg, net, k);
  }

  /** The ticks given back with packet k. */
  ghost function Newly(world: World, cfg: Config, net: seq<R.Arrival>, k: nat): (ts: seq<u64>)
    requires k < |net|
  {
    if Known(cfg, net[k]) && AllRuns(world, cfg, net, k + 1, net[k].h.tick) then [net[k].h.tick] else []
  }

  lemma TakeExact(world: World, cfg: Config, net: seq<R.Arrival>, k: nat, s: Et, choice: nat, idx: nat)
    requires GoodStream(world, cfg, net) && k < |net| && Known(cfg, net[k]) && DistinctIds(cfg)
    requires RunSound(world, cfg, net, k, s) && Conserved(s) && ChoiceOk(s, choice) && s.status == Looping
    requires Exact(world, cfg, net, k, s) && idx == IndexOf(cfg.ids, net[k].h.dataId).value
    ensures var s' := Take(cfg, s, idx, net[k].h, net[k].payload, choice);
      && Exact(world, cfg, net, k + 1, s')
      && (s'.status == Looping ==>
        CompletedTicks(s'.returned) == CompletedTicks(s.returned) + Newly(world, cfg, net, k))
  {
    var s1, s2, s3 := TakeStages(cfg, s, idx, net[k].h, net[k].payload, choice);
    if s1.status == Looping && s2.status == Looping {
      TakeStored(world, cfg, net, k, s, choice, idx, s1, s2);
      NotOver(world, cfg, net, k, s.biggest);
      StoredExact(world, cfg, net, k, s, s2, idx, s2.written[idx] >= net[k].h.length);
    }
  }

  lemma StepExact(world: World, cfg: Config, net: seq<R.Arrival>, k: nat, s: Et, choice: nat)
    requires GoodStream(world, cfg, net) && k < |net| && DistinctIds(cfg)
    requires RunSound(world, cfg, net, k, s) && Conserved(s) && ChoiceOk(s, choice) && Exact(world, cfg, net, k, s)
    ensures var s' := Step(cfg, s, net[k], choice);
      && Exact(world, cfg, net, k + 1, s')
      && (s'.status == Looping ==>
        CompletedTicks(s'.returned) == CompletedTicks(s.returned) + Newly(world, cfg, net, k))
  {
    if s.status == Looping && Known(cfg, net[k]) {
      TakeExact(world, cfg, net, k, s, choice, IndexOf(cfg.ids, net[k].h.dataId).value);
    } else {
      var s' := Step(cfg, s, net[k], choice);
      StepOther(cfg, s, net[k], choice);
      if s.status == Looping {
        SkipExact(world, cfg, net, k, s);
        ExactFrame(world, cfg, net, k + 1, s, s'.invalid, s'.status);
      }
    }
  }

  lemma ExactFrame(world: World, cfg: Config, net: seq<R.Arrival>, k: nat, s: Et, invalid: nat, status: Status)
    requires k <= |net| && s.status == Looping && Exact(world, cfg, net, k, s)
    ensures Exact(world, cfg, net, k, s.(invalid := invalid, status := status))
  {
    var s' := s.(invalid := invalid, status := status);
    assert FlagsExact(world, cfg, net, k, s') && ClosedOver(cfg, net, k, s') && CompletedExact(world, cfg, net, k, s');
    assert EvictedExact(world, cfg, net, k, s');
  }

  lemma InitExact(world: World, cfg: Config, net: seq<R.Arrival>)
    requires cfg.pool >= 1 && DistinctIds(cfg)
    ensures Exact(world, cfg, net, 0, Init(cfg))
  {
    var s := Init(cfg);
    forall t: u64 ensures Idle(cfg, net, 0, t) {
      forall i | 0 <= i < |cfg.ids| ensures CounterExact(cfg, net, 0, t, Zeros(|cfg.ids|), i) {
      }
    }
    assert Idle(cfg, net, 0, s.prevTick);
  }

  // ------------------------------------------------------------------ Whole runs of the loop

  /** The state before packet k, and what the packet does to exactness and to the ticks given back. */
  ghost predicate Advances(world: World, cfg: Config, net: seq<R.Arrival>, states: seq<Et>, k: nat)
    requires k < |net| && |states| == |net| + 1
  {
    var s, s' := states[k], states[k + 1];
    && (s.status == Looping ==> s.biggest == 0 || SeenTick(cfg, net, k, s.biggest))
    && (Exact(world, cfg, net, k, s) ==>
        && Exact(world, cfg, net, k + 1, s')
        && (s'.status == Looping ==>
          CompletedTicks(s'.returned) == CompletedTicks(s.returned) + Newly(world, cfg, net, k)))
  }

  lemma {:induction false} ExactAlways(world: World, cfg: Config, net: seq<R.Arrival>, states: seq<Et>, k: nat)
    requires |states| == |net| + 1 && k <= |net| && Exact(world, cfg, net, 0, states[0])
    requires forall k :: 0 <= k < |net| ==> Advances(world, cfg, net, states, k)
    ensures Exact(world, cfg, net, k, states[k])
    decreases k
  {
    if k > 0 {
      ExactAlways(world, cfg, net, states, k - 1);
      assert Advances(world, cfg, net, states, k - 1);
    }
  }

  lemma RunAdvances(world: World, cfg: Config, net: seq<R.Arrival>, choices: seq<nat>, states: seq<Et>, k: nat)
    requires |choices| == |net| && cfg.pool >= 1 && ChoicesOk(cfg, net, choices) && GoodStream(world, cfg, net)
    requires DistinctIds(cfg)
    requires |states| == |net| + 1 && k < |net| && states[k] == Run(cfg, net[..k], choices[..k])
    requires Follows(cfg, net, choices, states, k)
    ensures Advances(world, cfg, net, states, k)
  {
    SoundAlways(world, cfg, net, choices, k);
    EntriesConserved(cfg, net, choices, k);
    if Exact(world, cfg, net, k, states[k]) {
      StepExact(world, cfg, net, k, states[k], choices[k]);
    }
  }

  /** The states of a run, each exact. */
  lemma ExactTrace(world: World, cfg: Config, net: seq<R.Arrival>, choices: seq<nat>) returns (states: seq<Et>)
    requires |choices| == |net| && cfg.pool >= 1 && ChoicesOk(cfg, net, choices) && GoodStream(world, cfg, net)
    requires DistinctIds(cfg)
    ensures |states| == |net| + 1 && (forall k :: 0 <= k <= |net| ==> states[k] == Run(cfg, net[..k], choices[..k]))
    ensures forall k :: 0 <= k < |net| ==> Advances(world, cfg, net, states, k)
    ensures Exact(world, cfg, net, 0, states[0])
  {
    states := Trace(cfg, net, choices);
    forall k | 0 <= k < |net| ensures Advances(world, cfg, net, states, k) {
      RunAdvances(world, cfg, net, choices, states, k);
    }
    InitExact(world, cfg, net);
  }

  /**
   Exactly when an event is flagged: some run of packets of its tick, with nothing but packets from unknown
   sources between them, has carried the whole of its source's buffer. A flag survives a change of tick, a
   count does not.
   */
  lemma FlaggedExactly(world: World, cfg: Config, net: seq<R.Arrival>, choices: seq<nat>, k: nat, t: u64, i: nat)
    requires |choices| == |net| && cfg.pool >= 1 && ChoicesOk(cfg, net, choices) && k <= |net|
    requires GoodStream(world, cfg, net) && DistinctIds(cfg) && i < |cfg.ids|
    requires Run(cfg, net[..k], choices[..k]).status == Looping && t in Run(cfg, net[..k], choices[..k]).open
    ensures var s := Run(cfg, net[..k], choices[..k]);
      s.entries[s.open[t]][i].hasData <==> HasRun(world, cfg, net, k, t, cfg.ids[i])
  {
    var states := ExactTrace(world, cfg, net, choices);
    ExactAlways(world, cfg, net, states, k);
    var s := states[k];
    assert EntryExact(world, cfg, net, k, t, s.entries[s.open[t]]);
    assert FlagExact(world, cfg, net, k, t, s.entries[s.open[t]], i);
  }

  /** The same for what has been given back by eviction: which of its events are flagged. */
  lemma EvictedExactly(
    world: World, cfg: Config, net: seq<R.Arrival>, choices: seq<nat>, k: nat, j: nat, t: u64, i: nat
  )
    requires |choices| == |net| && cfg.pool >= 1 && ChoicesOk(cfg, net, choices) && k <= |net|
    requires GoodStream(world, cfg, net) && DistinctIds(cfg) && i < |cfg.ids|
    requires Run(cfg, net[..k], choices[..k]).status == Looping && j < |Run(cfg, net[..k], choices[..k]).returned|
    requires var g := Run(cfg, net[..k], choices[..k]).returned[j]; g.Evicted? && t in g.entries
    ensures var g := Run(cfg, net[..k], choices[..k]).returned[j];
      |g.entries[t]| == |cfg.ids| && (g.entries[t][i].hasData <==> HasRun(world, cfg, net, k, t, cfg.ids[i]))
  {
    var states := ExactTrace(world, cfg, net, choices);
    ExactAlways(world, cfg, net, states, k);
    var g := states[k].returned[j];
    assert GivenExact(world, cfg, net, k, g, states[k].biggest);
    assert EntryExact(world, cfg, net, k, t, g.entries[t]);
    assert FlagExact(world, cfg, net, k, t, g.entries[t], i);
  }

  /** Exactly which ticks have been given back complete: those of which every source has had such a run. */
  lemma CompletedExactly(world: World, cfg: Config, net: seq<R.Arrival>, choices: seq<nat>, k: nat, t: u64)
    requires |choices| == |net| && cfg.pool >= 1 && ChoicesOk(cfg, net, choices) && k <= |net|
    requires GoodStream(world, cfg, net) && DistinctIds(cfg) && cfg.ids != []
    requires Run(cfg, net[..k], choices[..k]).status == Looping
    ensures t in CompletedTicks(Run(cfg, net[..k], choices[..k]).returned) <==> AllRuns(world, cfg, net, k, t)
  {
    var states := ExactTrace(world, cfg, net, choices);
    ExactAlways(world, cfg, net, states, k);
    if AllRuns(world, cfg, net, k, t) {
      assert RunOf(world, cfg, net, k, t, 0);
      IndexOfId(cfg.ids, 0);
      RunSeen(world, cfg, net, k, t, cfg.ids[0]);
    }
  }

  /** And when: with the packet that completes the last of these runs, once, in the order in which that happens. */
  lemma CompletedWhen(world: World, cfg: Config, net: seq<R.Arrival>, choices: seq<nat>, k: nat)
    requires |choices| == |net| && cfg.pool >= 1 && ChoicesOk(cfg, net, choices) && k < |net|
    requires GoodStream(world, cfg, net) && DistinctIds(cfg)
    requires Run(cfg, net[..k + 1], choices[..k + 1]).status == Looping
    ensures CompletedTicks(Run(cfg, net[..k + 1], choices[..k + 1]).returned) ==
      CompletedTicks(Run(cfg, net[..k], choices[..k]).returned) + Newly(world, cfg, net, k)
  {
    var states := ExactTrace(world, cfg, net, choices);
    ExactAlways(world, cfg, net, states, k);
    assert Advances(world, cfg, net, states, k);
  }

  /** While a packet of a tick is still to come, the tick is not given back. */
  lemma NotYet(world: World, cfg: Config, net: seq<R.Arrival>, choices: seq<nat>, k: nat, j: nat)
    requires |choices| == |net| && cfg.pool >= 1 && ChoicesOk(cfg, net, choices) && k <= j < |net|
    requires GoodStream(world, cfg, net) && DistinctIds(cfg) && Known(cfg, net[j])
    requires Run(cfg, net[..k], choices[..k]).status == Looping
    ensures !AllRuns(world, cfg, net, k, net[j].h.tick)
  {
    var states := ExactTrace(world, cfg, net, choices);
    ExactAlways(world, cfg, net, states, k);
    var s, t := states[k], net[j].h.tick;
    if AllRuns(world, cfg, net, k, t) {
      var idx := IndexOf(cfg.ids, net[j].h.dataId).value;
      assert RunOf(world, cfg, net, k, t, idx);
      RunSeen(world, cfg, net, k, t, cfg.ids[idx]);
      assert Over(cfg, net, k, t, s.biggest);
      assert Advances(world, cfg, net, states, k);
      OverIsOver(world, cfg, net, k, j, s.biggest);
    }
  }

  /** A tick that is over gets no more packets. */
  lemma OverIsOver(world: World, cfg: Config, net: seq<R.Arrival>, k: nat, j: nat, biggest: u64)
    requires GoodStream(world, cfg, net) && k <= j < |net| && Known(cfg, net[j])
    requires biggest == 0 || SeenTick(cfg, net, k, biggest)
    ensures !Over(cfg, net, k, net[j].h.tick, biggest)
  {
    var idx := IndexOf(cfg.ids, net[j].h.dataId).value;
    assert !NoMore(net, k, Key(net[j].h.tick, cfg.ids[idx]));
    if biggest != 0 {
      var i :| 0 <= i < k && Known(cfg, net[i]) && net[i].h.tick == biggest;
      TimelyAt(cfg, net, i, j);
    }
  }
}
