/** What getBuffers gives back is what was sent. */
module EtSafety {
  import opened Bytes
  import opened Headers
  import opened Counting
  import opened EtAssembler
  import opened EtTheorems
  import opened ReassemblerTheorems
  import R = Reassembler

  // ------------------------------------------------------------------ The stream

  /** A packet from one of the expected sources. */
  ghost predicate Known(cfg: Config, a: R.Arrival)
  {
    a.Got? && IndexOf(cfg.ids, a.h.dataId).Some?
  }

  /** If packet i is empty, packet j is not of the same buffer. */
  ghost predicate Lone(net: seq<R.Arrival>, i: nat, j: nat)
    requires i < |net| && j < |net|
  {
    net[i].Got? && net[j].Got? && net[i].payload == [] ==> KeyOf(net[i]) != KeyOf(net[j])
  }

  /** An empty packet is all there is of an empty buffer. */
  ghost predicate EmptyOnce(net: seq<R.Arrival>)
  {
    forall i, j :: 0 <= i < |net| && 0 <= j < |net| && i != j ==> Lone(net, i, j)
  }

  /** Packet j's tick has not fallen out of the window of packet i. */
  ghost predicate InTime(cfg: Config, net: seq<R.Arrival>, i: nat, j: nat)
    requires i < |net| && j < |net|
  {
    Known(cfg, net[i]) && Known(cfg, net[j]) ==> net[i].h.tick <= net[j].h.tick + 4 * cfg.prescale
  }

  /** The arithmetic of the eviction test does not wrap for packet i. */
  ghost predicate NoWrap(cfg: Config, net: seq<R.Arrival>, i: nat)
    requires i < |net|
  {
    Known(cfg, net[i]) ==> net[i].h.tick + 4 * cfg.prescale < WORD64
  }

  /** When a packet comes, its tick has not fallen out of the window of those before it. */
  ghost predicate Timely(cfg: Config, net: seq<R.Arrival>)
  {
    && cfg.prescale >= 0
    && (forall i :: 0 <= i < |net| ==> NoWrap(cfg, net, i))
    && forall i, j :: 0 <= i < j < |net| ==> InTime(cfg, net, i, j)
  }

  ghost predicate GoodStream(world: World, cfg: Config, net: seq<R.Arrival>)
  {
    AllGenuine(world, net) && DuplicateFree(net) && EmptyOnce(net) && Timely(cfg, net)
  }

  /** No packet of this buffer from position k on. */
  ghost predicate NoMore(net: seq<R.Arrival>, k: nat, key: Key)
  {
    forall j :: k <= j < |net| && net[j].Got? ==> KeyOf(net[j]) != key
  }

  // ------------------------------------------------------------------ One event

  /** The bytes `covered` of the buffer `key` are in the event, and `total` counts them. */
  ghost predicate Partial(
    world: World, net: seq<R.Arrival>, k: nat, key: Key, total: nat, bytes: seq<byte>, covered: set<nat>
  )
  {
    && k <= |net| && |covered| == total
    && (forall x :: x in covered ==> key in world && x < |world[key]| && x < |bytes| && bytes[x] == world[key][x])
    && (forall x :: x in covered ==> Arrived(net, k, key, x))
  }

  /** The event holds exactly the buffer that was sent. */
  ghost predicate Whole(world: World, key: Key, ev: EtEvent)
  {
    key in world && ev.length == |world[key]| <= |ev.bytes| && ev.bytes[..ev.length] == world[key]
  }

  lemma PartialHolding(
    world: World, net: seq<R.Arrival>, k: nat, key: Key, total: nat, bytes: seq<byte>, covered: set<nat>
  )
    requires key in world
    ensures Partial(world, net, k, key, total, bytes, covered) <==> Holding(world, net, k, key, total, bytes, covered)
  {
    if k <= |net| {
      assert forall x :: Arrived(net, k, key, x) <==> exists i :: 0 <= i < k && Carries(net[i], key, x);
    }
  }

  /** The packet at k goes into the event for its key. */
  lemma PartialWrite(
    world: World, cfg: Config, net: seq<R.Arrival>, k: nat, total: nat, bytes: seq<byte>, covered: set<nat>
  )
    returns (covered': set<nat>)
    requires GoodStream(world, cfg, net) && k < |net| && net[k].Got?
    requires Partial(world, net, k, KeyOf(net[k]), total, bytes, covered)
    requires net[k].h.offset + |net[k].payload| <= |bytes|
    ensures var bytes', total' := Overwrite(bytes, net[k].h.offset, net[k].payload), total + |net[k].payload|;
      && Partial(world, net, k + 1, KeyOf(net[k]), total', bytes', covered')
      && (total' >= net[k].h.length ==>
          Whole(world, KeyOf(net[k]), EtEvent(bytes', total', true)) && NoMore(net, k + 1, KeyOf(net[k])))
  {
    var key, h := KeyOf(net[k]), net[k].h;
    assert Genuine(world, net[k]);
    PartialHolding(world, net, k, key, total, bytes, covered);
    covered' := HoldingStore(world, net, k, total, bytes, bytes, covered);
    var bytes', total' := Overwrite(bytes, h.offset, net[k].payload), total + |net[k].payload|;
    PartialHolding(world, net, k + 1, key, total', bytes', covered');
    if total' >= h.length {
      HoldingAll(world, net, k + 1, key, total', bytes', covered');
      AllArrived(world, cfg, net, k, key, total', bytes', covered');
    }
  }

  /** When every byte is there, no further packet can come. */
  lemma AllArrived(world: World, cfg: Config, net: seq<R.Arrival>, k: nat, key: Key, total: nat, bytes: seq<byte>,
                   covered: set<nat>)
    requires GoodStream(world, cfg, net) && k < |net| && net[k].Got? && KeyOf(net[k]) == key
    requires Holding(world, net, k + 1, key, total, bytes, covered) && total == |world[key]|
    ensures NoMore(net, k + 1, key)
  {
    Pigeonhole(covered, |world[key]|);
    forall j | k + 1 <= j < |net| && net[j].Got? ensures KeyOf(net[j]) != key {
      assert Lone(net, j, k);
      if KeyOf(net[j]) == key && net[j].payload != [] {
        assert Genuine(world, net[j]);
        var x := net[j].h.offset;
        assert x in UpTo(|world[key]|);
        var i :| 0 <= i < k + 1 && Carries(net[i], key, x);
        NotTwice(net, i, j, key, x);
      }
    }
  }

  lemma NotTwice(net: seq<R.Arrival>, i: nat, j: nat, key: Key, x: nat)
    requires DuplicateFree(net) && i < j < |net| && Carries(net[i], key, x)
    ensures !Carries(net[j], key, x)
  {
  }

  // ------------------------------------------------------------------ The state

  ghost predicate EventSound(world: World, net: seq<R.Arrival>, k: nat, key: Key, ev: EtEvent)
  {
    ev.hasData ==> Whole(world, key, ev) && NoMore(net, k, key)
  }

  ghost predicate EntrySound(world: World, cfg: Config, net: seq<R.Arrival>, k: nat, t: u64, events: seq<EtEvent>)
  {
    |events| == |cfg.ids| && forall i :: 0 <= i < |events| ==> EventSound(world, net, k, Key(t, cfg.ids[i]), events[i])
  }

  /** Every event of an entry that is flagged holds exactly its source's buffer. */
  ghost predicate EntryGenuine(world: World, cfg: Config, t: u64, events: seq<EtEvent>)
  {
    && |events| == |cfg.ids|
    && forall i :: 0 <= i < |events| && events[i].hasData ==> Whole(world, Key(t, cfg.ids[i]), events[i])
  }

  ghost predicate GivenGenuine(world: World, cfg: Config, g: Given)
  {
    match g
    case Completed(t, events) => EntryGenuine(world, cfg, t, events) && AllHaveData(events)
    case Evicted(m) => forall t :: t in m ==> EntryGenuine(world, cfg, t, m[t])
  }

  /** The counter of source i describes what this run of packets has put into its event. */
  ghost predicate Counted(
    world: World, cfg: Config, net: seq<R.Arrival>, k: nat, t: u64, total: nat, ev: EtEvent, i: nat
  )
    requires i < |cfg.ids|
  {
    exists covered :: Partial(world, net, k, Key(t, cfg.ids[i]), total, ev.bytes, covered)
  }

  ghost predicate OpenSound(world: World, cfg: Config, net: seq<R.Arrival>, k: nat, s: Et)
    requires Wired(s)
  {
    forall t :: t in s.open ==> EntrySound(world, cfg, net, k, t, s.entries[s.open[t]])
  }

  ghost predicate CurrentSound(world: World, cfg: Config, net: seq<R.Arrival>, k: nat, s: Et)
    requires Fit(cfg, s)
  {
    AllCounted(world, cfg, net, k, s.prevTick, s.written, s.entries[s.current])
  }

  /** A tick that is closed stays closed: all its packets are in, or it is too old. */
  ghost predicate Over(cfg: Config, net: seq<R.Arrival>, k: nat, t: u64, biggest: u64)
  {
    (forall i :: 0 <= i < |cfg.ids| ==> NoMore(net, k, Key(t, cfg.ids[i]))) || t + 4 * cfg.prescale < biggest
  }

  ghost predicate SeenTick(cfg: Config, net: seq<R.Arrival>, k: nat, t: u64)
    requires k <= |net|
  {
    exists i :: 0 <= i < k && Known(cfg, net[i]) && net[i].h.tick == t
  }

  ghost predicate AllReturned(world: World, cfg: Config, s: Et)
  {
    forall g :: g in s.returned ==> GivenGenuine(world, cfg, g)
  }

  ghost predicate EtSound(world: World, cfg: Config, net: seq<R.Arrival>, k: nat, s: Et)
    requires k <= |net|
  {
    && Fit(cfg, s) && AllReturned(world, cfg, s) && !s.stale
    && (s.status == Looping ==>
        && OpenSound(world, cfg, net, k, s)
        && (s.prevTick in s.open ==> CurrentSound(world, cfg, net, k, s))
        && (s.prevTick !in s.open && s.cached ==> Over(cfg, net, k, s.prevTick, s.biggest))
        && (s.biggest == 0 || SeenTick(cfg, net, k, s.biggest)))
  }

  // ------------------------------------------------------------------ The stages of a turn

  /** The tick of a packet that comes is not over. */
  lemma NotOver(world: World, cfg: Config, net: seq<R.Arrival>, k: nat, biggest: u64)
    requires GoodStream(world, cfg, net) && k < |net| && Known(cfg, net[k])
    requires biggest == 0 || SeenTick(cfg, net, k, biggest)
    ensures !Over(cfg, net, k, net[k].h.tick, biggest)
  {
    var idx := IndexOf(cfg.ids, net[k].h.dataId).value;
    assert !NoMore(net, k, Key(net[k].h.tick, cfg.ids[idx]));
    if biggest != 0 {
      var i :| 0 <= i < k && Known(cfg, net[i]) && net[i].h.tick == biggest;
      TimelyAt(cfg, net, i, k);
    }
  }

  lemma TimelyAt(cfg: Config, net: seq<R.Arrival>, i: nat, j: nat)
    requires Timely(cfg, net) && i < j < |net| && Known(cfg, net[i]) && Known(cfg, net[j])
    ensures net[i].h.tick <= net[j].h.tick + 4 * cfg.prescale
  {
    assert InTime(cfg, net, i, j);
  }

  /** What Select leaves for Write: the packet's tick is open and current, its counters describe its events. */
  ghost predicate Selected(world: World, cfg: Config, net: seq<R.Arrival>, k: nat, s: Et, tick: u64)
    requires k <= |net|
  {
    && Fit(cfg, s) && AllReturned(world, cfg, s) && !s.stale
    && OpenSound(world, cfg, net, k, s) && s.prevTick == tick && Uses(s, tick, s.current)
    && CurrentSound(world, cfg, net, k, s)
  }

  lemma FreshCounters(world: World, cfg: Config, net: seq<R.Arrival>, k: nat, s: Et)
    requires Fit(cfg, s) && k <= |net| && s.written == Zeros(|cfg.ids|)
    ensures CurrentSound(world, cfg, net, k, s)
  {
    forall i | 0 <= i < |cfg.ids|
      ensures Counted(world, cfg, net, k, s.prevTick, s.written[i], s.entries[s.current][i], i)
    {
      assert Partial(world, net, k, Key(s.prevTick, cfg.ids[i]), 0, s.entries[s.current][i].bytes, {});
    }
  }

  lemma SelectSound(world: World, cfg: Config, net: seq<R.Arrival>, k: nat, s: Et, choice: nat)
    requires GoodStream(world, cfg, net) && k < |net| && Known(cfg, net[k])
    requires EtSound(world, cfg, net, k, s) && Conserved(s) && ChoiceOk(s, choice) && s.status == Looping
    ensures var s' := Select(cfg, s, net[k].h.tick, choice);
      s'.status == Looping ==> Selected(world, cfg, net, k, s', net[k].h.tick)
  {
    var tick := net[k].h.tick;
    var s' := Select(cfg, s, tick, choice);
    SelectFit(cfg, s, tick, choice);
    if tick == s.prevTick {
      NotOver(world, cfg, net, k, s.biggest);
    } else {
      FreshCounters(world, cfg, net, k, s');
      SelectOpenSound(world, cfg, net, k, s, tick, choice);
    }
  }

  lemma SelectOpenSound(world: World, cfg: Config, net: seq<R.Arrival>, k: nat, s: Et, tick: u64, choice: nat)
    requires Fit(cfg, s) && OpenSound(world, cfg, net, k, s) && Conserved(s) && ChoiceOk(s, choice)
    requires tick != s.prevTick
    ensures Wired(Select(cfg, s, tick, choice)) && OpenSound(world, cfg, net, k, Select(cfg, s, tick, choice))
  {
    var s' := Select(cfg, s, tick, choice);
    SelectFit(cfg, s, tick, choice);
    forall t | t in s'.open ensures EntrySound(world, cfg, net, k, t, s'.entries[s'.open[t]]) {
      if t in s.open {
        SelectFrame(cfg, s, tick, choice, t);
      } else {
        SelectFresh(cfg, s, tick, choice);
      }
    }
  }

  /** One more packet behind does not hurt. */
  lemma EventLater(world: World, net: seq<R.Arrival>, k: nat, key: Key, ev: EtEvent)
    requires EventSound(world, net, k, key, ev)
    ensures EventSound(world, net, k + 1, key, ev)
  {
  }

  lemma EntryLater(world: World, cfg: Config, net: seq<R.Arrival>, k: nat, t: u64, events: seq<EtEvent>)
    requires EntrySound(world, cfg, net, k, t, events)
    ensures EntrySound(world, cfg, net, k + 1, t, events)
  {
    forall i | 0 <= i < |events| ensures EventSound(world, net, k + 1, Key(t, cfg.ids[i]), events[i]) {
      EventLater(world, net, k, Key(t, cfg.ids[i]), events[i]);
    }
  }

  lemma PartialLater(
    world: World, net: seq<R.Arrival>, k: nat, key: Key, total: nat, bytes: seq<byte>, covered: set<nat>
  )
    requires Partial(world, net, k, key, total, bytes, covered) && k < |net|
    ensures Partial(world, net, k + 1, key, total, bytes, covered)
  {
    forall x | x in covered ensures Arrived(net, k + 1, key, x) {
      var i :| 0 <= i < k && Carries(net[i], key, x);
    }
  }

  lemma CountedLater(world: World, cfg: Config, net: seq<R.Arrival>, k: nat, t: u64, total: nat, ev: EtEvent, i: nat)
    requires i < |cfg.ids| && k < |net| && Counted(world, cfg, net, k, t, total, ev, i)
    ensures Counted(world, cfg, net, k + 1, t, total, ev, i)
  {
    var covered :| Partial(world, net, k, Key(t, cfg.ids[i]), total, ev.bytes, covered);
    PartialLater(world, net, k, Key(t, cfg.ids[i]), total, ev.bytes, covered);
  }

  /** The event that the packet goes into: not complete before, and afterwards complete only if it is whole. */
  lemma WriteEvent(
    world: World, cfg: Config, net: seq<R.Arrival>, k: nat, idx: nat, total: nat, ev: EtEvent, flag: bool
  )
    requires GoodStream(world, cfg, net) && k < |net| && Known(cfg, net[k])
    requires idx == IndexOf(cfg.ids, net[k].h.dataId).value
    requires EventSound(world, net, k, KeyOf(net[k]), ev) && Counted(world, cfg, net, k, net[k].h.tick, total, ev, idx)
    requires net[k].h.offset + |net[k].payload| <= |ev.bytes| && (flag ==> ev.hasData)
    ensures var total' := total + |net[k].payload|;
      var bytes' := Overwrite(ev.bytes, net[k].h.offset, net[k].payload);
      var ev' := EtEvent(bytes', total', flag || total' >= net[k].h.length);
      && EventSound(world, net, k + 1, KeyOf(net[k]), ev')
      && Counted(world, cfg, net, k + 1, net[k].h.tick, total', ev', idx)
      && ev'.hasData == (total' >= net[k].h.length)
  {
    assert !ev.hasData;
    var covered :| Partial(world, net, k, Key(net[k].h.tick, cfg.ids[idx]), total, ev.bytes, covered);
    var covered' := PartialWrite(world, cfg, net, k, total, ev.bytes, covered);
  }

  /** All counters describe their events. */
  ghost predicate AllCounted(
    world: World, cfg: Config, net: seq<R.Arrival>, k: nat, t: u64, written: seq<nat>, events: seq<EtEvent>
  )
    requires |written| == |events| == |cfg.ids|
  {
    forall i :: 0 <= i < |cfg.ids| ==> Counted(world, cfg, net, k, t, written[i], events[i], i)
  }

  /** The entry that the packet goes into. */
  lemma WriteEntry(
    world: World, cfg: Config, net: seq<R.Arrival>, k: nat, idx: nat, written: seq<nat>, events: seq<EtEvent>,
    flag: bool, ev': EtEvent, written': seq<nat>, events': seq<EtEvent>
  )
    requires GoodStream(world, cfg, net) && k < |net| && Known(cfg, net[k])
    requires idx == IndexOf(cfg.ids, net[k].h.dataId).value
    requires EntrySound(world, cfg, net, k, net[k].h.tick, events) && |written| == |cfg.ids|
    requires AllCounted(world, cfg, net, k, net[k].h.tick, written, events)
    requires net[k].h.offset + |net[k].payload| <= |events[idx].bytes|
    requires ev'.bytes == Overwrite(events[idx].bytes, net[k].h.offset, net[k].payload)
    requires ev'.length == written[idx] + |net[k].payload|
    requires ev'.hasData <==> flag || ev'.length >= net[k].h.length
    requires flag ==> events[idx].hasData
    requires events' == events[idx := ev'] && written' == written[idx := ev'.length]
    ensures EntrySound(world, cfg, net, k + 1, net[k].h.tick, events')
    ensures AllCounted(world, cfg, net, k + 1, net[k].h.tick, written', events')
  {
    var tick := net[k].h.tick;
    WriteEvent(world, cfg, net, k, idx, written[idx], events[idx], flag);
    forall i | 0 <= i < |cfg.ids|
      ensures EventSound(world, net, k + 1, Key(tick, cfg.ids[i]), events'[i])
      ensures Counted(world, cfg, net, k + 1, tick, written'[i], events'[i], i)
    {
      if i != idx {
        EventLater(world, net, k, Key(tick, cfg.ids[i]), events[i]);
        CountedLater(world, cfg, net, k, tick, written[i], events[i], i);
      }
    }
  }

  /** Only the entry of the packet's own tick changes. */
  lemma WriteOpen(
    world: World, cfg: Config, net: seq<R.Arrival>, k: nat, s: Et, s': Et, tick: u64, events: seq<EtEvent>
  )
    requires Wired(s) && OpenSound(world, cfg, net, k, s) && Conserved(s) && Uses(s, tick, s.current)
    requires s'.open == s.open && s'.entries == s.entries[s.current := events] && Wired(s')
    requires EntrySound(world, cfg, net, k + 1, tick, events)
    ensures OpenSound(world, cfg, net, k + 1, s')
  {
    forall t | t in s'.open ensures EntrySound(world, cfg, net, k + 1, t, s'.entries[s'.open[t]]) {
      if t != tick {
        EntryLater(world, cfg, net, k, t, s.entries[s.open[t]]);
      }
    }
  }

  /** What Write does when the loop goes on. */
  lemma WriteResult(cfg: Config, s: Et, idx: nat, h: ReHeader, payload: seq<byte>) returns (ev': EtEvent)
    requires Usable(cfg, s, idx) && s.status == Looping && Write(cfg, s, idx, h, payload).status == Looping
    ensures var s', ev, total := Write(cfg, s, idx, h, payload), s.entries[s.current][idx], s.written[idx] + |payload|;
      && h.offset + |payload| <= |ev.bytes|
      && ev' == EtEvent(Overwrite(ev.bytes, h.offset, payload), total, s.flags[idx] || total >= h.length)
      && s'.entries == s.entries[s.current := s.entries[s.current][idx := ev']]
      && s'.written == s.written[idx := total] && s'.stale == (s.stale || h.tick !in s.open)
  {
    ev' := Write(cfg, s, idx, h, payload).entries[s.current][idx];
  }

  /** The state after a write, whatever was written. */
  lemma WrittenSound(
    world: World, cfg: Config, net: seq<R.Arrival>, k: nat, s: Et, s': Et, tick: u64, events: seq<EtEvent>
  )
    requires k < |net| && Selected(world, cfg, net, k, s, tick) && Conserved(s) && Fit(cfg, s')
    requires s'.open == s.open && s'.entries == s.entries[s.current := events] && !s'.stale
    requires s'.current == s.current && s'.prevTick == s.prevTick && s'.returned == s.returned
    requires EntrySound(world, cfg, net, k + 1, tick, events)
    requires AllCounted(world, cfg, net, k + 1, tick, s'.written, events)
    ensures Selected(world, cfg, net, k + 1, s', tick)
  {
    WriteOpen(world, cfg, net, k, s, s', tick, events);
  }

  lemma WriteSound(world: World, cfg: Config, net: seq<R.Arrival>, k: nat, s: Et, idx: nat)
    requires GoodStream(world, cfg, net) && k < |net| && Known(cfg, net[k])
    requires idx == IndexOf(cfg.ids, net[k].h.dataId).value
    requires Conserved(s) && Selected(world, cfg, net, k, s, net[k].h.tick) && s.status == Looping
    requires Write(cfg, s, idx, net[k].h, net[k].payload).status == Looping
    ensures Selected(world, cfg, net, k + 1, Write(cfg, s, idx, net[k].h, net[k].payload), net[k].h.tick)
  {
    var h, payload, events := net[k].h, net[k].payload, s.entries[s.current];
    var s' := Write(cfg, s, idx, h, payload);
    assert EntrySound(world, cfg, net, k, h.tick, events);
    WriteFit(cfg, s, idx, h, payload);
    WriteFrame(cfg, s, idx, h, payload);
    var ev' := WriteResult(cfg, s, idx, h, payload);
    var events' := s'.entries[s.current];
    WriteEntry(world, cfg, net, k, idx, s.written, events, s.flags[idx], ev', s'.written, events');
    WrittenSound(world, cfg, net, k, s, s', h.tick, events');
  }

  /** A genuine packet does not leave its event. */
  lemma WriteInside(world: World, cfg: Config, s: Et, idx: nat, a: R.Arrival)
    requires a.Got? && Genuine(world, a) && Fit(cfg, s) && idx < |cfg.ids| && s.status == Looping
    ensures Write(cfg, s, idx, a.h, a.payload).status != Undefined
  {
    assert SizedEntry(cfg, s.entries[s.current]);
  }

  /** A tick that is closed because all its events are complete is over. */
  lemma CompleteSound(world: World, cfg: Config, net: seq<R.Arrival>, k: nat, s: Et, tick: u64, last: bool)
    requires k <= |net| && Selected(world, cfg, net, k, s, tick) && s.status == Looping && s.cached
    requires s.biggest == 0 || SeenTick(cfg, net, k, s.biggest)
    ensures EtSound(world, cfg, net, k, Complete(s, tick, last))
  {
    var s', events := Complete(s, tick, last), s.entries[s.current];
    FinishFit(cfg, s, tick, last);
    assert EntrySound(world, cfg, net, k, tick, events);
    if last && AllHaveData(events) {
      forall i | 0 <= i < |cfg.ids|
        ensures NoMore(net, k, Key(tick, cfg.ids[i])) && Whole(world, Key(tick, cfg.ids[i]), events[i])
      {
        assert EventSound(world, net, k, Key(tick, cfg.ids[i]), events[i]);
      }
      assert GivenGenuine(world, cfg, Completed(tick, events));
    }
  }

  lemma EvictSound(world: World, cfg: Config, net: seq<R.Arrival>, k: nat, s: Et)
    requires k <= |net| && EtSound(world, cfg, net, k, s) && s.status == Looping && cfg.prescale >= 0
    requires forall t :: t in s.open ==> t + 4 * cfg.prescale < WORD64
    ensures EtSound(world, cfg, net, k, Evict(cfg, s))
  {
    var s', ts := Evict(cfg, s), ExpiredTicks(cfg, s.open, s.biggest);
    EvictFit(cfg, s);
    if ts != {} {
      var m := ContentsOf(s.open, s.entries, ts);
      forall t | t in m ensures EntryGenuine(world, cfg, t, m[t]) {
        assert EntrySound(world, cfg, net, k, t, s.entries[s.open[t]]);
        assert forall i :: 0 <= i < |m[t]| ==> EventSound(world, net, k, Key(t, cfg.ids[i]), m[t][i]);
      }
      assert GivenGenuine(world, cfg, Evicted(m));
      if s.prevTick in ts {
        assert s.prevTick + 4 * cfg.prescale < s.biggest;
      }
    }
  }

  // ------------------------------------------------------------------ Whole runs

  /** The arithmetic of the eviction test does not wrap for the open ticks. */
  ghost predicate Clear(cfg: Config, s: Et)
  {
    forall t :: t in s.open ==> t + 4 * cfg.prescale < WORD64
  }

  /** What was never cached has seen no packet yet. */
  ghost predicate Started(s: Et)
  {
    s.cached || s.prevTick == UINT64_MAX
  }

  lemma SelectSeen(cfg: Config, net: seq<R.Arrival>, k: nat, s: Et, choice: nat)
    requires Timely(cfg, net) && k < |net| && Known(cfg, net[k]) && s.status == Looping && Clear(cfg, s) && Started(s)
    requires s.biggest == 0 || SeenTick(cfg, net, k, s.biggest)
    ensures var s' := Select(cfg, s, net[k].h.tick, choice);
      && Clear(cfg, s') && (s'.biggest == 0 || SeenTick(cfg, net, k + 1, s'.biggest)) && Started(s')
      && (s'.status == Looping ==> s'.cached)
  {
    var s' := Select(cfg, s, net[k].h.tick, choice);
    assert NoWrap(cfg, net, k);
    if s'.biggest == s.biggest && s.biggest != 0 {
      var i :| 0 <= i < k && Known(cfg, net[i]) && net[i].h.tick == s.biggest;
      assert Known(cfg, net[i]) && net[i].h.tick == s'.biggest;
    } else if s'.biggest != s.biggest {
      assert Known(cfg, net[k]) && net[k].h.tick == s'.biggest;
    }
  }

  lemma ClearShrinks(cfg: Config, s: Et, s': Et)
    requires Clear(cfg, s) && s'.open.Keys <= s.open.Keys
    ensures Clear(cfg, s')
  {
  }

  /** The whole invariant. */
  ghost predicate RunSound(world: World, cfg: Config, net: seq<R.Arrival>, k: nat, s: Et)
    requires k <= |net|
  {
    EtSound(world, cfg, net, k, s) && Clear(cfg, s) && Started(s)
  }

  /** A write that ends the loop changes nothing else. */
  lemma WriteStopped(world: World, cfg: Config, net: seq<R.Arrival>, k: nat, s: Et, idx: nat)
    requires k < |net| && net[k].Got? && Selected(world, cfg, net, k, s, net[k].h.tick) && s.status == Looping
    requires idx < |cfg.ids|
    requires Write(cfg, s, idx, net[k].h, net[k].payload).status != Looping
    ensures EtSound(world, cfg, net, k + 1, Write(cfg, s, idx, net[k].h, net[k].payload))
  {
    WriteFit(cfg, s, idx, net[k].h, net[k].payload);
  }

  /** The end of a turn: completion and eviction. */
  lemma CloseSound(world: World, cfg: Config, net: seq<R.Arrival>, k: nat, s: Et, tick: u64, last: bool)
    requires k <= |net| && Selected(world, cfg, net, k, s, tick) && s.status == Looping && s.cached && cfg.prescale >= 0
    requires (s.biggest == 0 || SeenTick(cfg, net, k, s.biggest)) && Clear(cfg, s)
    ensures Fit(cfg, Complete(s, tick, last)) && RunSound(world, cfg, net, k, Evict(cfg, Complete(s, tick, last)))
  {
    var s' := Complete(s, tick, last);
    CompleteSound(world, cfg, net, k, s, tick, last);
    ClearShrinks(cfg, s, s');
    EvictSound(world, cfg, net, k, s');
    ClearShrinks(cfg, s', Evict(cfg, s'));
  }

  lemma TakeSound(world: World, cfg: Config, net: seq<R.Arrival>, k: nat, s: Et, choice: nat)
    requires GoodStream(world, cfg, net) && k < |net| && Known(cfg, net[k])
    requires RunSound(world, cfg, net, k, s) && Conserved(s) && ChoiceOk(s, choice) && s.status == Looping
    ensures RunSound(world, cfg, net, k + 1,
              Take(cfg, s, IndexOf(cfg.ids, net[k].h.dataId).value, net[k].h, net[k].payload, choice))
  {
    var idx, h, payload := IndexOf(cfg.ids, net[k].h.dataId).value, net[k].h, net[k].payload;
    var s1, s2, s3 := TakeStages(cfg, s, idx, h, payload, choice);
    SelectSound(world, cfg, net, k, s, choice);
    SelectSeen(cfg, net, k, s, choice);
    SelectConserved(cfg, s, h.tick, choice);
    if s1.status == Looping {
      WriteFrame(cfg, s1, idx, h, payload);
      if s2.status == Looping {
        WriteSound(world, cfg, net, k, s1, idx);
        CloseSound(world, cfg, net, k + 1, s2, h.tick, s2.written[idx] >= h.length);
      } else {
        WriteStopped(world, cfg, net, k, s1, idx);
      }
    } else {
      assert s1 == s.(status := Undefined);
    }
  }

  /** A packet that is passed over. */
  lemma SkipSound(world: World, cfg: Config, net: seq<R.Arrival>, k: nat, s: Et)
    requires k < |net| && EtSound(world, cfg, net, k, s)
    ensures EtSound(world, cfg, net, k + 1, s)
  {
    if s.status == Looping {
      forall t | t in s.open ensures EntrySound(world, cfg, net, k + 1, t, s.entries[s.open[t]]) {
        EntryLater(world, cfg, net, k, t, s.entries[s.open[t]]);
      }
      if s.prevTick in s.open {
        forall i | 0 <= i < |cfg.ids|
          ensures Counted(world, cfg, net, k + 1, s.prevTick, s.written[i], s.entries[s.current][i], i)
        {
          CountedLater(world, cfg, net, k, s.prevTick, s.written[i], s.entries[s.current][i], i);
        }
      }
      if s.biggest != 0 {
        var i :| 0 <= i < k && Known(cfg, net[i]) && net[i].h.tick == s.biggest;
        assert Known(cfg, net[i]) && net[i].h.tick == s.biggest;
      }
    }
  }

  /** EtSound does not look at the count of invalid packets, and asks less once the loop has ended. */
  lemma SoundFrame(world: World, cfg: Config, net: seq<R.Arrival>, k: nat, s: Et, invalid: nat, status: Status)
    requires k <= |net| && EtSound(world, cfg, net, k, s) && s.status == Looping
    ensures EtSound(world, cfg, net, k, s.(invalid := invalid, status := status))
  {
    var s' := s.(invalid := invalid, status := status);
    assert OpenSound(world, cfg, net, k, s');
    assert s.prevTick in s.open ==> CurrentSound(world, cfg, net, k, s');
  }

  /** A packet from nowhere, or none at all, changes nothing but the count and the status. */
  lemma StepOther(cfg: Config, s: Et, a: R.Arrival, choice: nat)
    requires Fit(cfg, s) && !(s.status == Looping && Known(cfg, a))
    ensures var s' := Step(cfg, s, a, choice); s' == s.(invalid := s'.invalid, status := s'.status)
  {
  }

  lemma OtherSound(world: World, cfg: Config, net: seq<R.Arrival>, k: nat, s: Et, invalid: nat, status: Status)
    requires k < |net| && RunSound(world, cfg, net, k, s) && (s.status != Looping ==> status == s.status)
    ensures RunSound(world, cfg, net, k + 1, s.(invalid := invalid, status := status))
  {
    var s' := s.(invalid := invalid, status := status);
    SkipSound(world, cfg, net, k, s);
    if s.status == Looping {
      SoundFrame(world, cfg, net, k + 1, s, invalid, status);
    }
  }

  lemma StepSound(world: World, cfg: Config, net: seq<R.Arrival>, k: nat, s: Et, choice: nat)
    requires GoodStream(world, cfg, net) && k < |net|
    requires RunSound(world, cfg, net, k, s) && Conserved(s) && ChoiceOk(s, choice)
    ensures RunSound(world, cfg, net, k + 1, Step(cfg, s, net[k], choice))
  {
    if s.status == Looping && Known(cfg, net[k]) {
      TakeSound(world, cfg, net, k, s, choice);
    } else {
      var s' := Step(cfg, s, net[k], choice);
      StepOther(cfg, s, net[k], choice);
      OtherSound(world, cfg, net, k, s, s'.invalid, s'.status);
    }
  }

  lemma InitSound(world: World, cfg: Config, net: seq<R.Arrival>)
    requires cfg.pool >= 1
    ensures RunSound(world, cfg, net, 0, Init(cfg))
  {
    InitFit(cfg);
  }

  lemma SoundNext(world: World, cfg: Config, net: seq<R.Arrival>, choices: seq<nat>, k: nat)
    requires |choices| == |net| && cfg.pool >= 1 && ChoicesOk(cfg, net, choices) && k < |net|
    requires GoodStream(world, cfg, net) && RunSound(world, cfg, net, k, Run(cfg, net[..k], choices[..k]))
    ensures RunSound(world, cfg, net, k + 1, Run(cfg, net[..k + 1], choices[..k + 1]))
  {
    EntriesConserved(cfg, net, choices, k);
    StepSound(world, cfg, net, k, Run(cfg, net[..k], choices[..k]), choices[k]);
    RunNext(cfg, net, choices, k);
  }

  lemma {:induction false} SoundAlways(world: World, cfg: Config, net: seq<R.Arrival>, choices: seq<nat>, k: nat)
    requires |choices| == |net| && cfg.pool >= 1 && ChoicesOk(cfg, net, choices) && k <= |net|
    requires GoodStream(world, cfg, net)
    ensures RunSound(world, cfg, net, k, Run(cfg, net[..k], choices[..k]))
    decreases k
  {
    if k == 0 {
      InitSound(world, cfg, net);
    } else {
      SoundAlways(world, cfg, net, choices, k - 1);
      SoundNext(world, cfg, net, choices, k - 1);
    }
  }

  /**
   Safety of getBuffers: on every duplicate-free stream of genuine packets, of any number of ticks and
   sources, lost, reordered and interleaved at will inside the window, each event flagged as having data,
   in an entry given back by completion or by eviction, holds exactly its source's buffer, and a completed
   entry has all of them. No entry is written to after it went back.
   */
  lemma GivenBackIsGenuine(world: World, cfg: Config, net: seq<R.Arrival>, choices: seq<nat>)
    requires |choices| == |net| && cfg.pool >= 1 && ChoicesOk(cfg, net, choices) && GoodStream(world, cfg, net)
    ensures var s := Run(cfg, net, choices);
      (forall g :: g in s.returned ==> GivenGenuine(world, cfg, g)) && !s.stale
  {
    SoundAlways(world, cfg, net, choices, |net|);
    assert net[..|net|] == net && choices[..|net|] == choices;
  }

  // ------------------------------------------------------------------ What cannot go wrong

  ghost predicate AnyKnown(cfg: Config, net: seq<R.Arrival>, k: nat)
    requires k <= |net|
  {
    exists i :: 0 <= i < k && Known(cfg, net[i])
  }

  /** The arrays for a tick have been fetched exactly if a packet from an expected source has come. */
  ghost predicate Fetched(cfg: Config, net: seq<R.Arrival>, k: nat, s: Et)
    requires k <= |net|
  {
    s.status == Looping ==> (s.cached <==> AnyKnown(cfg, net, k)) && (!s.cached ==> s.prevTick == UINT64_MAX)
  }

  lemma FetchedStep(cfg: Config, net: seq<R.Arrival>, k: nat, s: Et, choice: nat)
    requires k < |net| && Fit(cfg, s) && Fetched(cfg, net, k, s)
    ensures Fetched(cfg, net, k + 1, Step(cfg, s, net[k], choice))
  {
    if s.status == Looping && Known(cfg, net[k]) {
      var idx := IndexOf(cfg.ids, net[k].h.dataId).value;
      var s1, s2, s3 := TakeStages(cfg, s, idx, net[k].h, net[k].payload, choice);
      WriteFrame(cfg, s1, idx, net[k].h, net[k].payload);
      assert AnyKnown(cfg, net, k + 1);
    } else if AnyKnown(cfg, net, k) {
      var i :| 0 <= i < k && Known(cfg, net[i]);
      assert Known(cfg, net[i]);
    }
  }

  lemma {:induction false} FetchedAlways(cfg: Config, net: seq<R.Arrival>, choices: seq<nat>, states: seq<Et>, k: nat)
    requires |choices| == |net| && |states| == |net| + 1 && cfg.pool >= 1 && states[0] == Init(cfg) && k <= |net|
    requires forall k :: 0 <= k < |net| ==> Follows(cfg, net, choices, states, k)
    ensures Fetched(cfg, net, k, states[k])
    decreases k
  {
    if k > 0 {
      FetchedAlways(cfg, net, choices, states, k - 1);
      assert Follows(cfg, net, choices, states, k - 1);
      FetchedStep(cfg, net, k - 1, states[k - 1], choices[k - 1]);
    }
  }

  /** A packet from the expected sources finds arrays that were never fetched. */
  ghost predicate Unfetched(cfg: Config, net: seq<R.Arrival>, k: nat)
    requires k < |net|
  {
    Known(cfg, net[k]) && net[k].h.tick == UINT64_MAX && !AnyKnown(cfg, net, k)
  }

  /** For every stream: exactly the first packet from an expected source can do so, and only with tick 2^64-1. */
  lemma UnfetchedExactly(cfg: Config, net: seq<R.Arrival>, choices: seq<nat>, k: nat)
    requires |choices| == |net| && cfg.pool >= 1 && k < |net| && Known(cfg, net[k])
    requires Run(cfg, net[..k], choices[..k]).status == Looping
    ensures Select(cfg, Run(cfg, net[..k], choices[..k]), net[k].h.tick, choices[k]).status == Undefined <==>
      Unfetched(cfg, net, k)
  {
    var states := Trace(cfg, net, choices);
    FetchedAlways(cfg, net, choices, states, k);
  }

  /** On a genuine stream nothing else is undefined but a datagram shorter than its header: no write leaves an event. */
  lemma UndefinedExactly(world: World, cfg: Config, net: seq<R.Arrival>, choices: seq<nat>, k: nat)
    requires |choices| == |net| && cfg.pool >= 1 && k < |net| && AllGenuine(world, net)
    requires Run(cfg, net[..k], choices[..k]).status == Looping
    ensures Run(cfg, net[..k + 1], choices[..k + 1]).status == Undefined <==> net[k].TooShort? || Unfetched(cfg, net, k)
  {
    RunNext(cfg, net, choices, k);
    if Known(cfg, net[k]) {
      UnfetchedExactly(cfg, net, choices, k);
      assert Genuine(world, net[k]);
      var idx := IndexOf(cfg.ids, net[k].h.dataId).value;
      TakeUndefined(world, cfg, Run(cfg, net[..k], choices[..k]), idx, net[k], choices[k]);
    }
  }

  lemma TakeUndefined(world: World, cfg: Config, s: Et, idx: nat, a: R.Arrival, choice: nat)
    requires a.Got? && Genuine(world, a) && Fit(cfg, s) && idx < |cfg.ids| && s.status == Looping
    ensures Take(cfg, s, idx, a.h, a.payload, choice).status == Undefined <==>
      Select(cfg, s, a.h.tick, choice).status == Undefined
  {
    var s1, s2, s3 := TakeStages(cfg, s, idx, a.h, a.payload, choice);
    if s1.status == Looping {
      WriteInside(world, cfg, s1, idx, a);
    }
  }
}
