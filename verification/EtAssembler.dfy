/**
 Assembling buffers of many ticks and sources at once: getBuffers, which keeps one fifo entry per open
 tick, gives an entry back when all its sources are complete, and evicts ticks that fall out of a window.
 */
module EtAssembler {
  import opened Bytes
  import opened Counting
  import opened Headers
  import R = Reassembler

  const PACKET_BUF_SIZE: nat := 9100
  const MAX_INVALID: nat := 100
  const UINT64_MAX: u64 := 0xffff_ffff_ffff_ffff
  const WORD64: nat := 0x1_0000_0000_0000_0000

  /** An ET event: a buffer of fixed capacity, the length set for it, and the flag that it is complete. */
  datatype EtEvent = EtEvent(bytes: seq<byte>, length: nat, hasData: bool)

  /**
   The fifo: one source id for each event of an entry, and what a new event holds, which gives its size.
   `prescale` is tickPrescale, `pool` the number of entries made at the start (10 in the source).
   */
  datatype Config = Config(ids: seq<u16>, blank: seq<byte>, prescale: int, pool: nat)

  datatype Given = Completed(tick: u64, events: seq<EtEvent>) | Evicted(entries: map<u64, seq<EtEvent>>)

  datatype Status = Looping | Thrown | Undefined

  /**
   The variables of the loop. Entries are numbered in the order of their creation; `open` is the map from
   ticks to entries; `current` is the entry cached for prevTick, once `cached` is set; `written` counts
   bytes per source and `flags` are the control words fetched with the tick. `returned` logs what went back to
   the ET system, and `stale` that an entry was written to after it had gone back.
   */
  datatype Et = Et(open: map<u64, nat>, free: set<nat>, entries: map<nat, seq<EtEvent>>, created: nat,
                   prevTick: u64, biggest: u64, current: nat, cached: bool, written: seq<nat>, flags: seq<bool>,
                   invalid: nat, returned: seq<Given>, stale: bool, status: Status)

  /** bufIdReverseMap: the last position of an id. */
  function IndexOf(ids: seq<u16>, id: u16): (r: Option<nat>)
    ensures r.Some? ==> r.value < |ids| && ids[r.value] == id
    ensures r.None? ==> id !in ids
  {
    if ids == [] then None
    else if ids[|ids| - 1] == id then Some(|ids| - 1)
    else IndexOf(ids[..|ids| - 1], id)
  }

  function NewEntry(cfg: Config): (events: seq<EtEvent>)
    ensures |events| == |cfg.ids| && forall i :: 0 <= i < |events| ==> events[i] == EtEvent(cfg.blank, 0, false)
  {
    seq(|cfg.ids|, _ => EtEvent(cfg.blank, 0, false))
  }

  function Zeros(n: nat): (s: seq<nat>)
    ensures |s| == n && forall i :: 0 <= i < n ==> s[i] == 0
  {
    seq(n, _ => 0)
  }

  function Unset(n: nat): (s: seq<bool>)
    ensures |s| == n && forall i :: 0 <= i < n ==> !s[i]
  {
    seq(n, _ => false)
  }

  /** The control words that say whether an event has data. */
  function FlagsOf(events: seq<EtEvent>): (s: seq<bool>)
    ensures |s| == |events| && forall i :: 0 <= i < |s| ==> s[i] == events[i].hasData
  {
    seq(|events|, i requires 0 <= i < |events| => events[i].hasData)
  }

  function FirstEntries(cfg: Config): (m: map<nat, seq<EtEvent>>)
    ensures m.Keys == UpTo(cfg.pool) && forall e :: e in m ==> m[e] == NewEntry(cfg)
  {
    map e | e in UpTo(cfg.pool) :: NewEntry(cfg)
  }

  /** All entries free, the last of them in the variable `entry`. */
  function Init(cfg: Config): (s: Et)
    requires cfg.pool >= 1
  {
    Et(map[], UpTo(cfg.pool), FirstEntries(cfg), cfg.pool,
       UINT64_MAX, 0, cfg.pool - 1, false, Zeros(|cfg.ids|), Unset(|cfg.ids|), 0, [], false, Looping)
  }

  // ------------------------------------------------------------------ One packet

  /** Find or open the packet's tick. `choice` is the free entry that the set's iterator gives first. */
  function Select(cfg: Config, s: Et, tick: u64, choice: nat): (s': Et)
  {
    if tick == s.prevTick then (if s.cached then s else s.(status := Undefined))
    else if tick in s.open then
      s.(current := s.open[tick], cached := true, written := Zeros(|cfg.ids|), prevTick := tick,
         flags := if s.open[tick] in s.entries then FlagsOf(s.entries[s.open[tick]]) else Unset(|cfg.ids|))
    else
      var entry := if s.free == {} then s.created else choice;
      s.(open := s.open[tick := entry], free := s.free - {entry},
         entries := s.entries[entry := NewEntry(cfg)],
         created := if s.free == {} then s.created + 1 else s.created,
         current := entry, cached := true, written := Zeros(|cfg.ids|), flags := Unset(|cfg.ids|), prevTick := tick,
         biggest := if tick > s.biggest then tick else s.biggest)
  }

  lemma NewUnset(cfg: Config)
    ensures FlagsOf(NewEntry(cfg)) == Unset(|cfg.ids|)
  {
  }

  ghost predicate Usable(cfg: Config, s: Et, idx: nat)
  {
    idx < |cfg.ids| == |s.written| == |s.flags| && s.current in s.entries && |s.entries[s.current]| == |cfg.ids|
  }

  /**
   Copy the data, count it, write back the control words as they were when the tick became current, and flag
   the event when the count reaches the buffer's length.
   */
  function Write(cfg: Config, s: Et, idx: nat, h: ReHeader, payload: seq<byte>): (s': Et)
    requires Usable(cfg, s, idx)
  {
    var ev := s.entries[s.current][idx];
    if h.length > |cfg.blank| then s.(status := Thrown)
    else if h.offset + |payload| > |ev.bytes| then s.(status := Undefined)
    else
      var total := s.written[idx] + |payload|;
      var ev' := EtEvent(Overwrite(ev.bytes, h.offset, payload), total, s.flags[idx] || total >= h.length);
      s.(entries := s.entries[s.current := s.entries[s.current][idx := ev']], written := s.written[idx := total],
         stale := s.stale || h.tick !in s.open)
  }

  predicate AllHaveData(events: seq<EtEvent>)
  {
    forall i :: 0 <= i < |events| ==> events[i].hasData
  }

  /** A packet that completes its source's buffer may complete the tick. */
  function Complete(s: Et, tick: u64, last: bool): (s': Et)
    requires s.current in s.entries
  {
    if last && AllHaveData(s.entries[s.current])
    then s.(open := s.open - {tick}, free := s.free + {s.current},
            returned := s.returned + [Completed(tick, s.entries[s.current])])
    else s
  }

  /** The eviction test, in 64-bit arithmetic. */
  predicate Expired(cfg: Config, tick: u64, biggest: u64)
  {
    (tick + 4 * cfg.prescale) % WORD64 < biggest
  }

  function ExpiredTicks(cfg: Config, open: map<u64, nat>, biggest: u64): (ts: set<u64>)
    ensures ts <= open.Keys
  {
    set t | t in open && Expired(cfg, t, biggest)
  }

  function EntriesOf(open: map<u64, nat>, ts: set<u64>): (es: set<nat>)
    requires ts <= open.Keys
  {
    set t | t in ts :: open[t]
  }

  function ContentsOf(open: map<u64, nat>, entries: map<nat, seq<EtEvent>>, ts: set<u64>): (m: map<u64, seq<EtEvent>>)
    requires ts <= open.Keys && forall t :: t in open ==> open[t] in entries
    ensures m.Keys == ts
  {
    map t | t in ts :: entries[open[t]]
  }

  /** The ticks `done` have been taken out. */
  ghost predicate Swept(open: map<u64, nat>, entries: map<nat, seq<EtEvent>>, free: set<nat>, done: set<u64>,
                        open': map<u64, nat>, free': set<nat>, gone: map<u64, seq<EtEvent>>)
    requires done <= open.Keys && forall t :: t in open ==> open[t] in entries
  {
    open' == open - done && free' == free + EntriesOf(open, done) && gone == ContentsOf(open, entries, done)
  }

  /** The walk over the map of open ticks: those that have expired are taken out. */
  method Sweep(cfg: Config, open: map<u64, nat>, entries: map<nat, seq<EtEvent>>, free: set<nat>, biggest: u64)
    returns (open': map<u64, nat>, free': set<nat>, gone: map<u64, seq<EtEvent>>)
    requires forall t :: t in open ==> open[t] in entries
    ensures Swept(open, entries, free, ExpiredTicks(cfg, open, biggest), open', free', gone)
  {
    ghost var ts := ExpiredTicks(cfg, open, biggest);
    var todo := open.Keys;
    open', free', gone := open, free, map[];
    assert ts - todo == {};
    while todo != {}
      invariant todo <= open.Keys && Swept(open, entries, free, ts - todo, open', free', gone)
      decreases |todo|
    {
      var tik :| tik in todo;
      OneLess(ts, todo, tik);
      if Expired(cfg, tik, biggest) {
        assert tik in ts;
        SweepOne(open, entries, free, ts - todo, tik, open', free', gone);
        open', free' := open' - {tik}, free' + {open[tik]};
        gone := gone[tik := entries[open[tik]]];
      } else {
        assert tik !in ts;
      }
      todo := todo - {tik};
    }
    assert ts - todo == ts;
  }

  lemma OneLess(ts: set<u64>, todo: set<u64>, t: u64)
    requires t in todo
    ensures t in ts ==> ts - (todo - {t}) == (ts - todo) + {t}
    ensures t !in ts ==> ts - (todo - {t}) == ts - todo
  {
  }

  lemma SweepOne(open: map<u64, nat>, entries: map<nat, seq<EtEvent>>, free: set<nat>, done: set<u64>, t: u64,
                 open': map<u64, nat>, free': set<nat>, gone: map<u64, seq<EtEvent>>)
    requires done <= open.Keys && t in open && forall t :: t in open ==> open[t] in entries
    requires Swept(open, entries, free, done, open', free', gone)
    ensures Swept(open, entries, free, done + {t}, open' - {t}, free' + {open[t]}, gone[t := entries[open[t]]])
  {
  }

  ghost predicate Wired(s: Et)
  {
    forall t :: t in s.open ==> s.open[t] in s.entries
  }

  function Evict(cfg: Config, s: Et): (s': Et)
    requires Wired(s)
  {
    var ts := ExpiredTicks(cfg, s.open, s.biggest);
    if ts == {} then s
    else s.(open := s.open - ts, free := s.free + EntriesOf(s.open, ts),
            returned := s.returned + [Evicted(ContentsOf(s.open, s.entries, ts))])
  }

  // ------------------------------------------------------------------ The loop

  /** The arrays and events have their sizes, and open ticks have entries. */
  ghost predicate Fit(cfg: Config, s: Et)
  {
    && |s.written| == |cfg.ids| == |s.flags| && s.current in s.entries && Wired(s)
    && (forall e :: e in s.entries ==> SizedEntry(cfg, s.entries[e]))
    && FlagsKept(s.flags, s.entries[s.current])
  }

  /** What was flagged when the tick became current still is. */
  ghost predicate FlagsKept(flags: seq<bool>, events: seq<EtEvent>)
  {
    |flags| == |events| && forall i :: 0 <= i < |flags| && flags[i] ==> events[i].hasData
  }

  ghost predicate SizedEntry(cfg: Config, events: seq<EtEvent>)
  {
    |events| == |cfg.ids| && forall i :: 0 <= i < |events| ==> |events[i].bytes| == |cfg.blank|
  }

  lemma SelectFit(cfg: Config, s: Et, tick: u64, choice: nat)
    requires Fit(cfg, s)
    ensures Fit(cfg, Select(cfg, s, tick, choice))
  {
  }

  lemma WriteFit(cfg: Config, s: Et, idx: nat, h: ReHeader, payload: seq<byte>)
    requires Fit(cfg, s) && idx < |cfg.ids|
    ensures Fit(cfg, Write(cfg, s, idx, h, payload))
  {
  }

  lemma FinishFit(cfg: Config, s: Et, tick: u64, last: bool)
    requires Fit(cfg, s)
    ensures Fit(cfg, Complete(s, tick, last))
  {
  }

  lemma EvictFit(cfg: Config, s: Et)
    requires Fit(cfg, s)
    ensures Fit(cfg, Evict(cfg, s))
  {
  }

  /** A packet from an expected source. */
  function Take(cfg: Config, s: Et, idx: nat, h: ReHeader, payload: seq<byte>, choice: nat): (s': Et)
    requires Fit(cfg, s) && idx < |cfg.ids|
    ensures Fit(cfg, s')
  {
    var s1 := Select(cfg, s, h.tick, choice);
    SelectFit(cfg, s, h.tick, choice);
    if s1.status != Looping then s1
    else
      var s2 := Write(cfg, s1, idx, h, payload);
      WriteFit(cfg, s1, idx, h, payload);
      if s2.status != Looping then s2
      else
        var s3 := Complete(s2, h.tick, s2.written[idx] >= h.length);
        FinishFit(cfg, s2, h.tick, s2.written[idx] >= h.length);
        EvictFit(cfg, s3);
        Evict(cfg, s3)
  }

  /** The stages of a packet from an expected source. */
  lemma TakeStages(cfg: Config, s: Et, idx: nat, h: ReHeader, payload: seq<byte>, choice: nat)
    returns (s1: Et, s2: Et, s3: Et)
    requires Fit(cfg, s) && idx < |cfg.ids|
    ensures s1 == Select(cfg, s, h.tick, choice) && Fit(cfg, s1)
    ensures s2 == Write(cfg, s1, idx, h, payload) && Fit(cfg, s2)
    ensures s3 == Complete(s2, h.tick, s2.written[idx] >= h.length) && Fit(cfg, s3)
    ensures Take(cfg, s, idx, h, payload, choice) ==
      if s1.status != Looping then s1 else if s2.status != Looping then s2 else Evict(cfg, s3)
  {
    s1 := Select(cfg, s, h.tick, choice);
    SelectFit(cfg, s, h.tick, choice);
    s2 := Write(cfg, s1, idx, h, payload);
    WriteFit(cfg, s1, idx, h, payload);
    s3 := Complete(s2, h.tick, s2.written[idx] >= h.length);
    FinishFit(cfg, s2, h.tick, s2.written[idx] >= h.length);
  }

  /** Writing leaves the bookkeeping of entries and ticks alone. */
  lemma WriteFrame(cfg: Config, s: Et, idx: nat, h: ReHeader, payload: seq<byte>)
    requires Usable(cfg, s, idx)
    ensures var s' := Write(cfg, s, idx, h, payload);
      && s'.open == s.open && s'.free == s.free && s'.created == s.created && s'.current == s.current
      && s'.prevTick == s.prevTick && s'.biggest == s.biggest && s'.returned == s.returned && s'.cached == s.cached
  {
  }

  /** One turn of the loop. A packet shorter than its header would copy a negative number of bytes. */
  function Step(cfg: Config, s: Et, a: R.Arrival, choice: nat): (s': Et)
    requires Fit(cfg, s)
    ensures Fit(cfg, s')
  {
    if s.status != Looping then s
    else match a
      case RecvFailed => s.(status := Thrown)
      case TooShort => s.(status := Undefined)
      case Got(h, payload) =>
        match IndexOf(cfg.ids, h.dataId)
        case None => s.(invalid := s.invalid + 1, status := if s.invalid + 1 > MAX_INVALID then Thrown else Looping)
        case Some(idx) => Take(cfg, s, idx, h, payload, choice)
  }

  lemma InitFit(cfg: Config)
    requires cfg.pool >= 1
    ensures Fit(cfg, Init(cfg))
  {
  }

  /** The loop on the packets `net`; `choices` are the free entries found along the way. */
  function Run(cfg: Config, net: seq<R.Arrival>, choices: seq<nat>): (s: Et)
    requires |choices| == |net| && cfg.pool >= 1
    ensures Fit(cfg, s)
    decreases |net|
  {
    if net == [] then InitFit(cfg); Init(cfg)
    else Step(cfg, Run(cfg, net[..|net| - 1], choices[..|net| - 1]), net[|net| - 1], choices[|net| - 1])
  }

  /** The iterator gives a free entry if there is one. */
  ghost predicate ChoiceOk(s: Et, choice: nat)
  {
    s.free != {} ==> choice in s.free
  }

  /** recvfrom cuts off what does not fit into the packet buffer. */
  function Truncated(r: R.Recv): (t: R.Recv)
  {
    if r.Datagram? && |r.bytes| > PACKET_BUF_SIZE then R.Datagram(r.bytes[..PACKET_BUF_SIZE]) else r
  }

  // ------------------------------------------------------------------ The routine

  /** getBuffers, one packet at a time. */
  class Assembler {
    const cfg: Config
    var buffers: map<u64, nat>
    var freeEntries: set<nat>
    var entries: map<nat, seq<EtEvent>>
    var created: nat
    var prevTick: u64
    var biggestTick: u64
    var entry: nat
    var cached: bool
    var bytesWritten: array<nat>
    var controls: array<bool>
    var invalidPkts: nat
    var returned: seq<Given>
    ghost var stale: bool

    ghost function Abs(status: Status): (s: Et)
      reads this, bytesWritten, controls
    {
      Et(buffers, freeEntries, entries, created, prevTick, biggestTick, entry, cached, bytesWritten[..],
         controls[..], invalidPkts, returned, stale, status)
    }

    ghost predicate Valid()
      reads this, bytesWritten, controls
    {
      Fit(cfg, Abs(Looping))
    }

    constructor (cfg: Config)
      requires cfg.pool >= 1
      ensures Valid() && this.cfg == cfg && fresh(bytesWritten) && fresh(controls) && Abs(Looping) == Init(cfg)
    {
      this.cfg := cfg;
      buffers, freeEntries, entries := map[], UpTo(cfg.pool), FirstEntries(cfg);
      created, prevTick, biggestTick, entry := cfg.pool, UINT64_MAX, 0, cfg.pool - 1;
      cached, invalidPkts, returned, stale := false, 0, [], false;
      bytesWritten := new nat[|cfg.ids|](_ => 0);
      controls := new bool[|cfg.ids|](_ => false);
      new;
      assert bytesWritten[..] == Zeros(|cfg.ids|) && controls[..] == Unset(|cfg.ids|);
      InitFit(cfg);
    }

    /** Zero the counters and fetch the control words, as both branches for a different tick do. */
    method FetchInfo(events: seq<EtEvent>)
      requires |events| == bytesWritten.Length == controls.Length
      modifies bytesWritten, controls
      ensures bytesWritten[..] == Zeros(bytesWritten.Length) && controls[..] == FlagsOf(events)
    {
      var i := 0;
      while i < bytesWritten.Length
        invariant i <= bytesWritten.Length
        invariant forall j :: 0 <= j < i ==> bytesWritten[j] == 0 && controls[j] == events[j].hasData
      {
        bytesWritten[i] := 0;
        controls[i] := events[i].hasData;
        i := i + 1;
      }
    }

    /** The entry for a tick that is not open yet: a free one, or a new one if there is none. */
    method OpenTick(tick: u64, choice: nat)
      requires Valid() && tick !in buffers
      modifies this
      ensures bytesWritten == old(bytesWritten) && controls == old(controls) && prevTick == old(prevTick)
      ensures cached == old(cached)
      ensures invalidPkts == old(invalidPkts) && returned == old(returned) && stale == old(stale)
      ensures entry == if old(freeEntries) == {} then old(created) else choice
      ensures buffers == old(buffers)[tick := entry] && freeEntries == old(freeEntries) - {entry}
      ensures entries == old(entries)[entry := NewEntry(cfg)]
      ensures created == if old(freeEntries) == {} then old(created) + 1 else old(created)
      ensures biggestTick == if tick > old(biggestTick) then tick else old(biggestTick)
    {
      if freeEntries == {} {
        entry := created;
        created := created + 1;
      } else {
        entry := choice;
        freeEntries := freeEntries - {entry};
      }
      entries := entries[entry := NewEntry(cfg)];
      buffers := buffers[tick := entry];
      if tick > biggestTick {
        biggestTick := tick;
      }
    }

    method SelectTick(tick: u64, choice: nat) returns (status: Status)
      requires Valid()
      modifies this, bytesWritten, controls
      ensures bytesWritten == old(bytesWritten) && controls == old(controls) && Valid()
      ensures Abs(status) == Select(cfg, old(Abs(Looping)), tick, choice)
    {
      ghost var s := Select(cfg, Abs(Looping), tick, choice);
      SelectFit(cfg, Abs(Looping), tick, choice);
      status := Looping;
      if tick != prevTick {
        if tick in buffers {
          entry := buffers[tick];
        } else {
          OpenTick(tick, choice);
        }
        NewUnset(cfg);
        FetchInfo(entries[entry]);
        cached := true;
        prevTick := tick;
      } else if !cached {
        status := Undefined;
      }
      assert Abs(status) == s;
    }

    method WriteData(index: nat, h: ReHeader, payload: seq<byte>) returns (status: Status)
      requires Valid() && index < |cfg.ids|
      modifies this, bytesWritten, controls
      ensures bytesWritten == old(bytesWritten) && controls == old(controls) && Valid()
      ensures Abs(status) == Write(cfg, old(Abs(Looping)), index, h, payload)
    {
      WriteFit(cfg, Abs(Looping), index, h, payload);
      var event := entries[entry][index];
      if h.length > |cfg.blank| {
        return Thrown;
      }
      if h.offset + |payload| > |event.bytes| {
        return Undefined;
      }
      var totalBytesWritten := bytesWritten[index] + |payload|;
      event := event.(bytes := Overwrite(event.bytes, h.offset, payload));
      event := event.(length := totalBytesWritten);
      event := event.(hasData := controls[index]);
      if totalBytesWritten >= h.length {
        event := event.(hasData := true);
      }
      entries := entries[entry := entries[entry][index := event]];
      bytesWritten[index] := totalBytesWritten;
      stale := stale || h.tick !in buffers;
      return Looping;
    }

    method Finish(tick: u64, last: bool)
      requires Valid()
      modifies this
      ensures bytesWritten == old(bytesWritten) && controls == old(controls) && Valid()
      ensures Abs(Looping) == Complete(old(Abs(Looping)), tick, last)
    {
      FinishFit(cfg, Abs(Looping), tick, last);
      if last && AllHaveData(entries[entry]) {
        buffers := buffers - {tick};
        returned := returned + [Completed(tick, entries[entry])];
        freeEntries := freeEntries + {entry};
      }
    }

    method CleanHouse()
      requires Valid()
      modifies this
      ensures bytesWritten == old(bytesWritten) && controls == old(controls) && Valid()
      ensures Abs(Looping) == Evict(cfg, old(Abs(Looping)))
    {
      EvictFit(cfg, Abs(Looping));
      ghost var ts := ExpiredTicks(cfg, buffers, biggestTick);
      var open, free, gone := Sweep(cfg, buffers, entries, freeEntries, biggestTick);
      assert gone.Keys == ts;
      if gone == map[] {
        assert open == buffers && free == freeEntries;
      } else {
        returned := returned + [Evicted(gone)];
      }
      buffers, freeEntries := open, free;
    }

    /** One turn of the endless loop. */
    method Receive(r: R.Recv, choice: nat) returns (status: Status)
      requires Valid()
      modifies this, bytesWritten, controls
      ensures bytesWritten == old(bytesWritten) && controls == old(controls) && Valid()
      ensures Abs(status) == Step(cfg, old(Abs(Looping)), R.Receive(Truncated(r)), choice)
    {
      var a := R.Receive(Truncated(r));
      if a.RecvFailed? {
        return Thrown;
      }
      if a.TooShort? {
        return Undefined;
      }
      var index := IndexOf(cfg.ids, a.h.dataId);
      if index.None? {
        invalidPkts := invalidPkts + 1;
        return if invalidPkts > MAX_INVALID then Thrown else Looping;
      }
      status := SelectTick(a.h.tick, choice);
      if status == Looping {
        status := WriteData(index.value, a.h, a.payload);
        if status == Looping {
          Finish(a.h.tick, bytesWritten[index.value] >= a.h.length);
          CleanHouse();
        }
      }
    }
  }
}
