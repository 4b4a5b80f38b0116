/** What getBuffers keeps count of and what ends it, for every stream. */
module EtLoop {
  import opened Bytes
  import opened Headers
  import opened EtAssembler
  import opened EtTheorems
  import opened EtSafety
  import opened EtCompletion
  import opened EtStreams
  import R = Reassembler

  /** How many of the first k packets are from sources that are not expected. */
  ghost function Strangers(cfg: Config, net: seq<R.Arrival>, k: nat): (n: nat)
    requires k <= |net|
  {
    if k == 0 then 0 else Strangers(cfg, net, k - 1) + if net[k - 1].Got? && !Known(cfg, net[k - 1]) then 1 else 0
  }

  /** The biggest tick among the first k packets, those from expected sources; 0 if there is none. */
  ghost function Biggest(cfg: Config, net: seq<R.Arrival>, k: nat): (t: u64)
    requires k <= |net|
  {
    if k == 0 then 0
    else
      var t := Biggest(cfg, net, k - 1);
      if Known(cfg, net[k - 1]) && net[k - 1].h.tick > t then net[k - 1].h.tick else t
  }

  /** The length set for an event of the current entry is the number of bytes written to it since the tick changed. */
  ghost predicate Lengths(s: Et)
    requires s.current in s.entries
  {
    forall i :: 0 <= i < |s.written| && i < |s.entries[s.current]| && s.written[i] > 0 ==>
      s.entries[s.current][i].length == s.written[i]
  }

  ghost predicate Upto(s: Et, b: u64)
  {
    (s.cached ==> s.prevTick <= b) && forall t :: t in s.open ==> t <= b
  }

  ghost predicate Tallied(cfg: Config, net: seq<R.Arrival>, k: nat, s: Et)
    requires k <= |net| && s.current in s.entries
  {
    s.status == Looping ==>
      && s.invalid == Strangers(cfg, net, k) && s.biggest == Biggest(cfg, net, k)
      && Upto(s, s.biggest) && Lengths(s)
  }

  lemma SelectTallies(cfg: Config, s: Et, tick: u64, choice: nat)
    requires Fit(cfg, s) && Upto(s, s.biggest) && Lengths(s)
    ensures var s' := Select(cfg, s, tick, choice);
      && s'.current in s'.entries && s'.invalid == s.invalid
      && (s'.status == Looping && s.status == Looping ==>
        Upto(s', s'.biggest) && Lengths(s') && s'.biggest == if tick > s.biggest then tick else s.biggest)
  {
  }

  lemma WriteTallies(cfg: Config, s: Et, idx: nat, h: ReHeader, payload: seq<byte>)
    requires Fit(cfg, s) && idx < |cfg.ids| && Lengths(s)
    ensures var s' := Write(cfg, s, idx, h, payload); s'.current in s'.entries && s'.invalid == s.invalid && Lengths(s')
  {
  }

  /** Giving entries back closes ticks and leaves counts and events alone. */
  lemma BackTallies(cfg: Config, s: Et, tick: u64, last: bool)
    requires Fit(cfg, s) && Fit(cfg, Complete(s, tick, last)) && Upto(s, s.biggest) && Lengths(s)
    ensures var s' := Evict(cfg, Complete(s, tick, last));
      && s'.current in s'.entries && s'.invalid == s.invalid && s'.biggest == s.biggest && s'.status == s.status
      && Upto(s', s'.biggest) && Lengths(s')
  {
  }

  lemma TakeTallies(cfg: Config, s: Et, idx: nat, h: ReHeader, payload: seq<byte>, choice: nat)
    requires Fit(cfg, s) && idx < |cfg.ids| && s.status == Looping && Upto(s, s.biggest) && Lengths(s)
    ensures var s' := Take(cfg, s, idx, h, payload, choice);
      && s'.invalid == s.invalid
      && (s'.status == Looping ==>
        Upto(s', s'.biggest) && Lengths(s') && s'.biggest == if h.tick > s.biggest then h.tick else s.biggest)
  {
    var s1, s2, s3 := TakeStages(cfg, s, idx, h, payload, choice);
    SelectTallies(cfg, s, h.tick, choice);
    if s1.status == Looping {
      WriteTallies(cfg, s1, idx, h, payload);
      WriteFrame(cfg, s1, idx, h, payload);
      if s2.status == Looping {
        BackTallies(cfg, s2, h.tick, s2.written[idx] >= h.length);
      }
    }
  }

  lemma TalliedStep(cfg: Config, net: seq<R.Arrival>, k: nat, s: Et, choice: nat)
    requires k < |net| && Fit(cfg, s) && Tallied(cfg, net, k, s)
    ensures Tallied(cfg, net, k + 1, Step(cfg, s, net[k], choice))
  {
    if s.status == Looping && Known(cfg, net[k]) {
      TakeTallies(cfg, s, IndexOf(cfg.ids, net[k].h.dataId).value, net[k].h, net[k].payload, choice);
    } else {
      StepOther(cfg, s, net[k], choice);
    }
  }

  lemma {:induction false} TalliedAlways(cfg: Config, net: seq<R.Arrival>, choices: seq<nat>, states: seq<Et>, k: nat)
    requires |choices| == |net| && |states| == |net| + 1 && cfg.pool >= 1 && states[0] == Init(cfg) && k <= |net|
    requires forall k :: 0 <= k < |net| ==> Follows(cfg, net, choices, states, k)
    ensures states[k].current in states[k].entries && Tallied(cfg, net, k, states[k])
    decreases k
  {
    if k > 0 {
      TalliedAlways(cfg, net, choices, states, k - 1);
      assert Follows(cfg, net, choices, states, k - 1);
      TalliedStep(cfg, net, k - 1, states[k - 1], choices[k - 1]);
    }
  }

  /**
   For every stream, as long as the loop runs: invalidPkts is the number of packets from other sources, biggestTick
   the biggest tick of the others, and the length of an event of the current tick the bytes written since it came.
   */
  lemma CountsExactly(cfg: Config, net: seq<R.Arrival>, choices: seq<nat>, k: nat)
    requires |choices| == |net| && cfg.pool >= 1 && k <= |net| && Run(cfg, net[..k], choices[..k]).status == Looping
    ensures var s := Run(cfg, net[..k], choices[..k]);
      && s.current in s.entries && Lengths(s)
      && s.invalid == Strangers(cfg, net, k) && s.biggest == Biggest(cfg, net, k)
  {
    var states := Trace(cfg, net, choices);
    TalliedAlways(cfg, net, choices, states, k);
  }

  lemma TakeEnds(cfg: Config, s: Et, idx: nat, h: ReHeader, payload: seq<byte>, choice: nat)
    requires Fit(cfg, s) && idx < |cfg.ids| && s.status == Looping
    ensures Take(cfg, s, idx, h, payload, choice).status ==
      if Select(cfg, s, h.tick, choice).status == Undefined then Undefined
      else if h.length > |cfg.blank| then Thrown
      else if h.offset + |payload| > |cfg.blank| then Undefined
      else Looping
  {
    var s1, s2, s3 := TakeStages(cfg, s, idx, h, payload, choice);
    assert SizedEntry(cfg, s1.entries[s1.current]);
  }

  /**
   For every stream: what packet k makes of the loop. It throws on a failed read, the 101st packet from a source not
   expected and a buffer longer than an event; it is undefined on a datagram shorter than the header, event arrays
   that were not fetched and data beyond the event; and on nothing else does it stop.
   */
  lemma LoopEndsExactly(cfg: Config, net: seq<R.Arrival>, choices: seq<nat>, k: nat)
    requires |choices| == |net| && cfg.pool >= 1 && k < |net| && Run(cfg, net[..k], choices[..k]).status == Looping
    ensures var a := net[k];
      Run(cfg, net[..k + 1], choices[..k + 1]).status ==
        if a.RecvFailed? then Thrown
        else if a.TooShort? then Undefined
        else if !Known(cfg, a) then (if Strangers(cfg, net, k) + 1 > 100 then Thrown else Looping)
        else if Unfetched(cfg, net, k) then Undefined
        else if a.h.length > |cfg.blank| then Thrown
        else if a.h.offset + |a.payload| > |cfg.blank| then Undefined
        else Looping
  {
    var s := Run(cfg, net[..k], choices[..k]);
    RunNext(cfg, net, choices, k);
    CountsExactly(cfg, net, choices, k);
    if Known(cfg, net[k]) {
      UnfetchedExactly(cfg, net, choices, k);
      TakeEnds(cfg, s, IndexOf(cfg.ids, net[k].h.dataId).value, net[k].h, net[k].payload, choices[k]);
    }
  }

  // ------------------------------------------------------------------ What a packet does

  /** Packet k comes with another tick than the last one from an expected source. */
  ghost predicate Switches(cfg: Config, net: seq<R.Arrival>, k: nat)
    requires k < |net|
  {
    Known(cfg, net[k]) && LastKnown(cfg, net, k) != Some(net[k].h.tick)
  }

  /** The bytes from source i among the first k packets since the tick last changed. */
  ghost function RunBytes(cfg: Config, net: seq<R.Arrival>, k: nat, i: nat): (n: nat)
    requires k <= |net|
  {
    if k == 0 then 0
    else
      var a := net[k - 1];
      (if Switches(cfg, net, k - 1) then 0 else RunBytes(cfg, net, k - 1, i))
      + if Known(cfg, a) && IndexOf(cfg.ids, a.h.dataId).value == i then |a.payload| else 0
  }

  /** The flags of a tick's events: none is set if it is not open. */
  ghost function FlagsAt(cfg: Config, s: Et, tick: u64): (flags: seq<bool>)
  {
    if tick in s.open && s.open[tick] in s.entries then FlagsOf(s.entries[s.open[tick]]) else Unset(|cfg.ids|)
  }

  /** The flags that the current tick had when it became current. */
  ghost function FlagsBefore(cfg: Config, net: seq<R.Arrival>, states: seq<Et>, k: nat): (flags: seq<bool>)
    requires k <= |net| < |states|
  {
    if k == 0 then Unset(|cfg.ids|)
    else if Switches(cfg, net, k - 1) then FlagsAt(cfg, states[k - 1], net[k - 1].h.tick)
    else FlagsBefore(cfg, net, states, k - 1)
  }

  ghost predicate Cached(cfg: Config, net: seq<R.Arrival>, states: seq<Et>, k: nat, s: Et)
    requires k <= |net| < |states|
  {
    s.status == Looping ==>
      && |s.written| == |cfg.ids| && (forall i :: 0 <= i < |cfg.ids| ==> s.written[i] == RunBytes(cfg, net, k, i))
      && s.flags == FlagsBefore(cfg, net, states, k)
  }

  /** The counters and control words after the packet's tick has been found or opened. */
  lemma SelectCaches(cfg: Config, s: Et, tick: u64, choice: nat)
    requires Fit(cfg, s) && Select(cfg, s, tick, choice).status == Looping
    ensures var s', switch := Select(cfg, s, tick, choice), !(s.cached && s.prevTick == tick);
      && s'.written == (if switch then Zeros(|cfg.ids|) else s.written)
      && s'.flags == (if switch then FlagsAt(cfg, s, tick) else s.flags)
      && s'.open.Keys == (if switch then s.open.Keys + {tick} else s.open.Keys) && s'.returned == s.returned
  {
  }

  /** What a write leaves in the event, the counter and the control words. */
  lemma WriteCaches(cfg: Config, s: Et, idx: nat, h: ReHeader, payload: seq<byte>)
    requires Fit(cfg, s) && idx < |cfg.ids| && s.status == Looping && Write(cfg, s, idx, h, payload).status == Looping
    ensures var s', n := Write(cfg, s, idx, h, payload), s.written[idx] + |payload|;
      && s'.written == s.written[idx := n] && s'.flags == s.flags && s'.current in s'.entries
      && |s'.entries[s'.current]| == |cfg.ids| && s'.entries[s'.current][idx].length == n
      && (s'.entries[s'.current][idx].hasData <==> s.flags[idx] || n >= h.length)
  {
  }

  /** The ticks that are at most four prescales behind the biggest, in 64-bit arithmetic. */
  ghost function InReach(cfg: Config, ts: set<u64>, biggest: u64): (r: set<u64>)
  {
    set t | t in ts && biggest <= (t + 4 * cfg.prescale) % 0x1_0000_0000_0000_0000
  }

  lemma CompleteCaches(s: Et, tick: u64, last: bool)
    requires s.current in s.entries
    ensures var s', done := Complete(s, tick, last), last && AllHaveData(s.entries[s.current]);
      && s'.open.Keys == s.open.Keys - (if done then {tick} else {})
      && CompletedTicks(s'.returned) == CompletedTicks(s.returned) + (if done then [tick] else [])
      && |s'.returned| == |s.returned| + if done then 1 else 0
  {
    if last && AllHaveData(s.entries[s.current]) {
      CompletedAppend(s.returned, Completed(tick, s.entries[s.current]));
    }
  }

  lemma EvictCaches(cfg: Config, s: Et)
    requires Wired(s)
    ensures var s', left := Evict(cfg, s), s.open.Keys;
      && s'.open.Keys == InReach(cfg, left, s.biggest) && CompletedTicks(s'.returned) == CompletedTicks(s.returned)
      && |s'.returned| == |s.returned| + if s'.open.Keys == left then 0 else 1
  {
    EvictCompletes(cfg, s);
    var ts, left := ExpiredTicks(cfg, s.open, s.biggest), s.open.Keys;
    assert ts == left - InReach(cfg, left, s.biggest);
    if ts == {} {
      forall t | t in left ensures t in InReach(cfg, left, s.biggest) {
        assert t !in ts;
      }
      assert InReach(cfg, left, s.biggest) == left;
    }
  }

  /** What giving entries back does to the open ticks and the log; everything else stays. */
  lemma BackCaches(cfg: Config, s: Et, tick: u64, last: bool)
    requires Fit(cfg, s) && Fit(cfg, Complete(s, tick, last))
    ensures var s', done := Evict(cfg, Complete(s, tick, last)), last && AllHaveData(s.entries[s.current]);
      var left := s.open.Keys - if done then {tick} else {};
      && s'.written == s.written && s'.flags == s.flags && s'.entries == s.entries && s'.current == s.current
      && s'.open.Keys == InReach(cfg, left, s.biggest) && s'.biggest == s.biggest
      && CompletedTicks(s'.returned) == CompletedTicks(s.returned) + (if done then [tick] else [])
      && |s'.returned| == |s.returned| + (if done then 1 else 0) + if s'.open.Keys == left then 0 else 1
  {
    CompleteCaches(s, tick, last);
    EvictCaches(cfg, Complete(s, tick, last));
  }

  /** The counters and control words after a packet. */
  lemma TakeCaches(cfg: Config, s: Et, idx: nat, h: ReHeader, payload: seq<byte>, choice: nat)
    requires Fit(cfg, s) && idx < |cfg.ids| && s.status == Looping
    requires Take(cfg, s, idx, h, payload, choice).status == Looping
    ensures var s', switch := Take(cfg, s, idx, h, payload, choice), !(s.cached && s.prevTick == h.tick);
      var n := (if switch then 0 else s.written[idx]) + |payload|;
      && s'.written == (if switch then Zeros(|cfg.ids|) else s.written)[idx := n]
      && s'.flags == (if switch then FlagsAt(cfg, s, h.tick) else s.flags)
  {
    var s1, s2, s3 := TakeStages(cfg, s, idx, h, payload, choice);
    SelectCaches(cfg, s, h.tick, choice);
    WriteCaches(cfg, s1, idx, h, payload);
    BackCaches(cfg, s2, h.tick, s2.written[idx] >= h.length);
  }

  lemma CachedStep(cfg: Config, net: seq<R.Arrival>, states: seq<Et>, k: nat, s': Et, choice: nat)
    requires k < |net| < |states| && Fit(cfg, states[k]) && s' == Step(cfg, states[k], net[k], choice)
    requires Recalls(cfg, net, k, states[k]) && Cached(cfg, net, states, k, states[k])
    ensures Cached(cfg, net, states, k + 1, s')
  {
    var s := states[k];
    if s'.status == Looping && Known(cfg, net[k]) {
      StoppedStep(cfg, s, net[k], choice);
      TakeCaches(cfg, s, IndexOf(cfg.ids, net[k].h.dataId).value, net[k].h, net[k].payload, choice);
    } else if s'.status == Looping {
      StepOther(cfg, s, net[k], choice);
    }
  }

  lemma {:induction false} CachedAlways(cfg: Config, net: seq<R.Arrival>, choices: seq<nat>, states: seq<Et>, k: nat)
    requires |choices| == |net| && |states| == |net| + 1 && cfg.pool >= 1 && states[0] == Init(cfg) && k <= |net|
    requires forall k :: 0 <= k < |net| ==> Follows(cfg, net, choices, states, k)
    ensures Cached(cfg, net, states, k, states[k])
    decreases k
  {
    if k > 0 {
      CachedAlways(cfg, net, choices, states, k - 1);
      RecallsAlways(cfg, net, choices, states, k - 1);
      assert Follows(cfg, net, choices, states, k - 1);
      CachedStep(cfg, net, states, k - 1, states[k], choices[k - 1]);
    }
  }

  /** What a packet that does not end the loop does to its event, the open ticks and the log. */
  ghost predicate Turned(cfg: Config, h: ReHeader, idx: nat, open: set<u64>, flag: bool, n: nat, s: Et, s': Et)
  {
    && s'.current in s'.entries && idx < |s'.entries[s'.current]|
    && var ev, done := s'.entries[s'.current][idx], n >= h.length && AllHaveData(s'.entries[s'.current]);
       var left := open - if done then {h.tick} else {};
       && ev.length == n && (ev.hasData <==> flag || n >= h.length)
       && s'.open.Keys == InReach(cfg, left, s'.biggest)
       && CompletedTicks(s'.returned) == CompletedTicks(s.returned) + (if done then [h.tick] else [])
       && |s'.returned| == |s.returned| + (if done then 1 else 0) + if s'.open.Keys == left then 0 else 1
  }

  lemma TakeTurns(cfg: Config, s: Et, idx: nat, h: ReHeader, payload: seq<byte>, choice: nat)
    requires Fit(cfg, s) && idx < |cfg.ids| && s.status == Looping
    requires Take(cfg, s, idx, h, payload, choice).status == Looping
    ensures var s', switch := Take(cfg, s, idx, h, payload, choice), !(s.cached && s.prevTick == h.tick);
      && |s'.flags| == |s'.written| == |cfg.ids|
      && Turned(cfg, h, idx, if switch then s.open.Keys + {h.tick} else s.open.Keys,
                s'.flags[idx], s'.written[idx], s, s')
  {
    var s1, s2, s3 := TakeStages(cfg, s, idx, h, payload, choice);
    SelectCaches(cfg, s, h.tick, choice);
    WriteCaches(cfg, s1, idx, h, payload);
    WriteFrame(cfg, s1, idx, h, payload);
    BackCaches(cfg, s2, h.tick, s2.written[idx] >= h.length);
  }

  /**
   For every stream, genuine or not: what packet k does if it does not end the loop. The length of its event becomes
   the bytes of its source since the tick last changed. The event is flagged exactly if it was when the tick became
   current, or that count reaches the length in the header. The tick goes back complete exactly if the count reaches
   the length and all events of its entry are flagged. And of the ticks then open exactly those stay open that are not
   more than four prescales behind the biggest, in 64-bit arithmetic; the others go back together.
   */
  lemma TurnExactly(cfg: Config, net: seq<R.Arrival>, choices: seq<nat>, k: nat) returns (states: seq<Et>)
    requires |choices| == |net| && cfg.pool >= 1 && k < |net| && Known(cfg, net[k])
    requires Run(cfg, net[..k + 1], choices[..k + 1]).status == Looping
    ensures |states| == |net| + 1 && forall j :: 0 <= j <= |net| ==> states[j] == Run(cfg, net[..j], choices[..j])
    ensures var s, s', a := states[k], states[k + 1], net[k];
      var idx := IndexOf(cfg.ids, a.h.dataId).value;
      && |FlagsBefore(cfg, net, states, k + 1)| == |cfg.ids|
      && Turned(cfg, a.h, idx, if Switches(cfg, net, k) then s.open.Keys + {a.h.tick} else s.open.Keys,
                FlagsBefore(cfg, net, states, k + 1)[idx], RunBytes(cfg, net, k + 1, idx), s, s')
  {
    states := Trace(cfg, net, choices);
    var idx := IndexOf(cfg.ids, net[k].h.dataId).value;
    CachedAlways(cfg, net, choices, states, k + 1);
    RecallsAlways(cfg, net, choices, states, k);
    assert Follows(cfg, net, choices, states, k);
    StoppedStep(cfg, states[k], net[k], choices[k]);
    TakeTurns(cfg, states[k], idx, net[k].h, net[k].payload, choices[k]);
  }

  /** What is read of a datagram: all of it up to 9100 bytes, and of a longer one the header and 9080 bytes of data. */
  lemma TakenWhole(bytes: seq<byte>)
    ensures R.Receive(Truncated(R.Datagram(bytes))) ==
      if |bytes| < 20 then R.TooShort
      else R.Got(ParseReHeader(bytes), if |bytes| <= 9100 then bytes[20..] else bytes[20..9100])
  {
    if |bytes| > 9100 {
      var front := bytes[..9100];
      assert front[2..4] == bytes[2..4] && front[4..8] == bytes[4..8] && front[8..12] == bytes[8..12];
      assert front[12..20] == bytes[12..20] && front[20..] == bytes[20..9100];
    }
  }
}
