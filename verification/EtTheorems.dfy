/** What getBuffers keeps in every reachable state: its entries, its window and its pool. */
module EtTheorems {
  import opened Bytes
  import opened Counting
  import opened Headers
  import opened EtAssembler
  import R = Reassembler

  // ------------------------------------------------------------------ Runs

  /** At every turn the iterator gave a free entry if there was one. */
  ghost predicate ChoicesOk(cfg: Config, net: seq<R.Arrival>, choices: seq<nat>)
    requires |choices| == |net| && cfg.pool >= 1
  {
    forall k :: 0 <= k < |net| ==> ChoiceOk(Run(cfg, net[..k], choices[..k]), choices[k])
  }

  lemma RunNext(cfg: Config, net: seq<R.Arrival>, choices: seq<nat>, k: nat)
    requires |choices| == |net| && cfg.pool >= 1 && k < |net|
    ensures Run(cfg, net[..k + 1], choices[..k + 1]) == Step(cfg, Run(cfg, net[..k], choices[..k]), net[k], choices[k])
  {
    assert net[..k + 1][..k] == net[..k] && choices[..k + 1][..k] == choices[..k];
  }

  /** The state after k packets leads to the next one. */
  ghost predicate Follows(cfg: Config, net: seq<R.Arrival>, choices: seq<nat>, states: seq<Et>, k: nat)
    requires k < |net| == |choices| && |states| == |net| + 1
  {
    Fit(cfg, states[k]) && states[k + 1] == Step(cfg, states[k], net[k], choices[k])
  }

  /** The states of a run. */
  lemma Trace(cfg: Config, net: seq<R.Arrival>, choices: seq<nat>) returns (states: seq<Et>)
    requires |choices| == |net| && cfg.pool >= 1
    ensures |states| == |net| + 1 && forall k :: 0 <= k <= |net| ==> states[k] == Run(cfg, net[..k], choices[..k])
    ensures states[0] == Init(cfg) && forall k :: 0 <= k < |net| ==> Follows(cfg, net, choices, states, k)
  {
    states := seq(|net| + 1, k requires 0 <= k <= |net| => Run(cfg, net[..k], choices[..k]));
    forall k | 0 <= k < |net| ensures Follows(cfg, net, choices, states, k) {
      RunNext(cfg, net, choices, k);
    }
  }

  // ------------------------------------------------------------------ Conservation of entries

  /** Entry e is in use for tick t. */
  ghost predicate Uses(s: Et, t: u64, e: nat)
  {
    t in s.open && s.open[t] == e
  }

  /** Entry e is free or in use. */
  ghost predicate AtHand(s: Et, e: nat)
  {
    e in s.free || exists t :: Uses(s, t, e)
  }

  ghost predicate Conserved(s: Et)
  {
    && (forall e :: e in s.free ==> e < s.created)
    && (forall t :: t in s.open ==> s.open[t] < s.created && s.open[t] !in s.free)
    && (forall t, u :: t in s.open && u in s.open && s.open[t] == s.open[u] ==> t == u)
    && (forall e :: 0 <= e < s.created ==> AtHand(s, e))
    && (if s.prevTick in s.open then s.open[s.prevTick] == s.current else s.current in s.free)
  }

  lemma SelectConserved(cfg: Config, s: Et, tick: u64, choice: nat)
    requires Conserved(s) && ChoiceOk(s, choice)
    ensures Conserved(Select(cfg, s, tick, choice))
  {
    if tick != s.prevTick && tick !in s.open {
      OpenConserved(cfg, s, tick, choice);
    } else {
      SameUse(s, Select(cfg, s, tick, choice));
    }
  }

  lemma OpenConserved(cfg: Config, s: Et, tick: u64, choice: nat)
    requires Conserved(s) && ChoiceOk(s, choice) && tick != s.prevTick && tick !in s.open
    ensures Conserved(Select(cfg, s, tick, choice))
  {
    var s' := Select(cfg, s, tick, choice);
    forall e | 0 <= e < s'.created ensures AtHand(s', e) {
      if e == s'.current {
        assert Uses(s', tick, e);
      } else {
        assert AtHand(s, e);
        if e !in s.free {
          var t :| Uses(s, t, e);
          assert Uses(s', t, e);
        }
      }
    }
  }

  /** Finding or opening a tick leaves the entries of the open ticks alone. */
  lemma SelectFrame(cfg: Config, s: Et, tick: u64, choice: nat, t: u64)
    requires Conserved(s) && ChoiceOk(s, choice) && Wired(s) && t in s.open
    ensures var s' := Select(cfg, s, tick, choice);
      && t in s'.open && s'.open[t] == s.open[t]
      && s'.open[t] in s'.entries && s'.entries[s'.open[t]] == s.entries[s.open[t]]
  {
  }

  /** A tick that is opened gets an entry with new events. */
  lemma SelectFresh(cfg: Config, s: Et, tick: u64, choice: nat)
    requires tick != s.prevTick && tick !in s.open
    ensures var s' := Select(cfg, s, tick, choice);
      && s'.open.Keys == s.open.Keys + {tick} && s'.open[tick] == s'.current
      && s'.current in s'.entries && s'.entries[s'.current] == NewEntry(cfg)
  {
  }

  lemma SameUse(s: Et, s': Et)
    requires s'.open == s.open
    ensures forall t, e :: Uses(s', t, e) <==> Uses(s, t, e)
    ensures s'.free == s.free && s'.created == s.created && (forall e :: 0 <= e < s.created ==> AtHand(s, e)) ==>
      forall e :: 0 <= e < s'.created ==> AtHand(s', e)
  {
    if s'.free == s.free && s'.created == s.created && forall e :: 0 <= e < s.created ==> AtHand(s, e) {
      forall e | 0 <= e < s'.created ensures AtHand(s', e) {
        assert AtHand(s, e);
        if e !in s.free {
          var t :| Uses(s, t, e);
          assert Uses(s', t, e);
        }
      }
    }
  }

  lemma CompleteConserved(s: Et, tick: u64, last: bool)
    requires Conserved(s) && s.current in s.entries && s.prevTick == tick
    ensures Conserved(Complete(s, tick, last))
  {
    var s' := Complete(s, tick, last);
    if s'.free == s.free && s'.open == s.open {
      SameUse(s, s');
    } else {
      forall e | 0 <= e < s'.created ensures AtHand(s', e) {
        assert AtHand(s, e);
        if e !in s'.free {
          var t :| Uses(s, t, e);
          assert Uses(s', t, e);
        }
      }
    }
  }

  lemma EvictConserved(cfg: Config, s: Et)
    requires Conserved(s) && Wired(s)
    ensures Conserved(Evict(cfg, s))
  {
    var s', ts := Evict(cfg, s), ExpiredTicks(cfg, s.open, s.biggest);
    if ts == {} {
      SameUse(s, s');
    } else {
      forall e | 0 <= e < s'.created ensures AtHand(s', e) {
        assert AtHand(s, e);
        if e !in s'.free {
          var t :| Uses(s, t, e);
          assert t !in ts;
          assert Uses(s', t, e);
        }
      }
    }
  }

  lemma TakeConserved(cfg: Config, s: Et, idx: nat, h: ReHeader, payload: seq<byte>, choice: nat)
    requires Fit(cfg, s) && idx < |cfg.ids| && Conserved(s) && ChoiceOk(s, choice)
    ensures Conserved(Take(cfg, s, idx, h, payload, choice))
  {
    var s1, s2, s3 := TakeStages(cfg, s, idx, h, payload, choice);
    SelectConserved(cfg, s, h.tick, choice);
    WriteFrame(cfg, s1, idx, h, payload);
    ConservedFrame(s1, s2);
    CompleteConserved(s2, h.tick, s2.written[idx] >= h.length);
    EvictConserved(cfg, s3);
  }

  lemma ConservedFrame(s: Et, s': Et)
    requires Conserved(s) && s'.open == s.open && s'.free == s.free && s'.created == s.created
    requires s'.current == s.current && s'.prevTick == s.prevTick
    ensures Conserved(s')
  {
    SameUse(s, s');
  }

  lemma StepConserved(cfg: Config, s: Et, a: R.Arrival, choice: nat)
    requires Fit(cfg, s) && Conserved(s) && ChoiceOk(s, choice)
    ensures Conserved(Step(cfg, s, a, choice))
  {
    SameUse(s, Step(cfg, s, a, choice).(open := s.open));
    if s.status == Looping && a.Got? && IndexOf(cfg.ids, a.h.dataId).Some? {
      TakeConserved(cfg, s, IndexOf(cfg.ids, a.h.dataId).value, a.h, a.payload, choice);
    }
  }

  /**
   Conservation, for every stream, duplicates and late packets included: each entry ever created is either
   free or in use for exactly one open tick, and the cached entry belongs to prevTick if that is open and
   is free otherwise.
   */
  lemma {:induction false} EntriesConserved(cfg: Config, net: seq<R.Arrival>, choices: seq<nat>, k: nat)
    requires |choices| == |net| && cfg.pool >= 1 && ChoicesOk(cfg, net, choices) && k <= |net|
    ensures Conserved(Run(cfg, net[..k], choices[..k]))
    decreases k
  {
    if k > 0 {
      EntriesConserved(cfg, net, choices, k - 1);
      RunNext(cfg, net, choices, k - 1);
      StepConserved(cfg, Run(cfg, net[..k - 1], choices[..k - 1]), net[k - 1], choices[k - 1]);
    }
  }

  // ------------------------------------------------------------------ The window

  /** An open tick is at most four prescales behind the biggest. */
  ghost predicate InWindow(cfg: Config, s: Et)
  {
    forall t :: t in s.open ==> t <= s.biggest <= (t + 4 * cfg.prescale) % WORD64
  }

  ghost predicate BelowBiggest(s: Et)
  {
    forall t :: t in s.open ==> t <= s.biggest
  }

  lemma EvictWindow(cfg: Config, s: Et)
    requires Wired(s) && BelowBiggest(s)
    ensures InWindow(cfg, Evict(cfg, s))
  {
    var s', ts := Evict(cfg, s), ExpiredTicks(cfg, s.open, s.biggest);
    forall t | t in s'.open ensures t <= s'.biggest <= (t + 4 * cfg.prescale) % WORD64 {
      assert t in s.open && t !in ts;
      assert !Expired(cfg, t, s.biggest);
    }
  }

  lemma TakeWindow(cfg: Config, s: Et, idx: nat, h: ReHeader, payload: seq<byte>, choice: nat)
    requires Fit(cfg, s) && idx < |cfg.ids| && BelowBiggest(s)
    ensures var s' := Take(cfg, s, idx, h, payload, choice);
      BelowBiggest(s') && (s'.status == Looping ==> InWindow(cfg, s'))
  {
    var s1, s2, s3 := TakeStages(cfg, s, idx, h, payload, choice);
    WriteFrame(cfg, s1, idx, h, payload);
    assert BelowBiggest(s1) && BelowBiggest(s3);
    EvictWindow(cfg, s3);
  }

  lemma StepWindow(cfg: Config, s: Et, a: R.Arrival, choice: nat)
    requires Fit(cfg, s) && BelowBiggest(s) && (s.status == Looping ==> InWindow(cfg, s))
    ensures var s' := Step(cfg, s, a, choice); BelowBiggest(s') && (s'.status == Looping ==> InWindow(cfg, s'))
  {
    if s.status == Looping && a.Got? && IndexOf(cfg.ids, a.h.dataId).Some? {
      TakeWindow(cfg, s, IndexOf(cfg.ids, a.h.dataId).value, a.h, a.payload, choice);
    }
  }

  /** After every packet, of any stream, the window holds. */
  lemma {:induction false} WindowAlways(cfg: Config, net: seq<R.Arrival>, choices: seq<nat>, k: nat)
    requires |choices| == |net| && cfg.pool >= 1 && k <= |net|
    ensures var s := Run(cfg, net[..k], choices[..k]); BelowBiggest(s) && (s.status == Looping ==> InWindow(cfg, s))
    decreases k
  {
    if k > 0 {
      WindowAlways(cfg, net, choices, k - 1);
      RunNext(cfg, net, choices, k - 1);
      StepWindow(cfg, Run(cfg, net[..k - 1], choices[..k - 1]), net[k - 1], choices[k - 1]);
    }
  }

  // ------------------------------------------------------------------ The pool

  /** Ticks come in steps of the prescale and stay clear of the end of the 64-bit range. */
  ghost predicate OnGrid(cfg: Config, t: u64)
    requires cfg.prescale >= 1
  {
    t % cfg.prescale == 0 && t + 4 * cfg.prescale < WORD64
  }

  ghost predicate Regular(cfg: Config, net: seq<R.Arrival>)
    requires cfg.prescale >= 1
  {
    forall i :: 0 <= i < |net| && net[i].Got? ==> OnGrid(cfg, net[i].h.tick)
  }

  ghost predicate RegularState(cfg: Config, s: Et)
    requires cfg.prescale >= 1
  {
    (forall t :: t in s.open ==> OnGrid(cfg, t)) && (s.biggest == 0 || OnGrid(cfg, s.biggest))
  }

  /** Two multiples of p at most 4p apart are 0, 1, 2, 3 or 4 steps apart. */
  lemma StepsApart(b: nat, t: nat, p: nat)
    requires p >= 1 && b % p == 0 && t % p == 0 && 0 <= b - t <= 4 * p
    ensures b - t in {0, p, 2 * p, 3 * p, 4 * p}
  {
    var d := b / p - t / p;
    assert b == p * (b / p) && t == p * (t / p);
    assert b - t == p * d;
    if d < 0 {
      NegativeProduct(p, d);
    } else if d > 4 {
      NegativeProduct(p, 4 - d);
      assert p * (4 - d) == 4 * p - p * d;
    }
  }

  lemma NegativeProduct(p: nat, d: int)
    requires p >= 1 && d < 0
    ensures p * d < 0
  {
  }

  lemma AtMostFive(a: int, b: int, c: int, d: int, e: int)
    ensures |{a, b, c, d, e}| <= 5
  {
    var s1, s2, s3, s4 := {a}, {a, b}, {a, b, c}, {a, b, c, d};
    assert s2 == s1 + {b} && s3 == s2 + {c} && s4 == s3 + {d} && {a, b, c, d, e} == s4 + {e};
  }

  /** At most five ticks stay open between packets. */
  lemma OpenTicks(cfg: Config, s: Et)
    requires cfg.prescale >= 1 && InWindow(cfg, s) && RegularState(cfg, s)
    ensures |s.open| <= 5
  {
    var b, p := s.biggest, cfg.prescale;
    var grid: set<int> := {b, b - p, b - 2 * p, b - 3 * p, b - 4 * p};
    forall t | t in s.open ensures t in grid {
      assert OnGrid(cfg, t);
      StepsApart(b, t, p);
    }
    SubsetSize(s.open.Keys, grid);
    AtMostFive(b, b - p, b - 2 * p, b - 3 * p, b - 4 * p);
  }

  lemma {:induction false} ImageSize(open: map<u64, nat>, ts: set<u64>)
    requires ts <= open.Keys
    ensures |EntriesOf(open, ts)| <= |ts|
    decreases |ts|
  {
    if ts != {} {
      var t :| t in ts;
      ImageSize(open, ts - {t});
      assert EntriesOf(open, ts) == EntriesOf(open, ts - {t}) + {open[t]};
    }
  }

  /** Entries that are not in use are free. */
  lemma FreeEntriesLeft(s: Et)
    requires Conserved(s)
    ensures |s.free| >= s.created - |s.open|
  {
    var used := EntriesOf(s.open, s.open.Keys);
    ImageSize(s.open, s.open.Keys);
    forall e | e in UpTo(s.created) ensures e in s.free + used {
      assert AtHand(s, e);
      if e !in s.free {
        var t :| Uses(s, t, e);
      }
    }
    SubsetSize(UpTo(s.created), s.free + used);
    UnionSize(s.free, used);
  }

  lemma UnionSize(a: set<nat>, b: set<nat>)
    ensures |a + b| <= |a| + |b|
  {
    assert a + b == a + (b - a);
    SubsetSize(b - a, b);
  }

  ghost predicate Pooled(cfg: Config, s: Et)
    requires cfg.prescale >= 1
  {
    RegularState(cfg, s) && s.created == cfg.pool
  }

  lemma SelectPooled(cfg: Config, s: Et, tick: u64, choice: nat)
    requires cfg.prescale >= 1 && cfg.pool >= 6 && Pooled(cfg, s) && Conserved(s) && InWindow(cfg, s)
    requires OnGrid(cfg, tick)
    ensures var s' := Select(cfg, s, tick, choice); Pooled(cfg, s') && |s'.open| <= 6
  {
    OpenTicks(cfg, s);
    FreeEntriesLeft(s);
    assert s.free != {};
    SelectOpens(cfg, s, tick, choice);
    SelectRegular(cfg, s, tick, choice);
  }

  lemma SelectRegular(cfg: Config, s: Et, tick: u64, choice: nat)
    requires cfg.prescale >= 1 && RegularState(cfg, s) && OnGrid(cfg, tick)
    ensures RegularState(cfg, Select(cfg, s, tick, choice))
  {
  }

  lemma RegularShrinks(cfg: Config, s: Et, s': Et)
    requires cfg.prescale >= 1 && RegularState(cfg, s) && s'.biggest == s.biggest && s'.open.Keys <= s.open.Keys
    ensures RegularState(cfg, s')
  {
  }

  /** What comes after Select opens nothing and creates nothing. */
  lemma TakeShrinks(cfg: Config, s: Et, idx: nat, h: ReHeader, payload: seq<byte>, choice: nat)
    requires Fit(cfg, s) && idx < |cfg.ids|
    ensures var s1, s' := Select(cfg, s, h.tick, choice), Take(cfg, s, idx, h, payload, choice);
      s'.biggest == s1.biggest && s'.open.Keys <= s1.open.Keys && s'.created == s1.created && s'.prevTick == s1.prevTick
  {
    var s1, s2, s3 := TakeStages(cfg, s, idx, h, payload, choice);
    WriteFrame(cfg, s1, idx, h, payload);
  }

  lemma SelectOpens(cfg: Config, s: Et, tick: u64, choice: nat)
    ensures |Select(cfg, s, tick, choice).open| <= |s.open| + 1
  {
    var s' := Select(cfg, s, tick, choice);
    assert s'.open.Keys <= s.open.Keys + {tick};
    SubsetSize(s'.open.Keys, s.open.Keys + {tick});
  }

  lemma StepPooled(cfg: Config, s: Et, a: R.Arrival, choice: nat)
    requires cfg.prescale >= 1 && cfg.pool >= 6 && Fit(cfg, s) && Conserved(s) && Pooled(cfg, s)
    requires s.status == Looping ==> InWindow(cfg, s)
    requires a.Got? ==> OnGrid(cfg, a.h.tick)
    ensures Pooled(cfg, Step(cfg, s, a, choice))
  {
    if s.status == Looping && a.Got? && IndexOf(cfg.ids, a.h.dataId).Some? {
      var idx := IndexOf(cfg.ids, a.h.dataId).value;
      SelectPooled(cfg, s, a.h.tick, choice);
      TakeShrinks(cfg, s, idx, a.h, a.payload, choice);
      RegularShrinks(cfg, Select(cfg, s, a.h.tick, choice), Take(cfg, s, idx, a.h, a.payload, choice));
    }
  }

  lemma InitPooled(cfg: Config)
    requires cfg.pool >= 1 && cfg.prescale >= 1
    ensures Pooled(cfg, Init(cfg))
  {
  }

  lemma {:induction false} PooledAlways(cfg: Config, net: seq<R.Arrival>, choices: seq<nat>, k: nat)
    requires |choices| == |net| && cfg.pool >= 6 && cfg.prescale >= 1 && k <= |net|
    requires ChoicesOk(cfg, net, choices) && Regular(cfg, net)
    ensures Pooled(cfg, Run(cfg, net[..k], choices[..k]))
    decreases k
  {
    if k == 0 {
      InitPooled(cfg);
    } else {
      var s := Run(cfg, net[..k - 1], choices[..k - 1]);
      PooledAlways(cfg, net, choices, k - 1);
      EntriesConserved(cfg, net, choices, k - 1);
      WindowAlways(cfg, net, choices, k - 1);
      assert net[k - 1].Got? ==> OnGrid(cfg, net[k - 1].h.tick);
      RunNext(cfg, net, choices, k - 1);
      StepPooled(cfg, s, net[k - 1], choices[k - 1]);
    }
  }

  /**
   Pool bound: with ticks on the grid at most five stay open between packets, and a pool of six, so also
   the ten of the source, never runs out: no entry is created after the start.
   */
  lemma PoolSuffices(cfg: Config, net: seq<R.Arrival>, choices: seq<nat>, k: nat)
    requires |choices| == |net| && cfg.pool >= 6 && cfg.prescale >= 1 && k <= |net|
    requires ChoicesOk(cfg, net, choices) && Regular(cfg, net)
    ensures var s := Run(cfg, net[..k], choices[..k]);
      s.created == cfg.pool && (s.status == Looping ==> |s.open| <= 5)
  {
    PooledAlways(cfg, net, choices, k);
    WindowAlways(cfg, net, choices, k);
    var s := Run(cfg, net[..k], choices[..k]);
    if s.status == Looping {
      OpenTicks(cfg, s);
    }
  }
}
