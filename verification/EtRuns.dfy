/** Runs of packets of one tick, as getBuffers sees them: packets from unknown sources do not count. */
module EtRuns {
  import opened Bytes
  import opened EtAssembler
  import opened EtSafety
  import opened ReassemblerTheorems
  import R = Reassembler

  /** Bytes from one source among the packets from a up to b. */
  ghost function SourceBytes(net: seq<R.Arrival>, id: u16, a: nat, b: nat): (n: nat)
    requires a <= b <= |net|
    decreases b
  {
    if a == b then 0 else
      SourceBytes(net, id, a, b - 1)
      + if net[b - 1].Got? && net[b - 1].h.dataId == id then |net[b - 1].payload| else 0
  }

  ghost predicate From(a: R.Arrival, id: u16)
  {
    a.Got? && a.h.dataId == id
  }

  ghost predicate Came(net: seq<R.Arrival>, id: u16, a: nat, b: nat)
    requires a <= b <= |net|
  {
    exists j :: a <= j < b && From(net[j], id)
  }

  /** All packets from a up to b that come from expected sources are of tick t. */
  ghost predicate OneTick(cfg: Config, net: seq<R.Arrival>, a: nat, b: nat, t: u64)
    requires a <= b <= |net|
  {
    forall j :: a <= j < b && Known(cfg, net[j]) ==> net[j].h.tick == t
  }

  /** A run of tick t that carries the whole of a source's buffer. */
  ghost predicate WholeRun(world: World, cfg: Config, net: seq<R.Arrival>, a: nat, b: nat, t: u64, id: u16)
    requires a <= b <= |net|
  {
    OneTick(cfg, net, a, b, t) && Came(net, id, a, b)
    && Key(t, id) in world && SourceBytes(net, id, a, b) >= |world[Key(t, id)]|
  }

  /** Among the first k packets there is such a run. */
  ghost predicate HasRun(world: World, cfg: Config, net: seq<R.Arrival>, k: nat, t: u64, id: u16)
    requires k <= |net|
  {
    exists a: nat, b: nat :: a <= b <= k && WholeRun(world, cfg, net, a, b, t, id)
  }

  /** Every source has one. */
  ghost predicate AllRuns(world: World, cfg: Config, net: seq<R.Arrival>, k: nat, t: u64)
    requires k <= |net|
  {
    forall i :: 0 <= i < |cfg.ids| ==> RunOf(world, cfg, net, k, t, i)
  }

  ghost predicate RunOf(world: World, cfg: Config, net: seq<R.Arrival>, k: nat, t: u64, i: nat)
    requires k <= |net| && i < |cfg.ids|
  {
    HasRun(world, cfg, net, k, t, cfg.ids[i])
  }

  // ------------------------------------------------------------------ The longest run up to k

  /** Where the longest run of tick t that ends before packet k begins. */
  ghost function Since(cfg: Config, net: seq<R.Arrival>, t: u64, k: nat): (a: nat)
    requires k <= |net|
    ensures a <= k
  {
    if k == 0 then 0
    else if Known(cfg, net[k - 1]) && net[k - 1].h.tick != t then k
    else Since(cfg, net, t, k - 1)
  }

  lemma {:induction false} SinceOneTick(cfg: Config, net: seq<R.Arrival>, t: u64, k: nat)
    requires k <= |net|
    ensures OneTick(cfg, net, Since(cfg, net, t, k), k, t)
    decreases k
  {
    if k > 0 {
      SinceOneTick(cfg, net, t, k - 1);
    }
  }

  lemma {:induction false} SinceLongest(cfg: Config, net: seq<R.Arrival>, t: u64, a: nat, k: nat)
    requires a <= k <= |net| && OneTick(cfg, net, a, k, t)
    ensures Since(cfg, net, t, k) <= a
    decreases k
  {
    if a < k {
      assert OneTick(cfg, net, a, k - 1, t);
      SinceLongest(cfg, net, t, a, k - 1);
    }
  }

  lemma {:induction false} BytesFromFurther(net: seq<R.Arrival>, id: u16, a: nat, a': nat, b: nat)
    requires a <= a' <= b <= |net|
    ensures SourceBytes(net, id, a', b) <= SourceBytes(net, id, a, b)
    decreases b
  {
    if a' < b {
      BytesFromFurther(net, id, a, a', b - 1);
    }
  }

  /** Bytes of a source in that run: what its counter should say. */
  ghost function Carried(cfg: Config, net: seq<R.Arrival>, t: u64, k: nat, id: u16): (n: nat)
    requires k <= |net|
  {
    SourceBytes(net, id, Since(cfg, net, t, k), k)
  }

  ghost predicate Expected(cfg: Config, id: u16)
  {
    IndexOf(cfg.ids, id).Some?
  }

  /** A packet of tick t adds its bytes, and starts the runs of all other ticks anew. */
  lemma CarriedNext(cfg: Config, net: seq<R.Arrival>, t: u64, k: nat, id: u16)
    requires k < |net| && Known(cfg, net[k])
    ensures Carried(cfg, net, t, k + 1, id) ==
      if net[k].h.tick != t then 0
      else Carried(cfg, net, t, k, id) + if net[k].h.dataId == id then |net[k].payload| else 0
  {
  }

  /** A packet from an unknown source makes no difference. */
  lemma CarriedSkip(cfg: Config, net: seq<R.Arrival>, t: u64, k: nat, id: u16)
    requires k < |net| && !Known(cfg, net[k]) && Expected(cfg, id)
    ensures Carried(cfg, net, t, k + 1, id) == Carried(cfg, net, t, k, id)
  {
  }

  // ------------------------------------------------------------------ One more packet

  lemma RunsGrow(world: World, cfg: Config, net: seq<R.Arrival>, k: nat, t: u64, id: u16)
    requires k < |net| && HasRun(world, cfg, net, k, t, id)
    ensures HasRun(world, cfg, net, k + 1, t, id)
  {
    var a: nat, b: nat :| a <= b <= k && WholeRun(world, cfg, net, a, b, t, id);
    assert b <= k + 1;
  }

  /** A run that ends with a packet from elsewhere was there without it. */
  lemma ShorterRun(world: World, cfg: Config, net: seq<R.Arrival>, a: nat, k: nat, t: u64, id: u16)
    requires a <= k < |net| && WholeRun(world, cfg, net, a, k + 1, t, id) && !From(net[k], id)
    ensures WholeRun(world, cfg, net, a, k, t, id)
  {
    var j :| a <= j < k + 1 && From(net[j], id);
    assert j < k;
  }

  /** A packet of another tick or source makes no run. */
  lemma RunsElsewhere(world: World, cfg: Config, net: seq<R.Arrival>, k: nat, t: u64, id: u16)
    requires k < |net| && Expected(cfg, id) && !(From(net[k], id) && net[k].h.tick == t)
    ensures HasRun(world, cfg, net, k + 1, t, id) <==> HasRun(world, cfg, net, k, t, id)
  {
    if HasRun(world, cfg, net, k, t, id) {
      RunsGrow(world, cfg, net, k, t, id);
    }
    if HasRun(world, cfg, net, k + 1, t, id) {
      var a: nat, b: nat :| a <= b <= k + 1 && WholeRun(world, cfg, net, a, b, t, id);
      if b == k + 1 {
        LastOfRun(cfg, net, a, k, t, id);
        ShorterRun(world, cfg, net, a, k, t, id);
      }
    }
  }

  lemma LastOfRun(cfg: Config, net: seq<R.Arrival>, a: nat, k: nat, t: u64, id: u16)
    requires a <= k + 1 <= |net| && OneTick(cfg, net, a, k + 1, t) && Came(net, id, a, k + 1)
    requires Expected(cfg, id) && !(From(net[k], id) && net[k].h.tick == t)
    ensures a <= k && !From(net[k], id)
  {
  }

  /** A packet of tick t from this source completes a run exactly if the longest one up to it is whole. */
  lemma RunsHere(world: World, cfg: Config, net: seq<R.Arrival>, k: nat, t: u64, id: u16)
    requires k < |net| && Known(cfg, net[k]) && net[k].h.tick == t && net[k].h.dataId == id && Key(t, id) in world
    ensures HasRun(world, cfg, net, k + 1, t, id) <==>
      HasRun(world, cfg, net, k, t, id) || Carried(cfg, net, t, k + 1, id) >= |world[Key(t, id)]|
  {
    var from := Since(cfg, net, t, k + 1);
    SinceOneTick(cfg, net, t, k + 1);
    if HasRun(world, cfg, net, k, t, id) {
      RunsGrow(world, cfg, net, k, t, id);
    }
    if Carried(cfg, net, t, k + 1, id) >= |world[Key(t, id)]| {
      assert from <= k && From(net[k], id);
      assert WholeRun(world, cfg, net, from, k + 1, t, id);
    }
    if HasRun(world, cfg, net, k + 1, t, id) {
      var a: nat, b: nat :| a <= b <= k + 1 && WholeRun(world, cfg, net, a, b, t, id);
      if b == k + 1 {
        SinceLongest(cfg, net, t, a, k + 1);
        BytesFromFurther(net, id, from, a, k + 1);
      }
    }
  }

  /** A run shows that its tick has been seen. */
  lemma RunSeen(world: World, cfg: Config, net: seq<R.Arrival>, k: nat, t: u64, id: u16)
    requires k <= |net| && Expected(cfg, id) && HasRun(world, cfg, net, k, t, id)
    ensures SeenTick(cfg, net, k, t)
  {
    var a: nat, b: nat :| a <= b <= k && WholeRun(world, cfg, net, a, b, t, id);
    var j :| a <= j < b && From(net[j], id);
    assert Known(cfg, net[j]) && net[j].h.tick == t;
  }
}
