/** Producer, consumers and releasers as interleaved steps over one ring. */
module SupplierTheorems {
  import opened Counting
  import opened Supplier

  // ------------------------------------------------------------------ The system

  /** What the outside knows of a consumer: the sequences its users hold, each with the number of users who have
      not released it, those whose last user is on the way to the lock, and all it was ever handed, in order. */
  datatype Track = Track(held: map<int, int>, inFlight: set<int>, handed: seq<int>)
  {
    function Take(q: int, users: nat): (t: Track)
    {
      Track(held[q := users], inFlight, handed + [q])
    }

    /** One user of several is done. */
    function Use(q: int): (t: Track)
      requires q in held
    {
      Track(held[q := held[q] - 1], inFlight, handed)
    }

    function Give(q: int, released: int): (t: Track)
    {
      Track(held - {q}, inFlight + {released}, handed)
    }

    function Settle(q: int): (t: Track)
    {
      Track(held, inFlight - {q}, handed)
    }
  }

  /** `waiting` is the n of a next(n) that spins, 0 if none does; `lastMin` the minimum that ended the last wait,
      -1 before the first; `unpublished` what the producer has claimed and not published. */
  datatype System = System(ring: Ring, waiting: nat, lastMin: int, tracks: seq<Track>, unpublished: set<int>)

  datatype Event =
    | Wait(n: nat)
    | Claim(n: nat, seen: int)
    | Publish(lo: int, hi: int)
    | ConsumerGet(id: nat, avail: int, users: nat)
    | Alert(id: nat)
    | Release(id: nat, q: int)
    | Lock(id: nat, q: int)

  /**
   When a step can happen. The minimum that ends a wait was read while others went on, so it is only
   known not to exceed the gating sequences; waitFor returns something published since; an item is
   released by those who hold it.
   */
  ghost predicate Enabled(s: System, e: Event)
    requires s.ring.Shaped() && |s.tracks| == |s.ring.consumers|
  {
    var r := s.ring;
    match e
    case Wait(n) => s.waiting == 0 && 1 <= n <= r.size && r.MustWait(n)
    case Claim(n, seen) =>
      && 1 <= n <= r.size
      && if r.MustWait(n)
         then
           && s.waiting == n && r.claimed + n - r.size <= seen <= r.claimed
           && forall i :: 0 <= i < |r.consumers| ==> seen <= r.consumers[i].gate
         else s.waiting == 0
    case Publish(lo, hi) => lo <= hi && Interval(lo, hi + 1) <= s.unpublished
    case ConsumerGet(id, avail, users) =>
      && id < |r.consumers| && users >= 1
      && (r.consumers[id].available < r.consumers[id].next ==> r.consumers[id].next <= avail <= r.cursor)
    case Alert(id) => id < |r.consumers|
    case Release(id, q) => id < |r.consumers| && q in s.tracks[id].held
    case Lock(id, q) => id < |r.consumers| && q in s.tracks[id].inFlight
  }

  function Apply(s: System, e: Event): (s': System)
    requires s.ring.Shaped() && |s.tracks| == |s.ring.consumers| && Enabled(s, e)
    requires e.Release? ==> s.ring.slots[SlotOf(e.q, s.ring.size)].users[e.id] > 0
  {
    var r := s.ring;
    match e
    case Wait(n) => s.(ring := r.Expose(), waiting := n)
    case Claim(n, seen) =>
      var claimed := Interval(r.claimed + 1, r.claimed + n + 1);
      s.(ring := r.Claim(n, seen), waiting := 0, lastMin := if s.waiting > 0 then seen else s.lastMin,
         unpublished := s.unpublished + claimed)
    case Publish(lo, hi) =>
      s.(ring := r.Publish(SlotOf(hi, r.size)), unpublished := s.unpublished - Interval(lo, hi + 1))
    case ConsumerGet(id, avail, users) =>
      var t, q := s.tracks[id], r.consumers[id].next;
      s.(ring := r.Hand(id, avail, users), tracks := s.tracks[id := t.Take(q, users)])
    case Alert(id) => s
    case Release(id, q) =>
      var t, k := s.tracks[id], SlotOf(q, r.size);
      if r.slots[k].users[id] == 1
      then s.(ring := r.Drop(id, k),
              tracks := s.tracks[id := t.Give(q, r.SequenceOf(id, k))])
      else s.(ring := r.Drop(id, k), tracks := s.tracks[id := t.Use(q)])
    case Lock(id, q) =>
      var t := s.tracks[id];
      s.(ring := r.Release(id, q), tracks := s.tracks[id := t.Settle(q)])
  }

  // ------------------------------------------------------------------ The invariant

  /** Sequences obtained and released, but not yet passed by the gate. */
  ghost function Pending(c: Consumer, t: Track): (p: set<int>)
  {
    Interval(c.last + 1, c.next) - t.held.Keys - t.inFlight
  }

  /** Everything out is between the gate and what was handed out last, at most a ring behind the producer. */
  ghost predicate Placed(c: Consumer, t: Track, claimed: int, size: nat)
  {
    && -1 <= c.last < c.next && c.next - 1 <= c.available <= claimed
    && claimed - size <= c.gate == c.last
    && t.held.Keys !! t.inFlight
    && forall q :: q in t.held || q in t.inFlight ==> c.last < q < c.next
  }

  /** The counters describe what is pending, and the gate has not missed its chance. */
  ghost predicate Accounted(c: Consumer, pending: set<int>)
  {
    Counts(c, pending) && (pending == {} || !NoGaps(c.gate, pending))
  }

  /** 0, 1, 2, ... without gap or repeat. */
  ghost predicate InSequence(handed: seq<int>, next: int)
  {
    |handed| == next && forall i :: 0 <= i < |handed| ==> handed[i] == i
  }

  ghost predicate ConsumerOk(c: Consumer, t: Track, claimed: int, size: nat)
  {
    Placed(c, t, claimed, size) && Accounted(c, Pending(c, t)) && InSequence(t.handed, c.next)
  }

  /** An item out with consumer i carries the sequence it was handed out under, and knows how many users are left. */
  ghost predicate Tagged(item: Item, i: nat, q: int, users: int)
    requires i < |item.consumerSeqs| == |item.users|
  {
    item.fromConsumer && item.consumerSeqs[i] == q && item.users[i] == users >= 1
  }

  ghost predicate Labelled(r: Ring, i: nat, q: int, users: int)
    requires r.Shaped() && i < |r.consumers|
  {
    Tagged(r.slots[SlotOf(q, r.size)], i, q, users)
  }

  ghost predicate RingOk(r: Ring)
  {
    && r.Shaped() && -1 <= r.claimed && -1 <= r.cursor <= r.claimed && r.cachedGate <= r.claimed
    && (forall i :: 0 <= i < |r.consumers| ==> r.cachedGate <= r.consumers[i].gate)
    && (forall q :: 0 <= q <= r.claimed && r.claimed - r.size < q ==> r.slots[SlotOf(q, r.size)].producerSeq == q)
    && (forall k :: 0 <= k < r.size ==> -1 <= r.slots[k].producerSeq <= Top(r))
  }

  /** The producer's labels start at 0 before anything is claimed. */
  function Top(r: Ring): (t: int)
  {
    if r.claimed < 0 then 0 else r.claimed
  }

  ghost predicate Inv(s: System)
  {
    && RingOk(s.ring) && |s.tracks| == |s.ring.consumers|
    && (forall i :: 0 <= i < |s.tracks| ==> ConsumerOk(s.ring.consumers[i], s.tracks[i], s.ring.claimed, s.ring.size))
    && (forall i, q :: 0 <= i < |s.tracks| && q in s.tracks[i].held ==> Labelled(s.ring, i, q, s.tracks[i].held[q]))
    && (forall q :: q in s.unpublished ==> 0 <= q <= s.ring.claimed)
    && (s.waiting > 0 ==> s.ring.MustWait(s.waiting)) && s.ring.cachedGate == s.lastMin
  }

  // ------------------------------------------------------------------ Every step keeps it

  /** Sequences less than a ring apart are in different slots. */
  lemma {:induction false} SlotsDiffer(a: int, b: int, size: nat)
    requires 0 <= a < b < a + size
    ensures SlotOf(a, size) != SlotOf(b, size)
    decreases a
  {
    if a >= size {
      SlotsDiffer(a - size, b - size, size);
    } else if b >= size {
      assert SlotOf(b, size) == b - size;
    }
  }

  /** Preparing items touches the claimed slots only, and there not what belongs to consumers. */
  lemma {:induction false} PreparedEffect(slots: seq<Item>, lo: int, n: nat, q: int)
    requires slots != [] && n <= |slots| && 0 <= lo && 0 <= q
    ensures var k := SlotOf(q, |slots|);
      var p := Prepared(slots, lo, n)[k];
      && p.consumerSeqs == slots[k].consumerSeqs && p.users == slots[k].users
      && (lo <= q < lo + n ==> p.producerSeq == q && !p.fromConsumer)
      && (lo + n - |slots| <= q < lo ==> p == slots[k])
      && (p.producerSeq == slots[k].producerSeq || lo <= p.producerSeq < lo + n)
    decreases n
  {
    if n > 0 {
      PreparedEffect(slots, lo, n - 1, q);
      if lo + n - |slots| <= q < lo + n - 1 {
        SlotsDiffer(q, lo + n - 1, |slots|);
      }
    }
  }

  /** The gates are far enough: a claim never reaches round to a sequence that is not behind every gate. */
  lemma ClaimBehindGates(s: System, n: nat, seen: int, i: nat)
    requires Inv(s) && Enabled(s, Claim(n, seen)) && i < |s.tracks|
    ensures s.ring.claimed + n - s.ring.size <= s.ring.consumers[i].gate
  {
  }

  /** After a claim the last `size` sequences are the labels of their slots, and no label is ahead. */
  lemma ClaimProducer(r: Ring, n: nat)
    requires RingOk(r) && 1 <= n <= r.size
    ensures var slots := Prepared(r.slots, r.claimed + 1, n);
      && (forall q :: 0 <= q <= r.claimed + n && r.claimed + n - r.size < q ==>
        slots[SlotOf(q, r.size)].producerSeq == q)
      && (forall k :: 0 <= k < r.size ==> -1 <= slots[k].producerSeq <= r.claimed + n)
  {
    var slots := Prepared(r.slots, r.claimed + 1, n);
    forall q | 0 <= q <= r.claimed + n && r.claimed + n - r.size < q ensures slots[SlotOf(q, r.size)].producerSeq == q {
      PreparedEffect(r.slots, r.claimed + 1, n, q);
    }
    forall k | 0 <= k < r.size ensures -1 <= slots[k].producerSeq <= r.claimed + n {
      PreparedEffect(r.slots, r.claimed + 1, n, k);
      assert SlotOf(k, r.size) == k;
    }
  }

  lemma ClaimRing(s: System, n: nat, seen: int)
    requires Inv(s) && Enabled(s, Claim(n, seen))
    ensures RingOk(s.ring.Claim(n, seen))
  {
    PreparedShape(s.ring.slots, s.ring.claimed + 1, n, s.ring);
    ClaimProducer(s.ring, n);
  }

  lemma ClaimLabels(r: Ring, n: nat, seen: int, i: nat, q: int, users: int)
    requires r.Shaped() && i < |r.consumers| && Labelled(r, i, q, users)
    requires n <= r.size && -1 <= r.claimed && 0 <= q <= r.claimed && r.claimed + n - r.size < q
    ensures r.Claim(n, seen).Shaped() && Labelled(r.Claim(n, seen), i, q, users)
  {
    PreparedEffect(r.slots, r.claimed + 1, n, q);
    PreparedShape(r.slots, r.claimed + 1, n, r);
  }

  lemma ClaimKeeps(s: System, n: nat, seen: int)
    requires Inv(s) && Enabled(s, Claim(n, seen))
    ensures Inv(Apply(s, Claim(n, seen)))
  {
    var r, s' := s.ring, Apply(s, Claim(n, seen));
    ClaimRing(s, n, seen);
    forall i | 0 <= i < |s.tracks| ensures ConsumerOk(s'.ring.consumers[i], s'.tracks[i], s'.ring.claimed, r.size) {
      ClaimBehindGates(s, n, seen, i);
      assert ConsumerOk(r.consumers[i], s.tracks[i], r.claimed, r.size);
    }
    forall i, q | 0 <= i < |s.tracks| && q in s'.tracks[i].held
      ensures Labelled(s'.ring, i, q, s'.tracks[i].held[q])
    {
      ClaimBehindGates(s, n, seen, i);
      assert ConsumerOk(r.consumers[i], s.tracks[i], r.claimed, r.size);
      assert Labelled(r, i, q, s.tracks[i].held[q]);
      ClaimLabels(r, n, seen, i, q, s.tracks[i].held[q]);
    }
  }

  lemma PublishKeeps(s: System, lo: int, hi: int)
    requires Inv(s) && Enabled(s, Publish(lo, hi))
    ensures Inv(Apply(s, Publish(lo, hi)))
  {
    assert hi in s.unpublished;
    var s' := Apply(s, Publish(lo, hi));
    forall i, q | 0 <= i < |s.tracks| && q in s.tracks[i].held
      ensures Labelled(s'.ring, i, q, s.tracks[i].held[q])
    {
      assert Labelled(s.ring, i, q, s.tracks[i].held[q]);
    }
  }

  lemma HandConsumer(c: Consumer, t: Track, claimed: int, size: nat, avail: int, users: nat)
    requires ConsumerOk(c, t, claimed, size)
    requires c.available < c.next ==> c.next <= avail <= claimed
    ensures ConsumerOk(Advance(c, avail), t.Take(c.next, users), claimed, size)
  {
    var c', t' := Advance(c, avail), t.Take(c.next, users);
    HandPending(c, t, avail, users);
    SameCounters(c, c', Pending(c, t));
    HandPlaced(c, t, claimed, size, avail, users);
  }

  lemma HandPlaced(c: Consumer, t: Track, claimed: int, size: nat, avail: int, users: nat)
    requires Placed(c, t, claimed, size) && (c.available < c.next ==> c.next <= avail <= claimed)
    ensures Placed(Advance(c, avail), t.Take(c.next, users), claimed, size)
  {
  }

  lemma HandPending(c: Consumer, t: Track, avail: int, users: nat)
    requires c.last < c.next
    ensures Pending(Advance(c, avail), t.Take(c.next, users)) == Pending(c, t)
  {
  }

  lemma SameCounters(c: Consumer, c': Consumer, pending: set<int>)
    requires Accounted(c, pending) && c'.gate == c.gate && c'.last == c.last && c'.max == c.max
    requires c'.between == c.between
    ensures Accounted(c', pending)
  {
  }

  /** What a consumer is handed leaves the labels of what its users and others hold alone. */
  lemma HandOther(r: Ring, id: nat, avail: int, users: nat, i: nat, q: int, n: int)
    requires r.Shaped() && id < |r.consumers| && i < |r.consumers| && Labelled(r, i, q, n)
    requires i == id ==> SlotOf(q, r.size) != SlotOf(r.consumers[id].next, r.size)
    ensures r.Hand(id, avail, users).Shaped() && Labelled(r.Hand(id, avail, users), i, q, n)
  {
  }

  lemma HandOwn(r: Ring, id: nat, avail: int, users: nat)
    requires r.Shaped() && id < |r.consumers| && users >= 1
    ensures r.Hand(id, avail, users).Shaped() && Labelled(r.Hand(id, avail, users), id, r.consumers[id].next, users)
  {
  }

  lemma HandLabels(s: System, id: nat, avail: int, users: nat, i: nat, q: int)
    requires Inv(s) && Enabled(s, ConsumerGet(id, avail, users)) && i < |s.tracks|
    requires q in s.tracks[i].held && (i == id ==> q != s.ring.consumers[id].next)
    ensures s.ring.Hand(id, avail, users).Shaped()
    ensures Labelled(s.ring.Hand(id, avail, users), i, q, s.tracks[i].held[q])
  {
    var r := s.ring;
    assert ConsumerOk(r.consumers[id], s.tracks[id], r.claimed, r.size);
    if i == id {
      SlotsDiffer(q, r.consumers[id].next, r.size);
    }
    HandOther(r, id, avail, users, i, q, s.tracks[i].held[q]);
  }

  lemma HandRing(s: System, id: nat, avail: int, users: nat)
    requires RingOk(s.ring) && id < |s.ring.consumers|
    ensures RingOk(s.ring.Hand(id, avail, users))
  {
    var r, r' := s.ring, s.ring.Hand(id, avail, users);
    assert forall k :: 0 <= k < r.size ==> r'.slots[k].producerSeq == r.slots[k].producerSeq;
    assert forall i :: 0 <= i < |r.consumers| ==> r'.consumers[i].gate == r.consumers[i].gate;
  }

  lemma HandConsumers(s: System, id: nat, avail: int, users: nat, i: nat)
    requires Inv(s) && Enabled(s, ConsumerGet(id, avail, users)) && i < |s.tracks|
    ensures var s' := Apply(s, ConsumerGet(id, avail, users));
      && |s'.ring.consumers| == |s'.tracks| == |s.tracks|
      && ConsumerOk(s'.ring.consumers[i], s'.tracks[i], s.ring.claimed, s.ring.size)
  {
    var r, s' := s.ring, Apply(s, ConsumerGet(id, avail, users));
    assert ConsumerOk(r.consumers[i], s.tracks[i], r.claimed, r.size);
    if i == id {
      HandConsumer(r.consumers[id], s.tracks[id], r.claimed, r.size, avail, users);
      assert s'.ring.consumers[i] == Advance(r.consumers[id], avail);
      assert s'.tracks[i] == s.tracks[id].Take(r.consumers[id].next, users);
    }
  }

  lemma HandKeeps(s: System, id: nat, avail: int, users: nat)
    requires Inv(s) && Enabled(s, ConsumerGet(id, avail, users))
    ensures Inv(Apply(s, ConsumerGet(id, avail, users)))
  {
    var s' := Apply(s, ConsumerGet(id, avail, users));
    HandRing(s, id, avail, users);
    forall i | 0 <= i < |s.tracks| ensures ConsumerOk(s'.ring.consumers[i], s'.tracks[i], s.ring.claimed, s.ring.size) {
      HandConsumers(s, id, avail, users, i);
    }
    forall i, q | 0 <= i < |s.tracks| && q in s'.tracks[i].held
      ensures Labelled(s'.ring, i, q, s'.tracks[i].held[q])
    {
      if i == id && q == s.ring.consumers[id].next {
        HandOwn(s.ring, id, avail, users);
      } else {
        HandLabels(s, id, avail, users, i, q);
      }
    }
  }

  /** release reads the sequence that was handed out. */
  lemma HeldItem(s: System, id: nat, q: int)
    requires Inv(s) && Enabled(s, Release(id, q))
    ensures s.ring.slots[SlotOf(q, s.ring.size)].users[id] == s.tracks[id].held[q] > 0
    ensures s.ring.SequenceOf(id, SlotOf(q, s.ring.size)) == q
  {
    assert Labelled(s.ring, id, q, s.tracks[id].held[q]);
  }

  lemma DropOther(r: Ring, id: nat, k: nat, i: nat, p: int, n: int)
    requires r.Shaped() && id < |r.consumers| && k < r.size && r.slots[k].users[id] > 0
    requires i < |r.consumers| && Labelled(r, i, p, n) && (i == id ==> SlotOf(p, r.size) != k)
    ensures r.Drop(id, k).Shaped() && Labelled(r.Drop(id, k), i, p, n)
  {
  }

  lemma DropOwn(r: Ring, id: nat, q: int, n: int)
    requires r.Shaped() && id < |r.consumers| && Labelled(r, id, q, n) && n > 1
    ensures var r' := r.Drop(id, SlotOf(q, r.size)); r'.Shaped() && Labelled(r', id, q, n - 1)
  {
  }

  /** Sequences that a consumer holds are in different slots. */
  lemma HeldApart(c: Consumer, t: Track, claimed: int, size: nat, p: int, q: int)
    requires size >= 1 && Placed(c, t, claimed, size) && p in t.held && q in t.held && p != q
    ensures SlotOf(p, size) != SlotOf(q, size)
  {
    if p < q {
      SlotsDiffer(p, q, size);
    } else {
      SlotsDiffer(q, p, size);
    }
  }

  lemma ReleaseOther(r: Ring, t: Track, id: nat, q: int, i: nat, p: int, n: int)
    requires r.Shaped() && id < |r.consumers| && i < |r.consumers| && Labelled(r, i, p, n)
    requires Placed(r.consumers[id], t, r.claimed, r.size) && q in t.held && (i == id ==> p in t.held && p != q)
    requires r.slots[SlotOf(q, r.size)].users[id] > 0
    ensures var r' := r.Drop(id, SlotOf(q, r.size)); r'.Shaped() && Labelled(r', i, p, n)
  {
    if i == id {
      HeldApart(r.consumers[id], t, r.claimed, r.size, p, q);
    }
    DropOther(r, id, SlotOf(q, r.size), i, p, n);
  }

  lemma GivePending(c: Consumer, t: Track, q: int)
    requires q in t.held
    ensures Pending(c, t.Give(q, q)) == Pending(c, t)
  {
  }

  lemma ReleaseConsumer(c: Consumer, t: Track, claimed: int, size: nat, q: int)
    requires ConsumerOk(c, t, claimed, size) && q in t.held
    ensures ConsumerOk(c, t.Give(q, q), claimed, size)
  {
    GivePending(c, t, q);
  }

  lemma UseConsumer(c: Consumer, t: Track, claimed: int, size: nat, q: int)
    requires ConsumerOk(c, t, claimed, size) && q in t.held
    ensures ConsumerOk(c, t.Use(q), claimed, size)
  {
    assert t.Use(q).held.Keys == t.held.Keys;
  }

  /** A release by the last user puts the sequence on its way to the lock, one by another user only counts. */
  lemma ReleaseTracks(s: System, id: nat, q: int)
    requires Inv(s) && Enabled(s, Release(id, q))
    ensures s.ring.slots[SlotOf(q, s.ring.size)].users[id] == s.tracks[id].held[q] > 0
    ensures var s', t := Apply(s, Release(id, q)), s.tracks[id];
      && s'.ring == s.ring.Drop(id, SlotOf(q, s.ring.size))
      && s' == s.(ring := s'.ring, tracks := s.tracks[id := if t.held[q] == 1 then t.Give(q, q) else t.Use(q)])
  {
    HeldItem(s, id, q);
  }

  lemma ReleaseLabelsOther(s: System, id: nat, q: int, i: nat, p: int, r': Ring)
    requires Inv(s) && Enabled(s, Release(id, q)) && i < |s.tracks| && p in s.tracks[i].held && (i != id || p != q)
    requires s.ring.slots[SlotOf(q, s.ring.size)].users[id] > 0 && r' == s.ring.Drop(id, SlotOf(q, s.ring.size))
    ensures r'.Shaped() && i < |r'.consumers| && Labelled(r', i, p, s.tracks[i].held[p])
  {
    assert ConsumerOk(s.ring.consumers[id], s.tracks[id], s.ring.claimed, s.ring.size);
    ReleaseOther(s.ring, s.tracks[id], id, q, i, p, s.tracks[i].held[p]);
  }

  lemma ReleaseLabelsOwn(s: System, id: nat, q: int)
    requires Inv(s) && Enabled(s, Release(id, q)) && s.tracks[id].held[q] > 1
    ensures s.ring.slots[SlotOf(q, s.ring.size)].users[id] > 0
    ensures var r' := s.ring.Drop(id, SlotOf(q, s.ring.size));
      r'.Shaped() && Labelled(r', id, q, s.tracks[id].held[q] - 1)
  {
    HeldItem(s, id, q);
    DropOwn(s.ring, id, q, s.tracks[id].held[q]);
  }

  lemma ReleaseLabelled(s: System, id: nat, q: int, i: nat, p: int, s': System)
    requires Inv(s) && Enabled(s, Release(id, q)) && i < |s.tracks| == |s'.tracks| && p in s'.tracks[i].held
    requires s.ring.slots[SlotOf(q, s.ring.size)].users[id] > 0 && s' == Apply(s, Release(id, q))
    ensures s'.ring.Shaped() && i < |s'.ring.consumers| && Labelled(s'.ring, i, p, s'.tracks[i].held[p])
  {
    ReleaseTracks(s, id, q);
    if i == id && p == q {
      ReleaseLabelsOwn(s, id, q);
    } else {
      ReleaseLabelsOther(s, id, q, i, p, s'.ring);
    }
  }

  lemma ReleaseConsumers(s: System, id: nat, q: int, i: nat)
    requires Inv(s) && Enabled(s, Release(id, q)) && i < |s.tracks|
    requires s.ring.slots[SlotOf(q, s.ring.size)].users[id] > 0
    ensures var s' := Apply(s, Release(id, q));
      && |s'.ring.consumers| == |s'.tracks| == |s.tracks|
      && ConsumerOk(s'.ring.consumers[i], s'.tracks[i], s.ring.claimed, s.ring.size)
  {
    ReleaseTracks(s, id, q);
    assert ConsumerOk(s.ring.consumers[i], s.tracks[i], s.ring.claimed, s.ring.size);
    if i == id {
      ReleaseConsumer(s.ring.consumers[id], s.tracks[id], s.ring.claimed, s.ring.size, q);
      UseConsumer(s.ring.consumers[id], s.tracks[id], s.ring.claimed, s.ring.size, q);
    }
  }

  lemma ReleaseKeeps(s: System, id: nat, q: int)
    requires Inv(s) && Enabled(s, Release(id, q))
    ensures s.ring.slots[SlotOf(q, s.ring.size)].users[id] > 0 && Inv(Apply(s, Release(id, q)))
  {
    ReleaseTracks(s, id, q);
    var s' := Apply(s, Release(id, q));
    DropRing(s.ring, id, SlotOf(q, s.ring.size));
    forall i, p | 0 <= i < |s.tracks| && p in s'.tracks[i].held
      ensures Labelled(s'.ring, i, p, s'.tracks[i].held[p])
    {
      ReleaseLabelled(s, id, q, i, p, s');
    }
    forall i | 0 <= i < |s.tracks| ensures ConsumerOk(s'.ring.consumers[i], s'.tracks[i], s.ring.claimed, s.ring.size) {
      ReleaseConsumers(s, id, q, i);
    }
  }

  lemma DropRing(r: Ring, id: nat, k: nat)
    requires RingOk(r) && id < |r.consumers| && k < r.size && r.slots[k].users[id] > 0
    ensures RingOk(r.Drop(id, k))
  {
  }

  /** Below the new gate everything has been released. */
  lemma AllReleased(c: Consumer, pending: set<int>, q: int, x: int)
    requires Counts(c, pending) && q !in pending && q > c.last
    requires NoGaps(c.gate, pending + {q}) && c.gate < x <= Commit(c, q).gate
    ensures x == q || x in pending
  {
    CommitRefines(c, pending, q);
    assert Commit(c, q).gate in pending + {q};
  }

  /** What is neither held nor in flight was pending, and all of that is below the new gate. */
  lemma NothingPending(c: Consumer, t: Track, q: int, c': Consumer)
    requires c.last <= c'.last && c'.next == c.next && forall x :: x in Pending(c, t) + {q} ==> x <= c'.last
    ensures Pending(c', t.Settle(q)) == {}
  {
    forall x | c'.last < x < c.next ensures x in t.held || x in t.Settle(q).inFlight {
      assert x in Interval(c.last + 1, c.next);
      assert x !in Pending(c, t) + {q};
    }
  }

  lemma LockMoves(c: Consumer, t: Track, claimed: int, size: nat, q: int)
    requires ConsumerOk(c, t, claimed, size) && q in t.inFlight && NoGaps(c.gate, Pending(c, t) + {q})
    ensures var c', t' := Commit(c, q), t.Settle(q);
      && ConsumerOk(c', t', claimed, size) && c'.gate > c.gate
      && forall x :: c.gate < x <= c'.gate ==> x !in t'.held && x !in t'.inFlight
  {
    var c', t' := Commit(c, q), t.Settle(q);
    CommitRefines(c, Pending(c, t), q);
    forall x | c.gate < x <= c'.gate ensures x !in t'.held && x !in t'.inFlight {
      AllReleased(c, Pending(c, t), q, x);
    }
    NothingPending(c, t, q, c');
  }

  lemma PendingSettled(c: Consumer, t: Track, q: int, c': Consumer)
    requires q in t.inFlight && q !in t.held && c.last < q < c.next && c'.last == c.last && c'.next == c.next
    ensures Pending(c', t.Settle(q)) == Pending(c, t) + {q}
  {
  }

  lemma LockStays(c: Consumer, t: Track, claimed: int, size: nat, q: int)
    requires ConsumerOk(c, t, claimed, size) && q in t.inFlight && !NoGaps(c.gate, Pending(c, t) + {q})
    ensures ConsumerOk(Commit(c, q), t.Settle(q), claimed, size) && Commit(c, q).gate == c.gate
  {
    CommitRefines(c, Pending(c, t), q);
    PendingSettled(c, t, q, Commit(c, q));
  }

  /** A commit moves the gate only over sequences that have all been released. */
  lemma LockConsumer(c: Consumer, t: Track, claimed: int, size: nat, q: int)
    requires ConsumerOk(c, t, claimed, size) && q in t.inFlight
    ensures var c', t' := Commit(c, q), t.Settle(q);
      && ConsumerOk(c', t', claimed, size) && c'.gate >= c.gate
      && forall x :: c.gate < x <= c'.gate ==> x !in t'.held && x !in t'.inFlight
  {
    if NoGaps(c.gate, Pending(c, t) + {q}) {
      LockMoves(c, t, claimed, size, q);
    } else {
      LockStays(c, t, claimed, size, q);
    }
  }

  lemma LockRing(r: Ring, id: nat, q: int)
    requires RingOk(r) && id < |r.consumers| && Commit(r.consumers[id], q).gate >= r.consumers[id].gate
    ensures RingOk(r.Release(id, q))
  {
  }

  lemma LockConsumers(s: System, id: nat, q: int, i: nat)
    requires Inv(s) && Enabled(s, Lock(id, q)) && i < |s.tracks|
    ensures var s' := Apply(s, Lock(id, q));
      && |s'.tracks| == |s'.ring.consumers| && i < |s'.tracks|
      && ConsumerOk(s'.ring.consumers[i], s'.tracks[i], s.ring.claimed, s.ring.size)
  {
    assert ConsumerOk(s.ring.consumers[i], s.tracks[i], s.ring.claimed, s.ring.size);
    if i == id {
      LockConsumer(s.ring.consumers[id], s.tracks[id], s.ring.claimed, s.ring.size, q);
    }
  }

  lemma LockGate(s: System, id: nat, q: int)
    requires Inv(s) && Enabled(s, Lock(id, q))
    ensures Commit(s.ring.consumers[id], q).gate >= s.ring.consumers[id].gate
  {
    assert ConsumerOk(s.ring.consumers[id], s.tracks[id], s.ring.claimed, s.ring.size);
    LockConsumer(s.ring.consumers[id], s.tracks[id], s.ring.claimed, s.ring.size, q);
  }

  /** Taking the lock leaves the items alone. */
  lemma LockLabels(r: Ring, id: nat, q: int, i: nat, p: int, n: int)
    requires r.Shaped() && id < |r.consumers| && i < |r.consumers| && Labelled(r, i, p, n)
    ensures r.Release(id, q).Shaped() && Labelled(r.Release(id, q), i, p, n)
  {
  }

  lemma LockKeeps(s: System, id: nat, q: int)
    requires Inv(s) && Enabled(s, Lock(id, q))
    ensures Inv(Apply(s, Lock(id, q)))
  {
    var s' := Apply(s, Lock(id, q));
    LockGate(s, id, q);
    LockRing(s.ring, id, q);
    forall i | 0 <= i < |s.tracks| ensures ConsumerOk(s'.ring.consumers[i], s'.tracks[i], s.ring.claimed, s.ring.size) {
      LockConsumers(s, id, q, i);
    }
    forall i, p | 0 <= i < |s.tracks| && p in s'.tracks[i].held
      ensures Labelled(s'.ring, i, p, s'.tracks[i].held[p])
    {
      LockLabels(s.ring, id, q, i, p, s.tracks[i].held[p]);
    }
  }

  lemma WaitKeeps(s: System, n: nat)
    requires Inv(s) && Enabled(s, Wait(n))
    ensures Inv(Apply(s, Wait(n)))
  {
    var s' := Apply(s, Wait(n));
    forall i, p | 0 <= i < |s.tracks| && p in s'.tracks[i].held
      ensures Labelled(s'.ring, i, p, s'.tracks[i].held[p])
    {
      assert Labelled(s.ring, i, p, s.tracks[i].held[p]);
    }
  }

  // ------------------------------------------------------------------ All runs

  ghost predicate CanApply(s: System, e: Event)
  {
    && s.ring.Shaped() && |s.tracks| == |s.ring.consumers| && Enabled(s, e)
    && (e.Release? ==> s.ring.slots[SlotOf(e.q, s.ring.size)].users[e.id] > 0)
  }

  lemma StepKeeps(s: System, e: Event)
    requires Inv(s) && Enabled(s, e)
    ensures CanApply(s, e) && Inv(Apply(s, e))
  {
    match e
    case Wait(n) => WaitKeeps(s, n);
    case Claim(n, seen) => ClaimKeeps(s, n, seen);
    case Publish(lo, hi) => PublishKeeps(s, lo, hi);
    case ConsumerGet(id, avail, users) => HandKeeps(s, id, avail, users);
    case Alert(id) =>
    case Release(id, q) => ReleaseKeeps(s, id, q);
    case Lock(id, q) => LockKeeps(s, id, q);
  }

  /** A run: the steps are possible one after the other and lead from s to s'. */
  ghost predicate Run(s: System, es: seq<Event>, s': System)
    decreases |es|
  {
    if es == [] then s == s' else CanApply(s, es[0]) && Run(Apply(s, es[0]), es[1..], s')
  }

  function NewSystem(size: nat, consumerCount: nat): (s: System)
  {
    System(NewRing(size, consumerCount), 0, -1, seq(consumerCount, _ => Track(map[], {}, [])), {})
  }

  lemma NewSystemInv(size: nat, consumerCount: nat)
    requires size >= 1 && consumerCount >= 1
    ensures Inv(NewSystem(size, consumerCount))
  {
    var s := NewSystem(size, consumerCount);
    assert Pending(NewConsumer(), Track(map[], {}, [])) == {};
  }

  lemma {:induction false} RunKeeps(s: System, es: seq<Event>, s': System)
    requires Inv(s) && Run(s, es, s')
    ensures Inv(s')
    decreases |es|
  {
    if es != [] {
      StepKeeps(s, es[0]);
      RunKeeps(Apply(s, es[0]), es[1..], s');
    }
  }

  /** A state that some interleaving of steps leads to, with some ring and some number of consumers. */
  ghost predicate Reachable(s: System)
  {
    exists size: nat, consumerCount: nat, es ::
      size >= 1 && consumerCount >= 1 && Run(NewSystem(size, consumerCount), es, s)
  }

  /** The invariant holds in every state any interleaving can reach, for any ring and number of consumers. */
  lemma EveryReachableState(s: System)
    requires Reachable(s)
    ensures Inv(s)
  {
    var size: nat, consumerCount: nat, es :|
      size >= 1 && consumerCount >= 1 && Run(NewSystem(size, consumerCount), es, s);
    NewSystemInv(size, consumerCount);
    RunKeeps(NewSystem(size, consumerCount), es, s);
  }

  /**
   Slot safety: whenever the producer obtains a slot, no consumer holds the item in it or is on the way to
   give it back, and every consumer has read what was in it before.
   */
  lemma ClaimedSlotsAreFree(s: System, n: nat, seen: int, claim: int, i: nat)
    requires Reachable(s) && CanApply(s, Claim(n, seen)) && i < |s.tracks|
    requires s.ring.claimed < claim <= s.ring.claimed + n
    ensures forall q :: q in s.tracks[i].held || q in s.tracks[i].inFlight ==>
      SlotOf(q, s.ring.size) != SlotOf(claim, s.ring.size)
    ensures claim - s.ring.size < s.ring.consumers[i].next
  {
    EveryReachableState(s);
    ClaimBehindGates(s, n, seen, i);
    assert ConsumerOk(s.ring.consumers[i], s.tracks[i], s.ring.claimed, s.ring.size);
    forall q | q in s.tracks[i].held || q in s.tracks[i].inFlight
      ensures SlotOf(q, s.ring.size) != SlotOf(claim, s.ring.size)
    {
      SlotsDiffer(q, claim, s.ring.size);
    }
  }

  /** A held item carries the sequence it was handed out under, whatever the producer did since. */
  lemma ReleaseReadsItsSequence(s: System, id: nat, q: int)
    requires Reachable(s) && s.ring.Shaped() && id < |s.tracks| == |s.ring.consumers| && q in s.tracks[id].held
    ensures s.ring.slots[SlotOf(q, s.ring.size)].users[id] > 0
    ensures s.ring.SequenceOf(id, SlotOf(q, s.ring.size)) == q
  {
    EveryReachableState(s);
    HeldItem(s, id, q);
  }

  /**
   The gate is below everything still out, and stands still only for a reason: something below the largest
   released sequence is still out.
   */
  lemma GateNeverPasses(s: System, i: nat)
    requires Reachable(s) && i < |s.tracks| == |s.ring.consumers|
    ensures var c, t := s.ring.consumers[i], s.tracks[i];
      && (forall q :: q in t.held || q in t.inFlight ==> c.gate < q < c.next)
      && (c.max > c.gate ==> exists q :: c.gate < q < c.max && (q in t.held || q in t.inFlight))
  {
    EveryReachableState(s);
    var c, t := s.ring.consumers[i], s.tracks[i];
    assert ConsumerOk(c, t, s.ring.claimed, s.ring.size);
    if c.max > c.gate {
      var q := FirstGap(c, t, s.ring.claimed, s.ring.size);
    }
  }

  lemma FirstGap(c: Consumer, t: Track, claimed: int, size: nat) returns (q: int)
    requires Placed(c, t, claimed, size) && Accounted(c, Pending(c, t)) && c.max > c.gate
    ensures c.gate < q < c.max && (q in t.held || q in t.inFlight)
  {
    var x, y :| y in Pending(c, t) && c.gate < x < y && x !in Pending(c, t);
    q := x;
    assert x in Interval(c.last + 1, c.next);
  }

  /** No lost capacity: with everything given back, in whatever order, the gate is at the last item handed out. */
  lemma NoLostCapacity(s: System, i: nat)
    requires Reachable(s) && i < |s.tracks| == |s.ring.consumers| && s.tracks[i].held == map[]
    requires s.tracks[i].inFlight == {}
    ensures var c := s.ring.consumers[i]; c.gate == c.next - 1 && c.max == c.gate && c.between == 0
  {
    EveryReachableState(s);
    var c, t := s.ring.consumers[i], s.tracks[i];
    assert ConsumerOk(c, t, s.ring.claimed, s.ring.size);
    assert Pending(c, t) == Interval(c.last + 1, c.next);
    assert NoGaps(c.gate, Pending(c, t));
  }

  /** Each consumer is handed 0, 1, 2, ... and never more than has been claimed; an alert loses nothing. */
  lemma HandedInSequence(s: System, i: nat)
    requires Reachable(s) && i < |s.tracks| == |s.ring.consumers|
    ensures |s.tracks[i].handed| == s.ring.consumers[i].next <= s.ring.claimed + 1
    ensures forall k :: 0 <= k < |s.tracks[i].handed| ==> s.tracks[i].handed[k] == k
    ensures CanApply(s, Alert(i)) && Apply(s, Alert(i)) == s
  {
    EveryReachableState(s);
    assert ConsumerOk(s.ring.consumers[i], s.tracks[i], s.ring.claimed, s.ring.size);
  }

  lemma OneMore(s: System, e: Event, es: seq<Event>, s': System)
    requires CanApply(s, e) && Run(Apply(s, e), es, s')
    ensures Run(s, [e] + es, s')
  {
    assert ([e] + es)[1..] == es;
  }

  // ------------------------------------------------------------------ When a next(n) waits

  /**
   In every reachable state a next(n) has to wait, and so moves the cursor, exactly if it claims more than a ring
   beyond the minimum that ended the last wait: that minimum is what the fast path goes by until the next wait.
   */
  lemma WaitsExactly(s: System, n: nat)
    requires Reachable(s)
    ensures s.ring.MustWait(n) <==> s.ring.claimed + n > s.lastMin + s.ring.size
  {
    EveryReachableState(s);
  }

  function Total(ns: seq<nat>): (n: nat)
  {
    if ns == [] then 0 else ns[0] + Total(ns[1..])
  }

  /** The gets of a producer that never has to wait. */
  function FastClaims(ns: seq<nat>): (es: seq<Event>)
    ensures |es| == |ns|
  {
    if ns == [] then [] else [Claim(ns[0], -1)] + FastClaims(ns[1..])
  }

  /**
   After a claim that saw `lastMin`, any number of further claims that stay within a ring of it can follow one
   another: none has to wait, and the cursor stays where it is.
   */
  lemma {:induction false} ClaimsWithoutWait(s: System, ns: seq<nat>) returns (s': System)
    requires Inv(s) && s.waiting == 0 && (forall i :: 0 <= i < |ns| ==> ns[i] >= 1)
    requires s.ring.claimed + Total(ns) <= s.lastMin + s.ring.size
    ensures Run(s, FastClaims(ns), s') && s'.ring.cursor == s.ring.cursor && s'.lastMin == s.lastMin
    ensures s'.ring.claimed == s.ring.claimed + Total(ns)
    decreases |ns|
  {
    if ns == [] {
      s' := s;
    } else {
      var e := Claim(ns[0], -1);
      StepKeeps(s, e);
      var t := ClaimsWithoutWait(Apply(s, e), ns[1..]);
      OneMore(s, e, FastClaims(ns[1..]), t);
      s' := t;
    }
  }

  /** The claim that ends a wait sets what later ones go by. */
  lemma WaitRemembers(s: System, n: nat, seen: int)
    requires Inv(s) && CanApply(s, Claim(n, seen)) && s.waiting > 0
    ensures Apply(s, Claim(n, seen)).ring.cachedGate == seen && Apply(s, Claim(n, seen)).ring.cursor == s.ring.cursor
  {
  }

  // ------------------------------------------------------------------ Users

  /**
   In every reachable state the item of a held sequence knows how many of the users it was handed out with have not
   released it; the release by the last of them, and no other, sends the sequence on its way to the lock.
   */
  lemma LastUserReleases(s: System, id: nat, q: int)
    requires Reachable(s) && id < |s.tracks| == |s.ring.consumers| && q in s.tracks[id].held
    ensures CanApply(s, Release(id, q))
    ensures s.ring.slots[SlotOf(q, s.ring.size)].users[id] == s.tracks[id].held[q] >= 1
    ensures var t := Apply(s, Release(id, q)).tracks[id];
      if s.tracks[id].held[q] == 1 then q !in t.held && t.inFlight == s.tracks[id].inFlight + {q}
      else q in t.held && t.held[q] == s.tracks[id].held[q] - 1 && t.inFlight == s.tracks[id].inFlight
  {
    EveryReachableState(s);
    StepKeeps(s, Release(id, q));
    ReleaseTracks(s, id, q);
  }

  // ------------------------------------------------------------------ What the cursor bounds

  /** Consumers know of nothing beyond the cursor. */
  ghost predicate Behind(s: System)
  {
    forall i :: 0 <= i < |s.ring.consumers| ==> s.ring.consumers[i].available <= s.ring.cursor
  }

  /** A publish does not move the cursor back behind what a consumer knows of. */
  ghost predicate Forward(s: System, e: Event)
    requires s.ring.Shaped()
  {
    e.Publish? ==> forall i :: 0 <= i < |s.ring.consumers| ==>
      s.ring.consumers[i].available <= s.ring.slots[SlotOf(e.hi, s.ring.size)].producerSeq
  }

  /** What a get adds to a consumer's knowledge is not past the cursor, and a release adds nothing. */
  lemma BehindOne(s: System, e: Event, i: nat)
    requires CanApply(s, e) && Behind(s) && (e.ConsumerGet? || e.Lock?) && i < |s.tracks|
    ensures var r' := Apply(s, e).ring; |r'.consumers| == |s.tracks| && r'.consumers[i].available <= r'.cursor
  {
  }

  /** Steps that change no consumer. */
  lemma BehindElse(s: System, e: Event)
    requires CanApply(s, e) && Behind(s) && s.ring.cursor <= s.ring.claimed && !e.ConsumerGet? && !e.Lock?
    ensures Behind(Apply(s, e)) <==> Forward(s, e)
  {
    assert Apply(s, e).ring.consumers == s.ring.consumers;
  }

  /** Exactly which steps keep consumers behind the cursor. */
  lemma BehindStep(s: System, e: Event)
    requires Inv(s) && Behind(s) && CanApply(s, e)
    ensures Behind(Apply(s, e)) <==> Forward(s, e)
  {
    if e.ConsumerGet? || e.Lock? {
      forall i | 0 <= i < |s.tracks| ensures Apply(s, e).ring.consumers[i].available <= Apply(s, e).ring.cursor {
        BehindOne(s, e, i);
      }
    } else {
      BehindElse(s, e);
    }
  }

  ghost predicate AlwaysBehind(s: System, es: seq<Event>)
    decreases |es|
  {
    Behind(s) && (es != [] ==> CanApply(s, es[0]) && AlwaysBehind(Apply(s, es[0]), es[1..]))
  }

  ghost predicate AllForward(s: System, es: seq<Event>)
    decreases |es|
  {
    es != [] ==> CanApply(s, es[0]) && Forward(s, es[0]) && AllForward(Apply(s, es[0]), es[1..])
  }

  lemma {:induction false} BehindRun(s: System, es: seq<Event>, s': System)
    requires Inv(s) && Behind(s) && Run(s, es, s')
    ensures AlwaysBehind(s, es) <==> AllForward(s, es)
    decreases |es|
  {
    if es != [] {
      StepKeeps(s, es[0]);
      BehindStep(s, es[0]);
      if Forward(s, es[0]) {
        BehindRun(Apply(s, es[0]), es[1..], s');
      }
    }
  }

  /** In every run from the start, consumers stay behind the cursor exactly if no publish moves it back past them. */
  lemma BehindExactly(size: nat, consumerCount: nat, es: seq<Event>, s: System)
    requires size >= 1 && consumerCount >= 1 && Run(NewSystem(size, consumerCount), es, s)
    ensures AlwaysBehind(NewSystem(size, consumerCount), es) <==> AllForward(NewSystem(size, consumerCount), es)
  {
    NewSystemInv(size, consumerCount);
    BehindRun(NewSystem(size, consumerCount), es, s);
  }

  /** Consumer i can get an item now; always waiting, it could exactly if its next one is not past the cursor. */
  ghost predicate CanGet(s: System, i: nat)
  {
    exists avail :: CanApply(s, ConsumerGet(i, avail, 1))
  }

  /**
   What that means: as long as consumers are behind the cursor, a get is possible exactly if waitFor would let it
   through, so that the cached availability never decides, and nothing handed out is past the cursor.
   */
  lemma CacheAgrees(s: System, i: nat)
    requires Inv(s) && Behind(s) && i < |s.tracks|
    ensures CanGet(s, i) <==> s.ring.consumers[i].next <= s.ring.cursor
    ensures forall q :: q in s.tracks[i].handed ==> q <= s.ring.cursor
  {
    var c := s.ring.consumers[i];
    assert ConsumerOk(c, s.tracks[i], s.ring.claimed, s.ring.size);
    if c.next <= s.ring.cursor {
      assert CanApply(s, ConsumerGet(i, s.ring.cursor, 1));
    }
  }

  /** A consumer that knows of more than the cursor is handed an item q past it by as many gets as it takes. */
  lemma {:induction false} CacheRunsAhead(s: System, i: nat) returns (es: seq<Event>, s': System, q: int)
    requires Inv(s) && i < |s.tracks| && s.ring.consumers[i].available > s.ring.cursor
    ensures Run(s, es, s') && |s'.tracks| == |s.tracks| && s'.ring.cursor == s.ring.cursor
    ensures q in s'.tracks[i].handed && q > s'.ring.cursor
    decreases s.ring.cursor + 2 - s.ring.consumers[i].next
  {
    var c := s.ring.consumers[i];
    assert ConsumerOk(c, s.tracks[i], s.ring.claimed, s.ring.size);
    if c.next - 1 > s.ring.cursor {
      es, s', q := [], s, c.next - 1;
      assert s.tracks[i].handed[q] == q;
    } else {
      var e := ConsumerGet(i, c.available, 1);
      StepKeeps(s, e);
      var es', t, q' := CacheRunsAhead(Apply(s, e), i);
      OneMore(s, e, es', t);
      es, s', q := [e] + es', t, q';
    }
  }

  /** After any publish that is not forward, some continuation hands out an item past the cursor. */
  lemma BackwardStepHandsPast(s: System, e: Event) returns (es: seq<Event>, s': System, i: nat, q: int)
    requires Inv(s) && Behind(s) && CanApply(s, e) && !Forward(s, e)
    ensures Run(Apply(s, e), es, s') && i < |s'.tracks| && q in s'.tracks[i].handed && q > s'.ring.cursor
  {
    StepKeeps(s, e);
    i :| 0 <= i < |s.ring.consumers|
      && s.ring.consumers[i].available > s.ring.slots[SlotOf(e.hi, s.ring.size)].producerSeq;
    es, s', q := CacheRunsAhead(Apply(s, e), i);
  }

  // ------------------------------------------------------------------ What has been published

  /** No consumer can have or get an item that the producer has not published. */
  ghost predicate Private(s: System)
  {
    forall u :: u in s.unpublished ==>
      s.ring.cursor < u && forall i :: 0 <= i < |s.ring.consumers| ==> s.ring.consumers[i].available < u
  }

  /** What the producer must heed: no next(n) that has to wait before all is published, and publishing in order. */
  ghost predicate Guard(s: System, e: Event)
  {
    match e
    case Wait(n) => s.unpublished == {}
    case Publish(lo, hi) => forall u :: u in s.unpublished ==> lo <= u
    case _ => true
  }

  /** The slow path of next(n) first makes everything claimed visible: harmless exactly if all is published. */
  lemma WaitPrivate(s: System, n: nat)
    requires Inv(s) && Private(s) && CanApply(s, Wait(n))
    ensures Private(Apply(s, Wait(n))) <==> Guard(s, Wait(n))
  {
    if s.unpublished != {} {
      var u := Pick(s.unpublished);
      assert u <= Apply(s, Wait(n)).ring.cursor;
    }
  }

  /** What is unpublished, and unseen, still has its label in the ring. */
  lemma PublishedLabel(s: System, lo: int, hi: int)
    requires Inv(s) && Private(s) && CanApply(s, Publish(lo, hi))
    ensures Apply(s, Publish(lo, hi)).ring.cursor == hi > s.ring.cursor
  {
    assert hi in Interval(lo, hi + 1);
    assert hi in s.unpublished;
    var c := s.ring.consumers[0];
    assert ConsumerOk(c, s.tracks[0], s.ring.claimed, s.ring.size);
    assert c.available < hi;
  }

  lemma PublishPrivate(s: System, lo: int, hi: int)
    requires Inv(s) && Private(s) && CanApply(s, Publish(lo, hi))
    ensures Private(Apply(s, Publish(lo, hi))) <==> Guard(s, Publish(lo, hi))
  {
    var s' := Apply(s, Publish(lo, hi));
    PublishedLabel(s, lo, hi);
    if Guard(s, Publish(lo, hi)) {
      forall u | u in s'.unpublished ensures hi < u {
        assert u !in Interval(lo, hi + 1);
      }
    } else {
      var u :| u in s.unpublished && u < lo;
      assert u in s'.unpublished;
    }
  }

  lemma ClaimPrivate(s: System, n: nat, seen: int)
    requires Inv(s) && Private(s) && CanApply(s, Claim(n, seen))
    ensures Private(Apply(s, Claim(n, seen)))
  {
    forall i | 0 <= i < |s.ring.consumers| ensures s.ring.consumers[i].available <= s.ring.claimed {
      assert ConsumerOk(s.ring.consumers[i], s.tracks[i], s.ring.claimed, s.ring.size);
    }
  }

  /** Steps of consumers cannot break it: they see up to the cursor. */
  lemma ConsumersPrivate(s: System, e: Event)
    requires Private(s) && CanApply(s, e) && (e.ConsumerGet? || e.Alert? || e.Release? || e.Lock?)
    ensures Private(Apply(s, e))
  {
  }

  /** Exactly which steps keep unpublished items out of sight. */
  lemma PrivateStep(s: System, e: Event)
    requires Inv(s) && Private(s) && CanApply(s, e)
    ensures Private(Apply(s, e)) <==> Guard(s, e)
  {
    match e
    case Wait(n) => WaitPrivate(s, n);
    case Claim(n, seen) => ClaimPrivate(s, n, seen);
    case Publish(lo, hi) => PublishPrivate(s, lo, hi);
    case _ => ConsumersPrivate(s, e);
  }

  /** Every state of the run keeps unpublished items out of sight. */
  ghost predicate AlwaysPrivate(s: System, es: seq<Event>)
    decreases |es|
  {
    Private(s) && (es != [] ==> CanApply(s, es[0]) && AlwaysPrivate(Apply(s, es[0]), es[1..]))
  }

  /** Every step of the run meets the guard. */
  ghost predicate Guarded(s: System, es: seq<Event>)
    decreases |es|
  {
    es != [] ==> CanApply(s, es[0]) && Guard(s, es[0]) && Guarded(Apply(s, es[0]), es[1..])
  }

  lemma {:induction false} PrivateRun(s: System, es: seq<Event>, s': System)
    requires Inv(s) && Private(s) && Run(s, es, s')
    ensures AlwaysPrivate(s, es) <==> Guarded(s, es)
    decreases |es|
  {
    if es != [] {
      StepKeeps(s, es[0]);
      PrivateStep(s, es[0]);
      if Guard(s, es[0]) {
        PrivateRun(Apply(s, es[0]), es[1..], s');
      }
    }
  }

  /** In every run from the start, unpublished items stay out of sight exactly if every step meets the guard. */
  lemma PrivateExactly(size: nat, consumerCount: nat, es: seq<Event>, s: System)
    requires size >= 1 && consumerCount >= 1 && Run(NewSystem(size, consumerCount), es, s)
    ensures AlwaysPrivate(NewSystem(size, consumerCount), es) <==> Guarded(NewSystem(size, consumerCount), es)
  {
    NewSystemInv(size, consumerCount);
    PrivateRun(NewSystem(size, consumerCount), es, s);
  }

  /** While unpublished items are out of sight, the cursor never moves back. */
  lemma GuardIsForward(s: System, e: Event)
    requires Inv(s) && Private(s) && Behind(s) && CanApply(s, e)
    ensures Forward(s, e)
  {
    if e.Publish? {
      PublishedLabel(s, e.lo, e.hi);
    }
  }

  lemma {:induction false} GuardedKeeps(s: System, es: seq<Event>, s': System)
    requires Inv(s) && Private(s) && Behind(s) && Run(s, es, s') && Guarded(s, es)
    ensures Inv(s') && Private(s') && Behind(s')
    decreases |es|
  {
    if es != [] {
      StepKeeps(s, es[0]);
      PrivateStep(s, es[0]);
      GuardIsForward(s, es[0]);
      BehindStep(s, es[0]);
      GuardedKeeps(Apply(s, es[0]), es[1..], s');
    }
  }

  /** In a guarded run no consumer is ever handed an item past the cursor, or one that is not published. */
  lemma OnlyPublishedItems(size: nat, consumerCount: nat, es: seq<Event>, s: System)
    requires size >= 1 && consumerCount >= 1
    requires Run(NewSystem(size, consumerCount), es, s) && Guarded(NewSystem(size, consumerCount), es)
    ensures forall i, q :: 0 <= i < |s.tracks| && q in s.tracks[i].handed ==> q <= s.ring.cursor && q !in s.unpublished
  {
    NewSystemInv(size, consumerCount);
    GuardedKeeps(NewSystem(size, consumerCount), es, s);
    forall i, q | 0 <= i < |s.tracks| && q in s.tracks[i].handed ensures q <= s.ring.cursor && q !in s.unpublished {
      assert ConsumerOk(s.ring.consumers[i], s.tracks[i], s.ring.claimed, s.ring.size);
    }
  }

  /** An unpublished item in sight can be handed out: by so many gets as it takes to come to it. */
  lemma {:induction false} HandOut(s: System, i: nat, u: int) returns (es: seq<Event>, s': System)
    requires Inv(s) && i < |s.tracks| && u in s.unpublished
    requires u <= s.ring.cursor || u <= s.ring.consumers[i].available
    ensures Run(s, es, s') && |s'.tracks| == |s.tracks| && u in s'.tracks[i].handed && u in s'.unpublished
    decreases u - s.ring.consumers[i].next
  {
    assert ConsumerOk(s.ring.consumers[i], s.tracks[i], s.ring.claimed, s.ring.size);
    if u < s.ring.consumers[i].next {
      es, s' := [], s;
      assert s.tracks[i].handed[u] == u;
    } else {
      var e := ConsumerGet(i, s.ring.cursor, 1);
      StepKeeps(s, e);
      var es', t := HandOut(Apply(s, e), i, u);
      OneMore(s, e, es', t);
      es, s' := [e] + es', t;
    }
  }

  /**
   The guard is not too strict: after any step that does not meet it, some continuation hands an
   unpublished item to any consumer one likes.
   */
  lemma UnguardedStepHandsOut(s: System, e: Event, i: nat) returns (es: seq<Event>, s': System, u: int)
    requires Inv(s) && Private(s) && CanApply(s, e) && !Guard(s, e) && i < |s.tracks|
    ensures Run(Apply(s, e), es, s') && |s'.tracks| == |s.tracks| && u in s'.tracks[i].handed && u in s'.unpublished
  {
    var t := Apply(s, e);
    StepKeeps(s, e);
    if e.Wait? {
      u := Pick(s.unpublished);
    } else {
      u :| u in s.unpublished && u < e.lo;
      PublishedLabel(s, e.lo, e.hi);
    }
    assert u in t.unpublished && u <= t.ring.cursor;
    es, s' := HandOut(t, i, u);
  }

  /** A ring of one item, claimed and not published. */
  lemma ClaimedOnly() returns (s: System)
    ensures CanApply(NewSystem(1, 1), Claim(1, -1)) && s == Apply(NewSystem(1, 1), Claim(1, -1)) && Inv(s)
    ensures s.waiting == 0 && 0 in s.unpublished && s.tracks == [Track(map[], {}, [])]
    ensures s.ring.size == 1 && s.ring.claimed == 0 && s.ring.cachedGate == -1 && s.ring.consumers == [NewConsumer()]
  {
    NewSystemInv(1, 1);
    StepKeeps(NewSystem(1, 1), Claim(1, -1));
    s := Apply(NewSystem(1, 1), Claim(1, -1));
  }

  /** The same, exposed by a second get that has to wait, and handed out. */
  lemma ExposedAndHanded(s1: System) returns (s2: System, s: System)
    requires Inv(s1) && s1.waiting == 0 && 0 in s1.unpublished && s1.tracks == [Track(map[], {}, [])]
    requires s1.ring.size == 1 && s1.ring.claimed == 0 && s1.ring.cachedGate == -1
    requires s1.ring.consumers == [NewConsumer()]
    ensures CanApply(s1, Wait(1)) && s2 == Apply(s1, Wait(1))
    ensures CanApply(s2, ConsumerGet(0, 0, 1)) && s == Apply(s2, ConsumerGet(0, 0, 1))
    ensures |s.tracks| == 1 && s.tracks[0].handed == [0] && 0 in s.unpublished
  {
    StepKeeps(s1, Wait(1));
    s2 := Apply(s1, Wait(1));
    StepKeeps(s2, ConsumerGet(0, 0, 1));
    s := Apply(s2, ConsumerGet(0, 0, 1));
    assert s.tracks[0] == Track(map[], {}, []).Take(0, 1);
  }

  /** Without the guard one can be. */
  lemma UnpublishedItemHandedOut() returns (es: seq<Event>, s: System)
    ensures Run(NewSystem(1, 1), es, s)
    ensures |s.tracks| == 1 && s.tracks[0].handed == [0] && 0 in s.unpublished
  {
    var s1 := ClaimedOnly();
    var s2, s3 := ExposedAndHanded(s1);
    s := s3;
    var last := ConsumerGet(0, 0, 1);
    OneMore(s2, last, [], s);
    OneMore(s1, Wait(1), [last] + [], s);
    OneMore(NewSystem(1, 1), Claim(1, -1), [Wait(1)] + ([last] + []), s);
    es := [Claim(1, -1)] + ([Wait(1)] + ([last] + []));
  }

  /** A ring of two items, both claimed, with one consumer that has been handed the first `next` of them. */
  ghost predicate TwoClaimed(s: System, next: nat, available: int)
  {
    && Inv(s) && s.ring.size == 2 && s.ring.claimed == 1 && |s.ring.consumers| == 1
    && s.ring.consumers[0].next == next && s.ring.consumers[0].available == available
  }

  lemma BothClaimed() returns (s: System)
    ensures CanApply(NewSystem(2, 1), Claim(2, -1)) && s == Apply(NewSystem(2, 1), Claim(2, -1))
    ensures TwoClaimed(s, 0, -1) && 0 in s.unpublished && 1 in s.unpublished
  {
    NewSystemInv(2, 1);
    StepKeeps(NewSystem(2, 1), Claim(2, -1));
    s := Apply(NewSystem(2, 1), Claim(2, -1));
  }

  /** Publishing one of them puts the cursor there, forward or backward. */
  lemma PublishOne(s: System, q: int, next: nat, available: int) returns (s': System)
    requires TwoClaimed(s, next, available) && q in s.unpublished
    ensures CanApply(s, Publish(q, q)) && s' == Apply(s, Publish(q, q))
    ensures TwoClaimed(s', next, available) && s'.ring.cursor == q
    ensures forall u :: u in s.unpublished && u != q ==> u in s'.unpublished
  {
    assert Interval(q, q + 1) <= s.unpublished;
    StepKeeps(s, Publish(q, q));
    s' := Apply(s, Publish(q, q));
  }

  lemma GetFirst(s: System) returns (s': System)
    requires TwoClaimed(s, 0, -1) && s.ring.cursor == 1
    ensures CanApply(s, ConsumerGet(0, 1, 1)) && s' == Apply(s, ConsumerGet(0, 1, 1))
    ensures TwoClaimed(s', 1, 1) && s'.unpublished == s.unpublished
  {
    StepKeeps(s, ConsumerGet(0, 1, 1));
    s' := Apply(s, ConsumerGet(0, 1, 1));
  }

  /**
   Both items are published, the second one first, and a get in between: then the cache gives what waitFor would
   not, and item 1 is handed out with the cursor at 0.
   */
  lemma HandedPastTheCursor() returns (es: seq<Event>, s: System, more: seq<Event>, s': System, q: int)
    ensures Run(NewSystem(2, 1), es, s) && |s.tracks| == |s.ring.consumers| == 1
    ensures CanGet(s, 0) && s.ring.consumers[0].next > s.ring.cursor
    ensures Run(s, more, s') && |s'.tracks| == 1 && q in s'.tracks[0].handed && q > s'.ring.cursor
  {
    var s1 := BothClaimed();
    var s2 := PublishOne(s1, 1, 0, -1);
    var s3 := GetFirst(s2);
    s := PublishOne(s3, 0, 1, 1);
    var get, back := ConsumerGet(0, 1, 1), Publish(0, 0);
    OneMore(s3, back, [], s);
    OneMore(s2, get, [back] + [], s);
    OneMore(s1, Publish(1, 1), [get] + ([back] + []), s);
    OneMore(NewSystem(2, 1), Claim(2, -1), [Publish(1, 1)] + ([get] + ([back] + [])), s);
    es := [Claim(2, -1)] + ([Publish(1, 1)] + ([get] + ([back] + [])));
    assert CanApply(s, ConsumerGet(0, 1, 1));
    more, s', q := CacheRunsAhead(s, 0);
  }

  // ------------------------------------------------------------------ The lock-free path

  function Locked(c: Consumer, qs: seq<int>): (c': Consumer)
  {
    if qs == [] then c else Commit(Locked(c, qs[..|qs| - 1]), qs[|qs| - 1])
  }

  function Unlocked(c: Consumer, qs: seq<int>): (c': Consumer)
  {
    if qs == [] then c else CommitOrdered(Unlocked(c, qs[..|qs| - 1]), qs[|qs| - 1])
  }

  /** The gate may lag behind what is free: it moves over all that is pending or not at all. */
  lemma GateLags()
    ensures Locked(NewConsumer(), [0, 2]).gate == 0 && Locked(NewConsumer(), [2, 0]).gate == -1
  {
    assert [0, 2][..1] == [0] && [2, 0][..1] == [2] && [0][..0] == [] && [2][..0] == [];
    assert Locked(NewConsumer(), [0]) == Commit(Locked(NewConsumer(), []), 0);
    assert Locked(NewConsumer(), [2]) == Commit(Locked(NewConsumer(), []), 2);
  }

  lemma {:induction false} InOrderGates(qs: seq<int>, k: nat)
    requires k <= |qs| && forall i :: 0 <= i < k ==> qs[i] == i
    ensures Locked(NewConsumer(), qs[..k]) == NewConsumer().(last := k - 1, max := k - 1, gate := k - 1)
    ensures Unlocked(NewConsumer(), qs[..k]).gate == k - 1
    decreases k
  {
    if k > 0 {
      InOrderGates(qs, k - 1);
      assert qs[..k][..k - 1] == qs[..k - 1];
    }
  }

  ghost predicate SameGates(qs: seq<int>, k: nat)
    requires k <= |qs|
  {
    Locked(NewConsumer(), qs[..k]).gate == Unlocked(NewConsumer(), qs[..k]).gate
  }

  /** The lock-free path moves the gating sequence like the locked one exactly if items are released in order. */
  lemma OrderedReleaseAgrees(qs: seq<int>)
    requires forall i :: 0 <= i < |qs| ==> qs[i] >= 0
    requires forall i, j :: 0 <= i < j < |qs| ==> qs[i] != qs[j]
    ensures (forall k :: 0 <= k <= |qs| ==> SameGates(qs, k)) <==> forall i :: 0 <= i < |qs| ==> qs[i] == i
  {
    if forall i :: 0 <= i < |qs| ==> qs[i] == i {
      forall k | 0 <= k <= |qs| ensures SameGates(qs, k) {
        InOrderGates(qs, k);
      }
    } else {
      var k := FirstOutOfOrder(qs, 0);
      InOrderGates(qs, k);
      assert qs[..k + 1][..k] == qs[..k];
      assert forall i :: 0 <= i < k ==> qs[i] == i;
      assert !SameGates(qs, k + 1);
    }
  }

  lemma DistinctAt(qs: seq<int>, i: nat, j: nat)
    requires forall i, j :: 0 <= i < j < |qs| ==> qs[i] != qs[j]
    requires i < j < |qs|
    ensures qs[i] != qs[j]
  {
  }

  lemma {:induction false} FirstOutOfOrder(qs: seq<int>, from: nat) returns (k: nat)
    requires forall i :: 0 <= i < |qs| ==> qs[i] >= 0
    requires forall i, j :: 0 <= i < j < |qs| ==> qs[i] != qs[j]
    requires from <= |qs| && (forall i :: 0 <= i < from ==> qs[i] == i) && exists i :: from <= i < |qs| && qs[i] != i
    ensures from <= k < |qs| && qs[k] > k && forall i :: 0 <= i < k ==> qs[i] == i
    decreases |qs| - from
  {
    if qs[from] != from {
      k := from;
      if qs[from] < from {
        DistinctAt(qs, qs[from], from);
        assert false;
      }
    } else {
      k := FirstOutOfOrder(qs, from + 1);
    }
  }
}
