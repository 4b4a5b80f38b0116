/**
 A supply of items on a Disruptor ring: one producer, N consumers, release in any order. The counters
 maxSequence, lastSequenceReleased and between stand in for a set of released sequences.
 */
module Supplier {
  import opened Counting

  // ------------------------------------------------------------------ One consumer's counters

  /** What SupplierN keeps for a consumer; `gate` is its gating sequence, which holds the producer back. */
  datatype Consumer = Consumer(next: int, available: int, last: int, max: int, between: nat, gate: int)

  function NewConsumer(): (c: Consumer)
  {
    Consumer(0, -1, -1, -1, 0, -1)
  }

  /** The block of release that runs under the mutex. */
  function Commit(c: Consumer, released: int): (c': Consumer)
  {
    var counts := (released > c.max && c.max > c.last) || (released <= c.max && released > c.last);
    var between := if counts then c.between + 1 else c.between;
    var max := if released > c.max then released else c.max;
    if max - c.last - 1 == between then c.(max := max, last := max, between := 0, gate := max)
    else c.(max := max, between := between)
  }

  /** The path for users who promise to release in order: no lock and no counters. */
  function CommitOrdered(c: Consumer, released: int): (c': Consumer)
  {
    c.(gate := released)
  }

  /** consumerGet's part: wait only if nothing known to be available is left, then take the next. */
  function Advance(c: Consumer, avail: int): (c': Consumer)
  {
    c.(available := if c.available < c.next then avail else c.available, next := c.next + 1)
  }

  /** The counters describe the set `pending` of sequences released but not yet passed by the gate. */
  ghost predicate Counts(c: Consumer, pending: set<int>)
  {
    && c.gate == c.last
    && (forall x :: x in pending ==> c.last < x <= c.max)
    && (if pending == {} then c.max == c.last && c.between == 0
        else c.max in pending && c.between == |pending| - 1)
  }

  /** Everything between the gate and a released sequence has been released too. */
  ghost predicate NoGaps(gate: int, all: set<int>)
  {
    forall x, y :: y in all && gate < x < y ==> x in all
  }

  /** Counting is enough to see whether there is a gap. */
  lemma GapsByCounting(gate: int, top: int, all: set<int>)
    requires top in all && forall x :: x in all ==> gate < x <= top
    ensures |all| == top - gate <==> NoGaps(gate, all)
  {
    var full := Interval(gate + 1, top + 1);
    SubsetSize(all, full);
    if NoGaps(gate, all) {
      assert all == full;
    }
  }

  /**
   Counter refinement: the three counters do exactly what the set of released sequences would. The gate
   moves if and only if there is no gap left below the largest, then to the largest, and nothing stays pending.
   */
  lemma CommitRefines(c: Consumer, pending: set<int>, q: int)
    requires Counts(c, pending) && q > c.last && q !in pending
    ensures var c', all := Commit(c, q), pending + {q};
      if NoGaps(c.gate, all) then c'.gate in all && (forall x :: x in all ==> x <= c'.gate) && Counts(c', {})
      else c'.gate == c.gate && Counts(c', all)
  {
    var all := pending + {q};
    var top := if q > c.max then q else c.max;
    assert |all| == |pending| + 1;
    GapsByCounting(c.gate, top, all);
  }

  // ------------------------------------------------------------------ The ring

  /** A supply item: the sequence it was claimed under, and for each consumer the sequence it was
      handed out under and the number of users who have not released it yet. */
  datatype Item = Item(producerSeq: int, consumerSeqs: seq<int>, users: seq<nat>, fromConsumer: bool)

  /** The sequencer's fields, one record per consumer, and the items. `claimed` is nextValue. */
  datatype Ring = Ring(
    size: nat, claimed: int, cachedGate: int, cursor: int, consumers: seq<Consumer>, slots: seq<Item>)
  {
    /** The arrays have the sizes the constructor gave them. */
    ghost predicate Shaped()
    {
      && size >= 1 && |slots| == size && |consumers| >= 1
      && forall k :: 0 <= k < size ==> |slots[k].consumerSeqs| == |consumers| == |slots[k].users|
    }

    /** next(n) leaves its fast path and looks at the gating sequences. */
    predicate MustWait(n: nat)
    {
      claimed + n - size > cachedGate || cachedGate > claimed
    }

    /** First thing on the slow path: the cursor is set to everything claimed so far. */
    function Expose(): (r: Ring)
    {
      this.(cursor := claimed)
    }

    /** get(n), once next(n) has its n sequences. `seen` is the minimum gating sequence that ended a wait. */
    function Claim(n: nat, seen: int): (r: Ring)
      requires Shaped()
    {
      this.(claimed := claimed + n, cachedGate := if MustWait(n) then seen else cachedGate,
            slots := Prepared(slots, claimed + 1, n))
    }

    function Publish(slot: nat): (r: Ring)
      requires slot < |slots|
    {
      this.(cursor := slots[slot].producerSeq)
    }

    /** consumerGet: `avail` is what waitFor returns if it is called at all. */
    function Hand(id: nat, avail: int, users: nat): (r: Ring)
      requires Shaped() && id < |consumers|
    {
      var c := consumers[id];
      var k := SlotOf(c.next, size);
      this.(consumers := consumers[id := Advance(c, avail)],
            slots := slots[k := slots[k].(consumerSeqs := slots[k].consumerSeqs[id := c.next],
                                          users := slots[k].users[id := users], fromConsumer := true)])
    }

    /** The sequence that release reads from an item. */
    function SequenceOf(id: nat, slot: nat): (q: int)
      requires Shaped() && id < |consumers| && slot < size
    {
      if slots[slot].fromConsumer then slots[slot].consumerSeqs[id] else slots[slot].producerSeq
    }

    /** decrementCounter. */
    function Drop(id: nat, slot: nat): (r: Ring)
      requires Shaped() && id < |consumers| && slot < size && slots[slot].users[id] > 0
    {
      this.(slots := slots[slot := slots[slot].(users := slots[slot].users[id := slots[slot].users[id] - 1])])
    }

    function Release(id: nat, released: int): (r: Ring)
      requires id < |consumers|
    {
      this.(consumers := consumers[id := Commit(consumers[id], released)])
    }
  }

  /** The slot of a sequence: its remainder, which for a power of two is its low bits. */
  function SlotOf(q: int, size: nat): (k: nat)
    requires size >= 1
    ensures k < size
    decreases q
  {
    if q < 0 then 0 else if q < size then q else SlotOf(q - size, size)
  }

  lemma {:induction false} SlotIsRemainder(q: nat, size: nat) returns (turns: nat)
    requires size >= 1
    ensures q == turns * size + SlotOf(q, size)
    decreases q
  {
    if q < size {
      turns := 0;
    } else {
      var t := SlotIsRemainder(q - size, size);
      turns := t + 1;
      assert turns * size == t * size + size;
    }
  }

  /** The items of n sequences from `lo` on, reset and labelled for the producer. */
  function Prepared(slots: seq<Item>, lo: int, n: nat): (slots': seq<Item>)
    requires slots != []
    ensures |slots'| == |slots|
    decreases n
  {
    if n == 0 then slots
    else
      var s := Prepared(slots, lo, n - 1);
      var k := SlotOf(lo + n - 1, |slots|);
      s[k := s[k].(producerSeq := lo + n - 1, fromConsumer := false)]
  }

  function NewRing(size: nat, consumerCount: nat): (r: Ring)
  {
    Ring(size, -1, -1, -1, seq(consumerCount, _ => NewConsumer()),
         seq(size, _ => Item(0, seq(consumerCount, _ => 0), seq(consumerCount, _ => 0), false)))
  }

  predicate IsPowerOf2(n: nat)
  {
    n == 1 || (n > 1 && n % 2 == 0 && IsPowerOf2(n / 2))
  }

  function Power2(e: nat): (n: nat)
  {
    if e == 0 then 1 else 2 * Power2(e - 1)
  }

  lemma {:induction false} PowerIsPower(e: nat)
    ensures Power2(e) >= 1 && IsPowerOf2(Power2(e))
  {
    if e > 0 {
      PowerIsPower(e - 1);
      assert Power2(e) / 2 == Power2(e - 1);
    }
  }

  lemma {:induction false} PowerOf(n: nat) returns (e: nat)
    requires IsPowerOf2(n)
    ensures n == Power2(e)
  {
    if n == 1 {
      e := 0;
    } else {
      var d := PowerOf(n / 2);
      e := d + 1;
    }
  }

  /** The sizes that the constructor lets pass are the powers of two. */
  lemma PowersOf2(n: nat)
    ensures IsPowerOf2(n) <==> exists e: nat :: n == Power2(e)
  {
    if IsPowerOf2(n) {
      var e := PowerOf(n);
    }
    if e: nat :| n == Power2(e) {
      PowerIsPower(e);
    }
  }

  // ------------------------------------------------------------------ The class

  datatype Outcome = Got(slot: nat, sequence: int) | Alerted | TooManyConsumers

  class SupplierN {
    const ringSize: nat
    var nextValue: int
    var cachedValue: int
    var cursor: int
    var consumers: array<Consumer>
    var slots: array<Item>

    ghost function Abs(): (r: Ring)
      reads this, consumers, slots
    {
      Ring(ringSize, nextValue, cachedValue, cursor, consumers[..], slots[..])
    }

    ghost predicate Valid()
      reads this, consumers, slots
    {
      Abs().Shaped()
    }

    constructor (size: nat, consumerCount: nat)
      requires size >= 1 && IsPowerOf2(size) && 1 <= consumerCount <= 8
      ensures Valid() && fresh(consumers) && fresh(slots) && Abs() == NewRing(size, consumerCount)
    {
      ringSize := size;
      nextValue, cachedValue, cursor := -1, -1, -1;
      consumers := new Consumer[consumerCount](_ => NewConsumer());
      slots := new Item[size](_ => Item(0, seq(consumerCount, _ => 0), seq(consumerCount, _ => 0), false));
      new;
      assert consumers[..] == NewRing(size, consumerCount).consumers;
      assert slots[..] == NewRing(size, consumerCount).slots;
    }

    /** The constructor's checks: null stands for the exception. */
    static method Make(size: nat, consumerCount: nat) returns (s: SupplierN?)
      ensures s == null <==> consumerCount > 8 || size < 1 || consumerCount < 1 || !IsPowerOf2(size)
      ensures s != null ==> s.Valid() && fresh(s) && s.Abs() == NewRing(size, consumerCount)
    {
      if consumerCount > 8 || size < 1 || consumerCount < 1 || !IsPowerOf2(size) {
        return null;
      }
      s := new SupplierN(size, consumerCount);
    }

    /** The slow path of next(n) up to the point where it spins. */
    method BeginWait(n: nat)
      requires Valid()
      modifies this
      ensures consumers == old(consumers) && slots == old(slots) && Valid()
      ensures Abs() == if old(Abs()).MustWait(n) then old(Abs()).Expose() else old(Abs())
    {
      if nextValue + n - ringSize > cachedValue || cachedValue > nextValue {
        cursor := nextValue;
      }
    }

    /** get(n) from the end of the wait on. */
    method Get(n: nat, seen: int)
      requires Valid()
      modifies this, slots
      ensures consumers == old(consumers) && slots == old(slots) && Valid()
      ensures Abs() == old(Abs()).Claim(n, seen)
    {
      ghost var was, items := Abs(), slots[..];
      var lo := nextValue + 1;
      if nextValue + n - ringSize > cachedValue || cachedValue > nextValue {
        cachedValue := seen;
      }
      nextValue := nextValue + n;
      var i := 0;
      while i < n
        invariant i <= n
        invariant slots[..] == Prepared(items, lo, i)
        modifies slots
      {
        var k := SlotOf(lo + i, ringSize);
        slots[k] := slots[k].(producerSeq := lo + i, fromConsumer := false);
        i := i + 1;
      }
      PreparedShape(items, lo, n, was);
    }

    method PublishItem(slot: nat)
      requires Valid() && slot < ringSize
      modifies this
      ensures consumers == old(consumers) && slots == old(slots) && Valid()
      ensures Abs() == old(Abs()).Publish(slot)
    {
      cursor := slots[slot].producerSeq;
    }

    /** `avail` is the result of waitFor, or None if the barrier was alerted; it is used only if a wait is needed. */
    method ConsumerGet(id: nat, avail: int, alerted: bool, users: nat) returns (r: Outcome)
      requires Valid()
      modifies consumers, slots
      ensures Valid()
      ensures r.TooManyConsumers? <==> id >= consumers.Length
      ensures r.Alerted? <==> id < consumers.Length && alerted && old(consumers[id].available < consumers[id].next)
      ensures r.Got? ==> r.sequence == old(consumers[id].next) && r.slot == SlotOf(r.sequence, ringSize)
      ensures Abs() == if r.Got? then old(Abs()).Hand(id, avail, users) else old(Abs())
    {
      if id >= consumers.Length {
        return TooManyConsumers;
      }
      var c := consumers[id];
      if c.available < c.next {
        if alerted {
          return Alerted;
        }
        c := c.(available := avail);
      }
      var k := SlotOf(c.next, ringSize);
      r := Got(k, c.next);
      slots[k] := slots[k].(consumerSeqs := slots[k].consumerSeqs[id := c.next],
                            users := slots[k].users[id := users], fromConsumer := true);
      consumers[id] := c.(next := c.next + 1);
    }

    /** release up to the lock: read the sequence, give up one use; `last` says whether it was the last one. */
    method BeginRelease(id: nat, slot: nat) returns (allowed: bool, released: int, last: bool)
      requires Valid() && slot < ringSize && (id < consumers.Length ==> slots[slot].users[id] > 0)
      modifies slots
      ensures Valid() && (allowed <==> id < consumers.Length)
      ensures if !allowed then Abs() == old(Abs())
              else
                && released == old(Abs()).SequenceOf(id, slot)
                && last == (slots[slot].users[id] == 0)
                && Abs() == old(Abs()).Drop(id, slot)
    {
      if id > consumers.Length - 1 {
        return false, 0, false;
      }
      released := if slots[slot].fromConsumer then slots[slot].consumerSeqs[id] else slots[slot].producerSeq;
      slots[slot] := slots[slot].(users := slots[slot].users[id := slots[slot].users[id] - 1]);
      allowed, last := true, slots[slot].users[id] == 0;
    }

    /** The part of release under the mutex. */
    method CommitRelease(id: nat, released: int)
      requires Valid() && id < consumers.Length
      modifies consumers
      ensures Valid() && Abs() == old(Abs()).Release(id, released)
    {
      var c := consumers[id];
      if released > c.max {
        if c.max > c.last {
          c := c.(between := c.between + 1);
        }
        c := c.(max := released);
      } else if released > c.last {
        c := c.(between := c.between + 1);
      }
      if c.max - c.last - 1 == c.between {
        c := c.(gate := c.max);
        c := c.(last := c.max);
        c := c.(between := 0);
      }
      consumers[id] := c;
    }
  }

  lemma {:induction false} PreparedShape(slots: seq<Item>, lo: int, n: nat, r: Ring)
    requires r.Shaped() && r.slots == slots
    ensures forall k :: 0 <= k < |slots| ==>
      && Prepared(slots, lo, n)[k].consumerSeqs == slots[k].consumerSeqs
      && Prepared(slots, lo, n)[k].users == slots[k].users
    decreases n
  {
    if n > 0 {
      PreparedShape(slots, lo, n - 1, r);
    }
  }
}
