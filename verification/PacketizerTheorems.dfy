/** What the senders guarantee: tiling, agreement of the two forms, and termination of the retries. */
module PacketizerTheorems {
  import opened Bytes
  import opened Headers
  import opened Packetizer

  // ---------------------------------------------------- The fast sender and the copying sender

  /** What can be seen of a call from outside. */
  ghost predicate SameToTheWorld(s: SendState, t: SendState)
  {
    s.Status() == t.Status() && s.attempts == t.attempts && s.accepted == t.accepted && s.off == t.off && s.p == t.p
  }

  /** The one input on which a retry separates them: an empty buffer that the link finds too big. */
  predicate EmptyRetry(data: seq<byte>, first: bool, link: seq<LinkOutcome>)
  {
    data == [] && first && link != [] && link[0] == TooBig
  }

  ghost predicate Paired(s: SendState, t: SendState)
  {
    s == t.(mustSend := s.mustSend) && (s.data != [] || s.mustSend == t.mustSend)
  }

  lemma PairedStep(s: SendState, t: SendState, outcome: LinkOutcome)
    requires Paired(s, t)
    requires s.data == [] && s.veryFirst && s.Status() == Pending ==> outcome != TooBig
    ensures Paired(s.Step(false, outcome), t.Step(true, outcome))
    ensures s.Step(false, outcome).veryFirst ==> s.veryFirst && s.Step(false, outcome).data == s.data
  {
  }

  lemma {:induction false} PairedRuns(s0: SendState, link: seq<LinkOutcome>)
    requires s0.data != [] || !s0.veryFirst || (link != [] ==> link[0] != TooBig)
    ensures var s := Transmit(s0, false, link);
      Paired(s, Transmit(s0, true, link)) && (s.veryFirst ==> s.data == s0.data && s0.veryFirst)
    decreases |link|
  {
    if link != [] {
      var n := |link| - 1;
      PairedRuns(s0, link[..n]);
      if s0.data == [] && s0.veryFirst && n > 0 {
        FirstAnswer(s0, false, link[..n]);
      }
      PairedStep(Transmit(s0, false, link[..n]), Transmit(s0, true, link[..n]), link[n]);
    }
  }

  /** An empty first packet that is not too big is either out or has failed. */
  lemma {:induction false} FirstAnswer(s0: SendState, retryEmpty: bool, link: seq<LinkOutcome>)
    requires s0.data == [] && s0.veryFirst && link != [] && link[0] != TooBig
    ensures Transmit(s0, retryEmpty, link).Status() != Pending
    decreases |link|
  {
    if |link| == 1 {
      assert link[..0] == [];
    } else {
      FirstAnswer(s0, retryEmpty, link[..|link| - 1]);
    }
  }

  lemma {:induction false} EmptyRetryDiffers(off: u32, p: nat, link: seq<LinkOutcome>)
    requires link != [] && link[0] == TooBig
    ensures var s, t := Transmit(Start([], off, p, true), false, link), Transmit(Start([], off, p, true), true, link);
      && s.Status() == Ok && |s.attempts| == 1 && s.accepted == [] && s.off == off
      && (if |link| == 1 then t.Status() == Pending else |t.attempts| >= 2)
    decreases |link|
  {
    if |link| == 1 {
      assert link[..0] == [];
    } else {
      EmptyRetryDiffers(off, p, link[..|link| - 1]);
    }
  }

  /** The two state machines go the same way, except on one kind of input. */
  lemma FoldsAgree(data: seq<byte>, off: u32, p: nat, first: bool, link: seq<LinkOutcome>)
    ensures SameToTheWorld(Transmit(Start(data, off, p, first), false, link),
                           Transmit(Start(data, off, p, first), true, link))
        <==> !EmptyRetry(data, first, link)
  {
    if EmptyRetry(data, first, link) {
      EmptyRetryDiffers(off, p, link);
    } else {
      PairedRuns(Start(data, off, p, first), link);
    }
  }

  /** A first packet that fits the storage of the fast sender, but not that of the copying one. */
  predicate FitsFastOnly(dataLen: nat, p: nat)
  {
    STORAGE - HEADER_BYTES < Min(dataLen, p) <= STORAGE
  }

  /**
   Agreement of the two senders: for every buffer, start offset, payload size and link behaviour the fast form
   attempts, sends and reports exactly what the copying form does if and only if the buffer is not an empty one
   whose first packet is found too big, and the first packet is not one that overruns the copying sender only.
   */
  lemma SendersAgree(f: Framing, data: seq<byte>, off: u32, p: nat, first: bool, link: seq<LinkOutcome>)
    requires !f.direct
    ensures Reported(f, data, off, p, first, false, link) == Reported(f, data, off, p, first, true, link)
        <==> !EmptyRetry(data, first, link) && !FitsFastOnly(|data|, p)
  {
    FoldsAgree(data, off, p, first, link);
    if EmptyRetry(data, first, link) {
      EmptyRetryDiffers(off, p, link);
    }
  }

  /** And then the datagrams are the same, byte for byte. */
  lemma SendersSameWire(f: Framing, data: seq<byte>, off: u32, p: nat, first: bool, link: seq<LinkOutcome>,
                        copied: seq<seq<byte>>, fast: seq<seq<byte>>)
    requires !f.direct && !EmptyRetry(data, first, link) && !FitsFastOnly(|data|, p)
    requires OnWire(f, Reported(f, data, off, p, first, false, link).attempts, copied)
    requires OnWire(f, Reported(f, data, off, p, first, true, link).attempts, fast)
    ensures copied == fast
  {
    SendersAgree(f, data, off, p, first, link);
  }

  /** A payload of 65536 bytes: the copying sender overruns its buffer, the fast one sends it. */
  lemma BigPacketDiffers(f: Framing, data: seq<byte>, off: u32)
    requires !f.direct && |data| == 65536
    ensures Reported(f, data, off, 65536, false, false, [Sent]).status == Overrun
    ensures Reported(f, data, off, 65536, false, true, [Sent]).status == Ok
  {
    assert [Sent][..0] == [];
    assert Transmit(Start(data, off, 65536, false), true, [Sent]) == Start(data, off, 65536, false).AfterSent();
  }

  // ---------------------------------------------------- What the link took

  /** Attempt i is the one that the link answers with link[i]. */
  ghost predicate Logged(attempts: seq<Attempt>, link: seq<LinkOutcome>)
  {
    |attempts| <= |link| && forall i :: 0 <= i < |attempts| ==> attempts[i].outcome == link[i]
  }

  /** Among the first n answers is one that a packet was sent. */
  predicate SomeSent(link: seq<LinkOutcome>, n: nat)
    requires n <= |link|
  {
    exists i :: 0 <= i < n && link[i] == Sent
  }

  /** Answer n is one that ends a call with -1: an error, or EMSGSIZE when it is too late to start again. */
  predicate Refused(first: bool, link: seq<LinkOutcome>, n: nat)
    requires n < |link|
  {
    link[n] == LinkOutcome.Failed || (link[n] == TooBig && (!first || SomeSent(link, n)))
  }

  /** A state as the answers demand it: what was answered, whether it may start again, and whether it has failed. */
  ghost predicate Heeds(first: bool, link: seq<LinkOutcome>, s: SendState)
  {
    && Logged(s.attempts, link) && (s.Status() == Pending ==> |s.attempts| == |link|)
    && (s.veryFirst <==> first && !SomeSent(link, |s.attempts|))
    && (s.failed <==> s.attempts != [] && Refused(first, link, |s.attempts| - 1))
  }

  lemma SomeSentNext(link: seq<LinkOutcome>, n: nat)
    requires n < |link|
    ensures SomeSent(link, n + 1) <==> SomeSent(link, n) || link[n] == Sent
  {
    if SomeSent(link, n) {
      var i :| 0 <= i < n && link[i] == Sent;
    }
  }

  /** Answers beyond those used make no difference. */
  lemma HeedsMore(first: bool, link: seq<LinkOutcome>, n: nat, s: SendState)
    requires n <= |link| && Heeds(first, link[..n], s) && (s.Status() == Pending ==> |s.attempts| == |link|)
    ensures Heeds(first, link, s)
  {
    forall k | 0 <= k <= n ensures SomeSent(link, k) <==> SomeSent(link[..n], k) {
      if SomeSent(link, k) {
        var i :| 0 <= i < k && link[i] == Sent;
        assert link[..n][i] == Sent;
      }
    }
  }

  lemma HeedsStep(first: bool, retryEmpty: bool, link: seq<LinkOutcome>, s: SendState)
    requires link != [] && Heeds(first, link[..|link| - 1], s) && s.Status() == Pending
    ensures Heeds(first, link, s.Step(retryEmpty, link[|link| - 1]))
  {
    var n := |link| - 1;
    SomeSentNext(link, n);
    assert SomeSent(link, n) <==> SomeSent(link[..n], n) by {
      if SomeSent(link, n) {
        var i :| 0 <= i < n && link[i] == Sent;
        assert link[..n][i] == Sent;
      }
    }
  }

  lemma {:induction false} HeedsAlways(
    data: seq<byte>, off: u32, p: nat, first: bool, retryEmpty: bool, link: seq<LinkOutcome>
  )
    ensures Heeds(first, link, Transmit(Start(data, off, p, first), retryEmpty, link))
    decreases |link|
  {
    if link != [] {
      var n := |link| - 1;
      var s := Transmit(Start(data, off, p, first), retryEmpty, link[..n]);
      HeedsAlways(data, off, p, first, retryEmpty, link[..n]);
      if s.Status() == Pending {
        HeedsStep(first, retryEmpty, link, s);
      } else {
        HeedsMore(first, link, n, s);
      }
    }
  }

  /** Every attempt is answered by the link in turn, and a call that is not over has used up all answers. */
  lemma AttemptsAreAnswered(data: seq<byte>, off: u32, p: nat, first: bool, fast: bool, link: seq<LinkOutcome>)
    ensures var s := Transmit(Start(data, off, p, first), fast, link);
      && |s.attempts| <= |link| && (forall i :: 0 <= i < |s.attempts| ==> s.attempts[i].outcome == link[i])
      && (s.Status() == Pending ==> |s.attempts| == |link|)
  {
    HeedsAlways(data, off, p, first, fast, link);
  }

  /**
   Exactly which calls return -1: those whose last answer is an error other than EMSGSIZE, or is EMSGSIZE when the
   buffer is not the first of its series or an earlier packet was sent.
   */
  lemma FailsExactly(data: seq<byte>, off: u32, p: nat, first: bool, fast: bool, link: seq<LinkOutcome>)
    ensures var s := Transmit(Start(data, off, p, first), fast, link);
      var n := |s.attempts|;
      n <= |link| && (s.Status() == Error <==> n > 0 && Refused(first, link, n - 1))
  {
    HeedsAlways(data, off, p, first, fast, link);
  }

  /** The attempts that the link answered with success. */
  function SentOf(attempts: seq<Attempt>, link: seq<LinkOutcome>): (ts: seq<Tile>)
    requires |attempts| <= |link|
  {
    if attempts == [] then []
    else
      var n := |attempts| - 1;
      SentOf(attempts[..n], link) + if link[n] == Sent then [Tile(attempts[n].offset, attempts[n].payload)] else []
  }

  lemma SentOfNext(attempts: seq<Attempt>, a: Attempt, link: seq<LinkOutcome>)
    requires |attempts| < |link|
    ensures SentOf(attempts + [a], link) ==
      SentOf(attempts, link) + if link[|attempts|] == Sent then [Tile(a.offset, a.payload)] else []
  {
    assert (attempts + [a])[..|attempts|] == attempts;
  }

  lemma {:induction false} SentOfMore(attempts: seq<Attempt>, link: seq<LinkOutcome>, n: nat)
    requires |attempts| <= n <= |link|
    ensures SentOf(attempts, link[..n]) == SentOf(attempts, link)
  {
    if attempts != [] {
      SentOfMore(attempts[..|attempts| - 1], link, n);
    }
  }

  lemma AcceptedNext(s: SendState, retryEmpty: bool, link: seq<LinkOutcome>, n: nat)
    requires n + 1 == |link| && |s.attempts| <= n && s.accepted == SentOf(s.attempts, link[..n])
    requires s.Status() == Pending ==> |s.attempts| == n
    ensures var s' := s.Step(retryEmpty, link[n]);
      |s'.attempts| <= |link| && s'.accepted == SentOf(s'.attempts, link)
  {
    SentOfMore(s.attempts, link, n);
    if s.Status() == Pending {
      SentOfNext(s.attempts, s.Try(link[n]), link);
    }
  }

  /** What a call counts as accepted is what the link answered with success, in order. */
  lemma {:induction false} AcceptedAreSent(
    data: seq<byte>, off: u32, p: nat, first: bool, retryEmpty: bool, link: seq<LinkOutcome>
  )
    ensures var s := Transmit(Start(data, off, p, first), retryEmpty, link);
      |s.attempts| <= |link| && s.accepted == SentOf(s.attempts, link)
    decreases |link|
  {
    if link != [] {
      var n := |link| - 1;
      AcceptedAreSent(data, off, p, first, retryEmpty, link[..n]);
      AttemptsAreAnswered(data, off, p, first, retryEmpty, link[..n]);
      AcceptedNext(Transmit(Start(data, off, p, first), retryEmpty, link[..n]), retryEmpty, link, n);
    }
  }

  // ---------------------------------------------------- A call cuts its data into tiles

  /** The tiles still to be sent, the first of them at `pos`. */
  ghost function Remaining(pos: nat, data: seq<byte>, p: nat, mustSend: bool): (ts: seq<Tile>)
    requires p >= 1 || data == []
  {
    if mustSend || data != [] then Tiles(pos, data, p) else []
  }

  /** What is out and what remains, `rest`, are the data cut into pieces of p bytes. */
  ghost predicate CutInto(data: seq<byte>, off: nat, p: nat, accepted: seq<Tile>, rest: seq<byte>, mustSend: bool)
    requires |rest| <= |data|
  {
    p >= 1 || data == [] ==> Tiles(off, data, p) == accepted + Remaining(off + |data| - |rest|, rest, p, mustSend)
  }

  /** What is left is the end of the data, under its offset. */
  ghost predicate AtPlace(data: seq<byte>, off: nat, s: SendState)
  {
    && |s.data| <= |data| && s.data == data[|data| - |s.data|..]
    && s.off == Wrap32(off + |data| - |s.data|)
    && (s.veryFirst ==> s.accepted == [] && s.data == data)
    && (s.mustSend ==> s.data == data)
    && (s.failed ==> s.mustSend || s.data != [])
    && (s.p == 0 ==> s.data == data)
  }

  /** Every state of a call: what is out and what remains are the data; nothing is skipped or repeated. */
  ghost predicate Cutting(data: seq<byte>, off: nat, s: SendState)
  {
    AtPlace(data, off, s) && CutInto(data, off, s.p, s.accepted, s.data, s.mustSend)
  }

  lemma SentRemaining(pos: nat, data: seq<byte>, p: nat, mustSend: bool)
    requires (p >= 1 || data == []) && (mustSend || data != [])
    ensures var n := if |data| > p then p else |data|;
      Remaining(pos, data, p, mustSend) == [Tile(Wrap32(pos), data[..n])] + Remaining(pos + n, data[n..], p, false)
  {
    if |data| <= p {
      assert data[..|data|] == data;
    } else {
      assert data[p..] != [];
    }
  }

  lemma CutSent(data: seq<byte>, off: nat, p: nat, accepted: seq<Tile>, rest: seq<byte>, mustSend: bool, n: nat)
    requires |rest| <= |data| && CutInto(data, off, p, accepted, rest, mustSend) && (mustSend || rest != [])
    requires n == (if |rest| > p then p else |rest|) && (data == [] ==> rest == [])
    ensures CutInto(data, off, p, accepted + [Tile(Wrap32(off + |data| - |rest|), rest[..n])], rest[n..], false)
  {
    var pos := off + |data| - |rest|;
    if p >= 1 || data == [] {
      SentRemaining(pos, rest, p, mustSend);
      Associative(accepted, Tile(Wrap32(pos), rest[..n]), Remaining(pos + n, rest[n..], p, false));
    }
  }

  lemma SuffixSent(data: seq<byte>, rest: seq<byte>, off: nat, n: nat)
    requires |rest| <= |data| && rest == data[|data| - |rest|..] && n <= |rest|
    ensures rest[n..] == data[|data| - |rest[n..]|..]
    ensures Wrap32(Wrap32(off + |data| - |rest|) + n) == Wrap32(off + |data| - |rest[n..]|)
  {
    SliceOfSuffix(data, |data| - |rest|, n);
    WrapAdd(off + |data| - |rest|, n);
  }

  lemma AtPlaceSent(data: seq<byte>, off: nat, s: SendState)
    requires AtPlace(data, off, s) && s.Status() == Pending
    ensures AtPlace(data, off, s.AfterSent())
  {
    SuffixSent(data, s.data, off, s.Size());
  }

  lemma CuttingSent(data: seq<byte>, off: nat, s: SendState)
    requires Cutting(data, off, s) && s.Status() == Pending
    ensures Cutting(data, off, s.AfterSent())
  {
    AtPlaceSent(data, off, s);
    CutSent(data, off, s.p, s.accepted, s.data, s.mustSend, s.Size());
  }

  lemma Associative(a: seq<Tile>, t: Tile, b: seq<Tile>)
    ensures a + ([t] + b) == a + [t] + b
  {
  }

  /** Nothing is out yet, whatever the payload size. */
  lemma CuttingFresh(data: seq<byte>, off: u32, s: SendState)
    requires s.data == data && s.off == off && s.accepted == [] && (s.mustSend || data != [])
    ensures Cutting(data, off, s)
  {
    if s.p >= 1 || data == [] {
      assert [] + Tiles(off, data, s.p) == Tiles(off, data, s.p);
    }
  }

  lemma CuttingError(data: seq<byte>, off: u32, s: SendState, outcome: LinkOutcome)
    requires Cutting(data, off, s) && s.Status() == Pending
    ensures Cutting(data, off, s.AfterError(outcome))
  {
  }

  /** A call that starts again has sent nothing. */
  lemma CuttingRetry(data: seq<byte>, off: u32, s: SendState, retryEmpty: bool)
    requires (retryEmpty || data != []) && Cutting(data, off, s) && s.Status() == Pending && s.veryFirst
    ensures Cutting(data, off, s.AfterTooBig(retryEmpty))
  {
    assert s.data == data && s.off == Wrap32(off) == off;
    CuttingFresh(data, off, s.AfterTooBig(retryEmpty));
  }

  lemma CuttingStep(data: seq<byte>, off: u32, s: SendState, retryEmpty: bool, outcome: LinkOutcome)
    requires (retryEmpty || data != []) && Cutting(data, off, s)
    ensures Cutting(data, off, s.Step(retryEmpty, outcome))
  {
    if s.Status() != Pending {
    } else if outcome == Sent {
      CuttingSent(data, off, s);
    } else if outcome == TooBig && s.veryFirst {
      CuttingRetry(data, off, s, retryEmpty);
    } else {
      CuttingError(data, off, s, outcome);
    }
  }

  lemma {:induction false} CuttingAlways(data: seq<byte>, off: u32, p: nat, first: bool, retryEmpty: bool,
                                         link: seq<LinkOutcome>)
    requires retryEmpty || data != []
    ensures Cutting(data, off, Transmit(Start(data, off, p, first), retryEmpty, link))
    decreases |link|
  {
    if link == [] {
      CuttingFresh(data, off, Start(data, off, p, first));
    } else {
      var n := |link| - 1;
      CuttingAlways(data, off, p, first, retryEmpty, link[..n]);
      CuttingStep(data, off, Transmit(Start(data, off, p, first), retryEmpty, link[..n]), retryEmpty, link[n]);
    }
  }

  /** The copying sender lets an empty buffer go when the link finds its packet too big. */
  predicate Lost(data: seq<byte>, first: bool, retryEmpty: bool, link: seq<LinkOutcome>)
  {
    !retryEmpty && EmptyRetry(data, first, link)
  }

  /** What a call has sent: all its tiles if it returned 0, and moved *offset by dataLen, else a strict initial part. */
  ghost predicate SendsTiles(data: seq<byte>, off: u32, s: SendState)
  {
    && (s.Status() == Ok ==>
        && (s.p >= 1 || data == [])
        && s.accepted == Tiles(off, data, s.p)
        && s.off == Wrap32(off + |data|))
    && (s.Status() != Ok && s.p >= 1 ==>
        exists rest :: rest != [] && Tiles(off, data, s.p) == s.accepted + rest)
  }

  lemma CuttingSends(data: seq<byte>, off: u32, s: SendState)
    requires Cutting(data, off, s)
    ensures SendsTiles(data, off, s)
  {
    if s.Status() == Ok {
      assert s.accepted + [] == s.accepted;
    } else if s.p >= 1 {
      assert Tiles(off, data, s.p) == s.accepted + Remaining(off + |data| - |s.data|, s.data, s.p, s.mustSend);
    }
  }

  /** The state machine: what it has sent when it is done, and before. */
  lemma FoldSendsTiles(data: seq<byte>, off: u32, p: nat, first: bool, retryEmpty: bool, link: seq<LinkOutcome>)
    ensures var s := Transmit(Start(data, off, p, first), retryEmpty, link);
      if Lost(data, first, retryEmpty, link) then s.Status() == Ok && s.accepted == [] && s.off == off
      else SendsTiles(data, off, s)
  {
    if Lost(data, first, retryEmpty, link) {
      EmptyRetryDiffers(off, p, link);
    } else if retryEmpty || data != [] {
      CuttingAlways(data, off, p, first, retryEmpty, link);
      CuttingSends(data, off, Transmit(Start(data, off, p, first), retryEmpty, link));
    } else {
      CuttingAlways(data, off, p, first, true, link);
      CuttingSends(data, off, Transmit(Start(data, off, p, first), true, link));
      FoldsAgree(data, off, p, first, link);
    }
  }

  /**
   Every call, of either sender. It overruns its packet storage, and sends nothing, exactly if its first packet
   does not fit there. Otherwise, if it returns 0, it has sent exactly the tiles of its data for the payload size
   p' in force and moved *offset by dataLen, and if not, a strict initial part of them. The one exception is an
   empty buffer that the copying sender lets go: that call returns 0 and has sent nothing.
   */
  lemma CallSendsTiles(f: Framing, data: seq<byte>, off: u32, p: nat, first: bool, fast: bool, link: seq<LinkOutcome>)
    returns (p': nat)
    ensures var r := Reported(f, data, off, p, first, fast, link);
      && |r.attempts| <= |link| && r.packetsSent == |SentOf(r.attempts, link)|
      && (r.status == Overrun <==> Overruns(f, |data|, p, fast))
      && (r.status == Overrun ==> r.attempts == [])
      && (r.status == Ok && Lost(data, first, fast, link) ==> SentOf(r.attempts, link) == [] && r.newOffset == off)
      && (r.status == Ok && !Lost(data, first, fast, link) ==>
          && (p' >= 1 || data == [])
          && SentOf(r.attempts, link) == Tiles(off, data, p')
          && r.newOffset == Wrap32(off + |data|))
      && (r.status != Ok ==> r.newOffset == off)
      && (r.status != Ok && p' >= 1 ==>
          exists rest :: rest != [] && Tiles(off, data, p') == SentOf(r.attempts, link) + rest)
  {
    var r, s := Reported(f, data, off, p, first, fast, link), Transmit(Start(data, off, p, first), fast, link);
    p' := s.p;
    if r.status == Overrun {
      if p' >= 1 {
        assert Tiles(off, data, p') == SentOf([], link) + Tiles(off, data, p');
      }
    } else {
      AcceptedAreSent(data, off, p, first, fast, link);
      FoldSendsTiles(data, off, p, first, fast, link);
    }
  }

  // ---------------------------------------------------- A buffer sent piece by piece

  /** One call of a series; each hands its *offset to the next. */
  datatype Call = Call(data: seq<byte>, p: nat, first: bool, retryEmpty: bool, link: seq<LinkOutcome>)

  function Outcome(c: Call, off: u32): (s: SendState)
  {
    Transmit(Start(c.data, off, c.p, c.first), c.retryEmpty, c.link)
  }

  ghost predicate AllSucceed(calls: seq<Call>, off: u32)
  {
    calls != [] ==> Outcome(calls[0], off).Status() == Ok && AllSucceed(calls[1..], Outcome(calls[0], off).off)
  }

  function Whole(calls: seq<Call>): (data: seq<byte>)
  {
    if calls == [] then [] else calls[0].data + Whole(calls[1..])
  }

  function SentBy(calls: seq<Call>, off: u32): (ts: seq<Tile>)
  {
    if calls == [] then []
    else Outcome(calls[0], off).accepted + SentBy(calls[1..], Outcome(calls[0], off).off)
  }

  lemma {:induction false} ContiguousConcat(a: seq<Tile>, b: seq<Tile>, off: nat, mid: nat, end: nat)
    requires Contiguous(a, off, mid) && Contiguous(b, mid, end)
    ensures Contiguous(a + b, off, end)
  {
    if a == [] {
      assert a + b == b;
    } else {
      ContiguousConcat(a[1..], b, off + |a[0].payload|, mid, end);
      assert (a + b)[1..] == a[1..] + b && (a + b)[0] == a[0];
    }
  }

  lemma {:induction false} PayloadsConcat(a: seq<Tile>, b: seq<Tile>)
    ensures Payloads(a + b) == Payloads(a) + Payloads(b)
  {
    if a == [] {
      assert a + b == b;
    } else {
      PayloadsConcat(a[1..], b);
      assert (a + b)[1..] == a[1..] + b && (a + b)[0] == a[0];
      JoinedBytes(a[0].payload, Payloads(a[1..]), Payloads(b));
    }
  }

  lemma JoinedBytes(x: seq<byte>, y: seq<byte>, z: seq<byte>)
    ensures x + (y + z) == (x + y) + z
  {
  }

  lemma {:induction false} ContiguousEnd(ts: seq<Tile>, off: nat, end: nat)
    requires Contiguous(ts, off, end)
    ensures off <= end
  {
    if ts != [] {
      ContiguousEnd(ts[1..], off + |ts[0].payload|, end);
    }
  }

  /** Offsets are all that is seen of positions, so 2^32 more or less makes no difference. */
  lemma {:induction false} ContiguousShift(ts: seq<Tile>, a: nat, b: nat, n: nat)
    requires Wrap32(a) == Wrap32(b) && Contiguous(ts, a, a + n)
    ensures Contiguous(ts, b, b + n)
  {
    if ts != [] {
      var k := |ts[0].payload|;
      ContiguousEnd(ts[1..], a + k, a + n);
      WrapAdd(a, k);
      WrapAdd(b, k);
      ContiguousShift(ts[1..], a + k, b + k, n - k);
    }
  }

  /** These tiles are the data, which starts at `off`, with no gap and no overlap. */
  ghost predicate Tiling(ts: seq<Tile>, off: nat, data: seq<byte>)
  {
    Contiguous(ts, off, off + |data|) && Payloads(ts) == data
  }

  lemma TilingConcat(a: seq<Tile>, b: seq<Tile>, off: nat, x: seq<byte>, y: seq<byte>)
    requires Tiling(a, off, x) && Tiling(b, Wrap32(off + |x|), y)
    ensures Tiling(a + b, off, x + y)
  {
    ContiguousShift(b, Wrap32(off + |x|), off + |x|, |y|);
    ContiguousConcat(a, b, off, off + |x|, off + |x| + |y|);
    PayloadsConcat(a, b);
  }

  /** One successful call: its packets tile its part of the buffer, and their number is dataLen / p rounded up. */
  lemma CallTilesItsPart(c: Call, off: u32)
    requires Outcome(c, off).Status() == Ok
    ensures var s := Outcome(c, off);
      && s.off == Wrap32(off + |c.data|) && Tiling(s.accepted, off, c.data)
      && (c.data != [] ==> (|s.accepted| - 1) * s.p < |c.data| <= |s.accepted| * s.p)
  {
    var s := Outcome(c, off);
    FoldSendsTiles(c.data, off, c.p, c.first, c.retryEmpty, c.link);
    if !Lost(c.data, c.first, c.retryEmpty, c.link) {
      TilesConcat(off, c.data, s.p);
      if c.data != [] {
        TilesCount(off, c.data, s.p);
      }
    }
  }

  /** However the buffer is split over calls, and whatever payload size each ends up with, the packets tile it. */
  lemma {:induction false} SeriesTilesBuffer(calls: seq<Call>, off: u32)
    requires AllSucceed(calls, off)
    ensures Tiling(SentBy(calls, off), off, Whole(calls))
  {
    if calls != [] {
      var s, rest := Outcome(calls[0], off), calls[1..];
      CallTilesItsPart(calls[0], off);
      SeriesTilesBuffer(rest, s.off);
      TilingConcat(s.accepted, SentBy(rest, s.off), off, calls[0].data, Whole(rest));
    }
  }

  // ---------------------------------------------------- The EMSGSIZE retry

  /** The answers are those of a link that takes exactly the payloads of at most `limit` bytes. */
  ghost predicate Answers(attempts: seq<Attempt>, link: seq<LinkOutcome>, limit: nat)
  {
    && |attempts| <= |link|
    && forall i :: 0 <= i < |attempts| ==> link[i] == if |attempts[i].payload| <= limit then Sent else TooBig
  }

  lemma AnswersBefore(s: SendState, retryEmpty: bool, link: seq<LinkOutcome>, limit: nat)
    requires link != [] && Answers(s.Step(retryEmpty, link[|link| - 1]).attempts, link, limit)
    requires |s.attempts| <= |link| - 1 && (s.Status() == Pending ==> |s.attempts| == |link| - 1)
    ensures Answers(s.attempts, link[..|link| - 1], limit)
    ensures s.Status() == Pending ==> link[|link| - 1] == if s.Size() <= limit then Sent else TooBig
  {
    var n, s' := |link| - 1, s.Step(retryEmpty, link[|link| - 1]);
    forall i | 0 <= i < |s.attempts|
      ensures link[..n][i] == if |s.attempts[i].payload| <= limit then Sent else TooBig
    {
      assert s'.attempts[i] == s.attempts[i];
    }
    if s.Status() == Pending {
      assert s'.attempts[n] == s.Try(link[n]);
    }
  }

  ghost predicate OnTheWay(s: SendState, limit: nat, budget: int)
  {
    && s.p >= 1 && !s.failed
    && (s.veryFirst || s.p <= limit || s.data == [])
    && (s.Status() == Pending ==> (if s.veryFirst then s.p else 0) + |s.data| + (if s.mustSend then 1 else 0) <= budget)
  }

  lemma OnTheWayStep(s: SendState, retryEmpty: bool, outcome: LinkOutcome, limit: nat, budget: int)
    requires limit >= 1 && OnTheWay(s, limit, budget)
    requires s.Status() == Pending ==> outcome == if s.Size() <= limit then Sent else TooBig
    ensures OnTheWay(s.Step(retryEmpty, outcome), limit, budget - 1)
  {
  }

  lemma {:induction false} RetryProgress(data: seq<byte>, off: u32, p: nat, retryEmpty: bool, limit: nat,
                                         link: seq<LinkOutcome>)
    requires p >= 1 && limit >= 1
    requires Answers(Transmit(Start(data, off, p, true), retryEmpty, link).attempts, link, limit)
    ensures OnTheWay(Transmit(Start(data, off, p, true), retryEmpty, link), limit, p + |data| + 1 - |link|)
    decreases |link|
  {
    if link != [] {
      var n := |link| - 1;
      var s := Transmit(Start(data, off, p, true), retryEmpty, link[..n]);
      AttemptsAreAnswered(data, off, p, true, retryEmpty, link[..n]);
      AnswersBefore(s, retryEmpty, link, limit);
      RetryProgress(data, off, p, retryEmpty, limit, link[..n]);
      OnTheWayStep(s, retryEmpty, link[n], limit, p + |data| + 1 - n);
    }
  }

  /**
   On such a link the first buffer of a series always gets through: the payload size stays at least 1,
   no error is reported, and the call is over after at most p + dataLen + 1 attempts, all tiles sent.
   */
  lemma RetryTerminates(data: seq<byte>, off: u32, p: nat, retryEmpty: bool, limit: nat, link: seq<LinkOutcome>)
    requires p >= 1 && limit >= 1
    requires Answers(Transmit(Start(data, off, p, true), retryEmpty, link).attempts, link, limit)
    requires |link| > p + |data| + 1
    ensures var s := Transmit(Start(data, off, p, true), retryEmpty, link);
      s.Status() == Ok && s.p >= 1 && (data != [] ==> s.accepted == Tiles(off, data, s.p))
  {
    RetryProgress(data, off, p, retryEmpty, limit, link);
    if data != [] {
      FoldSendsTiles(data, off, p, true, retryEmpty, link);
    }
  }
}
