/** What the path of the samples gets done: an undisturbed call hands on the oldest block, and a controller that keeps
    answering brings every accepted byte to the host. */
module SampleProgress {
  import opened Numbers
  import opened Options
  import opened SampleFrames
  import opened SampleSteps

  // ---------------------------------------------------------------- the interrupt

  predicate OnlyInterrupts(es: seq<Event>) { forall i :: 0 <= i < |es| ==> es[i].Interrupt? }

  /** The words of the interrupts from the n-th on. */
  function WordsFrom(es: seq<Event>, n: nat): seq<Word>
    requires OnlyInterrupts(es)
  {
    if |es| <= n then [] else WordsFrom(es[..|es| - 1], n) + es[|es| - 1].words
  }

  /** Once started, the sampling skips as many interrupts as it takes to wake up, and stores the words of all that
      follow. */
  lemma {:induction false} InterruptsStore(s: Sampling, es: seq<Event>)
    requires s.start && OnlyInterrupts(es)
    ensures var t := SampledAll(s, es);
            && t.produced == s.produced + WordsFrom(es, s.wakeup) && t.blocks == s.blocks && t.phase == s.phase
            && t.start && t.wakeup == if |es| < s.wakeup then s.wakeup - |es| else 0
  {
    if es != [] {
      InterruptsStore(s, es[..|es| - 1]);
      if |es| <= s.wakeup {
        assert WordsFrom(es[..|es| - 1], s.wakeup) == [];
      }
    }
  }

  // ---------------------------------------------------------------- the main loop

  lemma {:induction false} CopiesCount(s: Sampling, k: nat)
    requires s.phase == Resting && BLOCK <= Waiting(s) && k <= BLOCK
    ensures SampledAll(s, CallSoFar(k)) == s.(phase := Packing(BLOCK - k))
  {
    if k == 0 {
      FirstSample(s);
    } else {
      CopiesCount(s, k - 1);
      OneMoreCopy(s, k - 1);
    }
  }

  /** With a block waiting and room for its frame, a call puts into the ring the frame of the oldest words that have not
      been taken out. */
  lemma CallHandsOn(p: Path, block: seq<Word>)
    requires !p.sampling.overrun && p.sampling.phase == Resting && BLOCK <= Waiting(p.sampling)
    requires block == p.sampling.produced[BLOCK * |p.sampling.blocks|..][..BLOCK]
    requires |p.sending.stored| + |Frame(block)| <= RING_SIZE
    ensures var after := Steps(p, Call(true));
            && after.sampling == p.sampling.(blocks := p.sampling.blocks + [block])
            && after.sending.accepted == p.sending.accepted + Frame(block)
            && after.sending.stored == p.sending.stored + Frame(block)
            && after.sending.wire == p.sending.wire && after.whole == p.whole + 1 && after.short == p.short
  {
    var s := p.sampling;
    CopiesCount(s, BLOCK);
    var packed := CallSoFar(BLOCK);
    OneMoreSample(s, packed, TakeOut);
    var drained := p.(sampling := SampledAll(s, Drained(true)));
    CallIsSteps(p, true, drained);
    assert drained.sampling == s.(phase := Ready, blocks := s.blocks + [block]);
    assert Frame(block)[..|Frame(block)|] == Frame(block);
  }

  /** With fewer words a call does nothing. */
  lemma CallWaits(p: Path)
    requires !p.sampling.overrun && p.sampling.phase == Resting && Waiting(p.sampling) < BLOCK
    ensures Steps(p, Call(false)) == p
  {
    FirstSample(p.sampling);
    CallIsSteps(p, false, p);
  }

  // ---------------------------------------------------------------- the controller

  function Sent(s: Sending, es: seq<Event>): Sending
    decreases |es|
  {
    if es == [] then s else Sent(Transferred(s, es[0]), es[1..])
  }

  predicate AllOfSender(es: seq<Event>) { forall i :: 0 <= i < |es| ==> OfSender(es[i]) }

  /** An answer of the controller ends the transfer, or leaves only the zero-length packet that ends it. */
  lemma Answered(s: Sending)
    requires SendingOk(s)
    ensures var t := Transferred(Transferred(s, Arrived), Arrived);
            t.flight == None && t.stored == s.stored && t.accepted == s.accepted && SendingOk(t)
            && t.preparing == s.preparing
  {
    TransferredKeeps(s, Arrived);
    TransferredKeeps(Transferred(s, Arrived), Arrived);
  }

  /** One transfer takes what there is out of the ring, up to 2047 bytes, and brings it to the host. */
  lemma OneTransfer(s: Sending, n: nat)
    requires SendingOk(s) && s.flight.None? && !s.preparing && s.stored != []
    requires n == if |s.stored| < 2047 then |s.stored| else 2047
    ensures var t := Transferred(Transferred(Transferred(s, Begin), Fetch), Arrived);
            && SendingOk(t) && Joined(t.wire) == Joined(s.wire) + s.stored[..n] && t.stored == s.stored[n..]
            && t.accepted == s.accepted && !t.preparing && (t.flight == None <==> n % 64 != 0)
  {
    var b := Transferred(s, Begin);
    TransferredKeeps(s, Begin);
    TransferredKeeps(b, Fetch);
    var f := Transferred(b, Fetch);
    assert UnderWay(f) == s.stored[..n];
    ArrivedKeeps(f);
  }

  /** Wherever the sending side stands, it has a way to go on after which the host has all bytes the ring ever took. */
  lemma {:induction false} EverythingArrives(s: Sending) returns (es: seq<Event>)
    requires SendingOk(s)
    ensures AllOfSender(es) && Joined(Sent(s, es).wire) == s.accepted && Sent(s, es).stored == []
    ensures Sent(s, es).flight == None && !Sent(s, es).preparing
    decreases |s.stored|, s.flight.Some?, s.preparing
  {
    if s.flight.Some? {
      var a := Transferred(s, Arrived);
      var t := Transferred(a, Arrived);
      Answered(s);
      var more := EverythingArrives(t);
      es := [Arrived, Arrived] + more;
      TwoSteps(s, a, t, Arrived, Arrived, more);
    } else if s.preparing {
      TransferredKeeps(s, Fetch);
      var t := Transferred(s, Fetch);
      var more := EverythingArrives(t);
      es := [Fetch] + more;
      OneStep(s, t, Fetch, more);
    } else if s.stored != [] {
      var b := Transferred(s, Begin);
      var t := Transferred(b, Fetch);
      TransferredKeeps(s, Begin);
      TransferredKeeps(b, Fetch);
      var more := EverythingArrives(t);
      es := [Begin, Fetch] + more;
      TwoSteps(s, b, t, Begin, Fetch, more);
    } else {
      es := [];
    }
  }

  lemma OneStep(s: Sending, t: Sending, e: Event, more: seq<Event>)
    requires t == Transferred(s, e)
    ensures Sent(s, [e] + more) == Sent(t, more)
  {
    assert ([e] + more)[1..] == more;
  }

  lemma TwoSteps(s: Sending, a: Sending, t: Sending, e: Event, e': Event, more: seq<Event>)
    requires a == Transferred(s, e) && t == Transferred(a, e')
    ensures Sent(s, [e, e'] + more) == Sent(t, more)
  {
    OneStep(a, t, e', more);
    OneStep(s, a, e, [e'] + more);
    assert [e] + ([e'] + more) == [e, e'] + more;
  }
}
