/** The way of the samples as a machine on values: what each step of the interrupt, the main loop and the controller
    does to the words produced, the blocks taken out, the bytes in the ring, and the packets on the bus. */
module SampleSteps {
  import opened Numbers
  import opened Options
  import opened SampleFrames
  import opened RingSeq
  import opened Seqs

  const COUNT := 1024     // words in the circular buffer
  const BURST := 32       // words of one interrupt
  const TX_SIZE := 2048   // size of the transfer buffer
  const RING_SIZE := 4096 // size of the byte ring

  /** The steps of the interrupt, the main loop, and the controller. */
  datatype Event = Interrupt(words: seq<Word>) | Look | CopyOne | TakeOut | Hand | Begin | Fetch | Arrived

  predicate OfSender(e: Event) { e == Begin || e == Fetch || e == Arrived }

  /** Where task_data_out() is: between calls, with `left` words to copy, or with a finished block. */
  datatype Phase = Resting | Packing(left: nat) | Ready

  /** Every word stored since the start, every block taken out, and whether an interrupt ever came too far ahead. */
  datatype Sampling = Sampling(
    start: bool, wakeup: nat, produced: seq<Word>, blocks: seq<seq<Word>>, phase: Phase, overrun: bool)

  /** All bytes that the ring ever took, the bytes it holds, the transfer under way, whether one is being prepared, all
      packets the host ever got, and what each read of the ring handed over. */
  datatype Sending = Sending(
    accepted: seq<byte>, stored: seq<byte>, flight: Option<seq<byte>>, preparing: bool,
    wire: seq<seq<byte>>, chunks: seq<seq<byte>>)

  /** The whole path, with the blocks that went into the ring whole and those that did not. */
  datatype Path = Path(sampling: Sampling, sending: Sending, whole: nat, short: nat)

  /** Words produced and not yet taken out. */
  function Waiting(s: Sampling): int { |s.produced| - BLOCK * |s.blocks| }

  function NextBlock(s: Sampling): seq<Word> {
    if BLOCK <= Waiting(s) then s.produced[BLOCK * |s.blocks|..][..BLOCK] else []
  }

  function Sampled(s: Sampling, e: Event): Sampling {
    match e
    case Interrupt(words) =>
      if !s.start then s
      else if s.wakeup != 0 then s.(wakeup := s.wakeup - 1)
      else s.(produced := s.produced + words, overrun := COUNT <= Waiting(s) + BURST)
    case Look => if s.phase == Resting && BLOCK <= Waiting(s) then s.(phase := Packing(BLOCK)) else s
    case CopyOne => if s.phase.Packing? && s.phase.left != 0 then s.(phase := Packing(s.phase.left - 1)) else s
    case TakeOut => if s.phase == Packing(0) then s.(phase := Ready, blocks := s.blocks + [NextBlock(s)]) else s
    case _ => s
  }

  function Transferred(s: Sending, e: Event): Sending {
    match e
    case Begin => if s.flight.None? && !s.preparing then s.(preparing := true) else s
    case Fetch =>
      if !s.preparing then s
      else if s.stored == [] then s.(preparing := false)
      else
        var n := Min(TX_SIZE - 1, |s.stored|);
        s.(preparing := false, flight := Some(s.stored[..n]), stored := s.stored[n..],
            chunks := s.chunks + [s.stored[..n]])
    case Arrived =>
      if s.flight.None? then s else
      var d := s.flight.value;
      s.(wire := s.wire + (if d == [] then [[]] else Packets(d)),
         flight := if d != [] && |d| % PACKET == 0 then Some([]) else None)
    case _ => s
  }

  /** As much of a frame as there is room for goes into the ring. */
  function Taken(s: Sending, frame: seq<byte>): Sending {
    var n := Max(0, Min(|frame|, RING_SIZE - |s.stored|));
    s.(accepted := s.accepted + frame[..n], stored := s.stored + frame[..n])
  }

  function Handed(p: Path): Path {
    if p.sampling.phase != Ready || p.sampling.blocks == [] then p else
    var fits := |p.sending.stored| + 2 + BYTES <= RING_SIZE;
    Path(p.sampling.(phase := Resting), Taken(p.sending, Frame(p.sampling.blocks[|p.sampling.blocks| - 1])),
         p.whole + (if fits then 1 else 0), p.short + (if fits then 0 else 1))
  }

  /** One step. Nothing more is said once an interrupt has come too far ahead. */
  function Step(p: Path, e: Event): Path {
    if p.sampling.overrun then p
    else if e == Hand then Handed(p)
    else p.(sampling := Sampled(p.sampling, e), sending := Transferred(p.sending, e))
  }

  function Steps(p: Path, es: seq<Event>): Path {
    if es == [] then p else Step(Steps(p, es[..|es| - 1]), es[|es| - 1])
  }

  function SampledAll(s: Sampling, es: seq<Event>): Sampling {
    if es == [] then s else Sampled(SampledAll(s, es[..|es| - 1]), es[|es| - 1])
  }

  lemma OneMoreSample(s: Sampling, es: seq<Event>, e: Event)
    ensures SampledAll(s, es + [e]) == Sampled(SampledAll(s, es), e)
  {
    assert (es + [e])[..|es|] == es;
  }

  /** The first k + 1 steps of an undisturbed call of task_data_out(). */
  function CallSoFar(k: nat): (es: seq<Event>)
    ensures OnlyDraining(es)
  {
    [Look] + seq(k, _ => CopyOne)
  }

  lemma OneMoreCopy(s: Sampling, k: nat)
    ensures SampledAll(s, CallSoFar(k + 1)) == Sampled(SampledAll(s, CallSoFar(k)), CopyOne)
  {
    assert CallSoFar(k + 1) == CallSoFar(k) + [CopyOne];
    OneMoreSample(s, CallSoFar(k), CopyOne);
  }

  lemma FirstSample(s: Sampling)
    ensures SampledAll(s, [Look]) == SampledAll(s, CallSoFar(0)) == Sampled(s, Look)
  {
    assert CallSoFar(0) == [Look] && [] + [Look] == [Look];
    OneMoreSample(s, [], Look);
  }

  predicate OnlyDraining(es: seq<Event>) {
    forall i :: 0 <= i < |es| ==> es[i] == Look || es[i] == CopyOne || es[i] == TakeOut
  }

  /** All its steps up to the finished block; the call is over at once if there are too few words. */
  function Drained(goesOn: bool): (es: seq<Event>)
    ensures OnlyDraining(es)
  {
    if goesOn then CallSoFar(BLOCK) + [TakeOut] else [Look]
  }

  function Call(goesOn: bool): seq<Event> {
    if goesOn then Drained(true) + [Hand] else Drained(false)
  }

  /** Draining is the business of the sampling side alone, and cannot come too far ahead. */
  lemma {:induction false} DrainingSteps(p: Path, es: seq<Event>)
    requires OnlyDraining(es) && !p.sampling.overrun
    ensures Steps(p, es) == p.(sampling := SampledAll(p.sampling, es)) && !Steps(p, es).sampling.overrun
  {
    if es != [] {
      DrainingSteps(p, es[..|es| - 1]);
    }
  }

  /** The whole call, once the block has been drained. */
  lemma CallIsSteps(p: Path, goesOn: bool, drained: Path)
    requires !p.sampling.overrun && drained == p.(sampling := SampledAll(p.sampling, Drained(goesOn)))
    ensures Steps(p, Call(goesOn)) == if goesOn then Handed(drained) else drained
  {
    DrainingSteps(p, Drained(goesOn));
    assert (Drained(true) + [Hand])[..|Drained(true)|] == Drained(true);
  }

  // ---------------------------------------------------------------- what the sending side keeps

  function UnderWay(s: Sending): seq<byte> {
    if s.flight.Some? then s.flight.value else []
  }

  /** What the host has seen of the chunks handed to the controller. While data is on its way it is the one chunk still
      to come; while a zero-length packet is on its way the host holds the last chunk and waits for its end. */
  predicate Transfers(s: Sending) {
    var seen := CutAt(s.wire);
    match s.flight
    case None => seen == Cut(s.chunks, [])
    case Some(d) =>
      if d == [] then seen.transfers + [seen.open] == s.chunks && seen.open != [] && |seen.open| % PACKET == 0
      else seen.transfers + [d] == s.chunks && seen.open == []
  }

  /** The bytes accepted are those at the host, those on their way and those in the ring; packets are not too long, no
      transfer is empty, and there is only one at a time. */
  predicate SendingOk(s: Sending) {
    && Transfers(s) && s.accepted == Joined(s.wire) + UnderWay(s) + s.stored
    && (forall i :: 0 <= i < |s.wire| ==> |s.wire[i]| <= PACKET)
    && (forall i :: 0 <= i < |s.chunks| ==> s.chunks[i] != [])
    && !(s.flight.Some? && s.preparing)
  }

  lemma TakenKeeps(s: Sending, frame: seq<byte>)
    requires SendingOk(s)
    ensures SendingOk(Taken(s, frame))
  {
    var n := Max(0, Min(|frame|, RING_SIZE - |s.stored|));
    Reassociate(Joined(s.wire) + UnderWay(s), s.stored, frame[..n]);
  }

  /** Moving bytes from the ring into a transfer changes nothing in the stream. */
  lemma FetchKeeps(s: Sending)
    requires SendingOk(s) && s.preparing
    ensures SendingOk(Transferred(s, Fetch))
  {
    var n := Min(TX_SIZE - 1, |s.stored|);
    assert s.stored == s.stored[..n] + s.stored[n..];
    assert Joined(s.wire) + [] + s.stored == Joined(s.wire) + s.stored[..n] + s.stored[n..];
  }

  /** The transfer reaches the host: it is over if its last packet was short, and otherwise needs one more packet. */
  lemma ArrivedKeeps(s: Sending)
    requires SendingOk(s) && s.flight.Some?
    ensures SendingOk(Transferred(s, Arrived))
    ensures Joined(Transferred(s, Arrived).wire) == Joined(s.wire) + UnderWay(s)
  {
    var d, t := s.flight.value, Transferred(s, Arrived);
    assert Joined(s.wire) + d + [] == Joined(s.wire) + d;
    if d == [] {
      OnePacket(s.wire, [], t.wire);
      assert CutAt(s.wire).open + [] == CutAt(s.wire).open;
    } else {
      PacketsCarry(s.wire, d, t.wire);
      PacketsFit(d);
      assert [] + d == d;
    }
  }

  /** No step of the sending side loses, repeats or reorders a byte, and what has reached the host stays there. */
  lemma TransferredKeeps(s: Sending, e: Event)
    requires SendingOk(s)
    ensures SendingOk(Transferred(s, e))
    ensures Joined(s.wire) <= Joined(Transferred(s, e).wire) && Transferred(s, e).accepted == s.accepted
  {
    if e == Fetch && s.preparing { FetchKeeps(s); }
    if e == Arrived && s.flight.Some? { ArrivedKeeps(s); }
  }

  // ---------------------------------------------------------------- what the whole path keeps

  /** The blocks that have been handed on. */
  function HandedOn(s: Sampling): seq<seq<Word>> {
    if s.phase == Ready && s.blocks != [] then s.blocks[..|s.blocks| - 1] else s.blocks
  }

  /** Every block handed on has been counted; and as long as no interrupt came too far ahead and no block failed to fit,
      the bytes in the ring and beyond are the frames of those blocks. */
  predicate BooksOk(p: Path) {
    && p.whole + p.short == |HandedOn(p.sampling)|
    && (!p.sampling.overrun && p.short == 0 ==> p.sending.accepted == Frames(HandedOn(p.sampling)))
  }

  lemma HandedKeeps(p: Path, p': Path)
    requires BooksOk(p) && p.sampling.phase == Ready && p.sampling.blocks != [] && WholeBlocks(p.sampling.blocks)
    requires p'.sampling == p.sampling.(phase := Resting)
    requires var fits := |p.sending.stored| + 2 + BYTES <= RING_SIZE;
             p'.whole == p.whole + (if fits then 1 else 0) && p'.short == p.short + (if fits then 0 else 1)
    requires !p.sampling.overrun ==>
      p'.sending == Taken(p.sending, Frame(p.sampling.blocks[|p.sampling.blocks| - 1]))
    ensures BooksOk(p') && (!p.sampling.overrun ==> p' == Handed(p))
  {
    var blocks := p.sampling.blocks;
    var frame := Frame(blocks[|blocks| - 1]);
    OneMoreFrame(HandedOn(p.sampling), blocks[|blocks| - 1], blocks);
    assert |frame| == 2 + BYTES && frame[..|frame|] == frame;
  }

  /** The host reads the low 24 bits of the first words produced, in order and without a gap. */
  predicate Delivered(p: Path) {
    var host := Joined(p.sending.wire);
    var n := BLOCK * FramesIn(host);
    n <= |p.sampling.produced| && Samples(host) == Low24(p.sampling.produced)[..n]
  }

  lemma PathDelivers(p: Path)
    requires SendingOk(p.sending) && BooksOk(p) && !p.sampling.overrun && p.short == 0
    requires WholeBlocks(p.sampling.blocks) && Flat(p.sampling.blocks) <= p.sampling.produced
    ensures Delivered(p)
  {
    var host, handed, blocks := Joined(p.sending.wire), HandedOn(p.sampling), p.sampling.blocks;
    assert host <= p.sending.accepted;
    HostReadsSamples(host, handed);
    var n := FramesIn(host);
    FlatPrefix(handed, n, blocks);
    assert Low24(p.sampling.produced)[..BLOCK * n] == Low24(Flat(blocks)[..BLOCK * n]);
  }

  /** The samples of the first n blocks are the first samples. */
  lemma {:induction false} FlatPrefix(bs: seq<seq<Word>>, n: nat, all: seq<seq<Word>>)
    requires WholeBlocks(all) && bs <= all && n <= |bs|
    ensures BLOCK * n <= |Flat(all)| && Flat(bs[..n]) == Flat(all)[..BLOCK * n]
    decreases n
  {
    assert bs[..n] == all[..n];
    if n != 0 {
      FlatPrefix(all[1..], n - 1, all[1..]);
      assert all[..n][1..] == all[1..][..n - 1];
    }
  }
}
