/** From the sampler's interrupt to the host: a circular buffer of words, blocks of packed samples, the byte ring, and
    USB transfers. Every method is one step; interrupts may come between any two of them. */
module SamplePipeline {
  import opened Numbers
  import opened RingSeq
  import opened MirrorRing
  import opened Options
  import opened SampleFrames
  import opened SampleSteps
  import opened Seqs

  const TWO32 := 0x1_0000_0000

  /** Where task_data_out() is: between calls, with `left` words to copy from index prd on, or with a finished block. */
  datatype Drain = Idle | Copying(prd: nat, left: nat) | Framed

  function PhaseOf(drain: Drain): Phase {
    match drain
    case Idle => Resting
    case Copying(_, left) => SampleSteps.Packing(left)
    case Framed => Ready
  }

  lemma {:induction false} FlatLength(bs: seq<seq<Word>>)
    requires WholeBlocks(bs)
    ensures |Flat(bs)| == BLOCK * |bs|
  {
    if bs != [] { FlatLength(bs[1..]); }
  }

  // ---------------------------------------------------------------- the circular buffer as a value

  function AvailOf(wr: nat, rd: nat): (n: nat)
    requires wr < COUNT && rd < COUNT
    ensures n < COUNT
  {
    if wr < rd then COUNT - rd + wr else wr - rd
  }

  /** The words between the two indices, oldest first. */
  function PendingOf(buf: seq<Word>, wr: nat, rd: nat): (r: seq<Word>)
    requires wr < COUNT && rd < COUNT && |buf| == COUNT
    ensures |r| == AvailOf(wr, rd)
  {
    Window(buf, rd, AvailOf(wr, rd))
  }

  /** A burst that stays behind the reader is appended. */
  lemma BurstAppends(buf: seq<Word>, wr: nat, rd: nat, words: seq<Word>)
    requires wr < COUNT && rd < COUNT && |buf| == COUNT && |words| == BURST && wr + BURST <= COUNT
    requires AvailOf(wr, rd) + BURST < COUNT
    ensures PendingOf(buf[..wr] + words + buf[wr + BURST..], (wr + BURST) % COUNT, rd) == PendingOf(buf, wr, rd) + words
  {
    var avail := AvailOf(wr, rd);
    assert wr == Wrap(rd + avail, COUNT);
    assert AvailOf((wr + BURST) % COUNT, rd) == avail + BURST;
    PutInOne(buf, wr, words);
    WindowAppend(buf, rd, avail, words);
  }

  lemma OneMoreStored(buf: seq<Word>, at: nat, words: seq<Word>, i: nat)
    requires i < |words| && at + i < |buf|
    ensures (buf[..at] + words[..i] + buf[at + i..])[at + i := words[i]]
            == buf[..at] + words[..i + 1] + buf[at + i + 1..]
  {
  }

  /** What has been copied of the next block, or the block itself. */
  ghost predicate PackingOf(drain: Drain, block: seq<byte>, pending: seq<Word>, blocks: seq<seq<Word>>) {
    && |block| == 2 + BYTES
    && match drain
       case Idle => true
       case Copying(_, left) =>
         && left <= BLOCK <= |pending|
         && block[0] == BYTES && block[1] == COMMAND
         && block[2..2 + 3 * (BLOCK - left)] == Packed(pending[..BLOCK - left])
       case Framed => blocks != [] && block == Frame(blocks[|blocks| - 1])
  }

  lemma WordCopied(prd: nat, left: nat, block: seq<byte>, block': seq<byte>, pending: seq<Word>, blocks: seq<seq<Word>>)
    requires 0 < left && PackingOf(Copying(prd, left), block, pending, blocks) && |block'| == 2 + BYTES
    requires block'[0] == block[0] && block'[1] == block[1]
    requires var k := BLOCK - left; block'[2..2 + 3 * (k + 1)] == block[2..2 + 3 * k] + Pack(pending[k])
    ensures PackingOf(Copying(prd + 1, left - 1), block', pending, blocks)
  {
    var k := BLOCK - left;
    assert pending[..k + 1][..k] == pending[..k];
  }

  lemma BlockFramed(prd: nat, block: seq<byte>, pending: seq<Word>, blocks: seq<seq<Word>>)
    requires PackingOf(Copying(prd, 0), block, pending, blocks)
    ensures block == Frame(pending[..BLOCK])
  {
    assert block == [block[0], block[1]] + block[2..2 + BYTES];
  }

  /** New words at the end do not matter to the block in work. */
  lemma PackingGoesOn(drain: Drain, block: seq<byte>, pending: seq<Word>, more: seq<Word>, blocks: seq<seq<Word>>)
    requires PackingOf(drain, block, pending, blocks)
    ensures PackingOf(drain, block, pending + more, blocks)
  {
    if drain.Copying? && drain.left <= BLOCK {
      var k := BLOCK - drain.left;
      assert (pending + more)[..k] == pending[..k];
    }
  }

  /** Taking a block out of the pending words changes nothing in the stream. */
  lemma BlockMoves(bs: seq<seq<Word>>, b: seq<Word>, bs': seq<seq<Word>>, pending: seq<Word>)
    requires BLOCK <= |pending| && b == pending[..BLOCK] && bs' == bs + [b]
    ensures Flat(bs') + pending[BLOCK..] == Flat(bs) + pending
  {
    OneMoreBlock(bs, b, bs');
    assert pending == b + pending[BLOCK..];
    Reassociate(Flat(bs), b, pending[BLOCK..]);
  }

  /** Taking one block moves the reader and leaves the rest. */
  lemma BlockTaken(buf: seq<Word>, wr: nat, rd: nat)
    requires wr < COUNT && rd < COUNT && |buf| == COUNT && BLOCK <= AvailOf(wr, rd)
    ensures var p := PendingOf(buf, wr, rd);
            && PendingOf(buf, wr, (rd + BLOCK) % COUNT) == p[BLOCK..] && Window(buf, rd, BLOCK) == p[..BLOCK]
  {
    var avail := AvailOf(wr, rd);
    assert (rd + BLOCK) % COUNT == Wrap(rd + BLOCK, COUNT);
    assert AvailOf(wr, (rd + BLOCK) % COUNT) == avail - BLOCK;
    WindowTake(buf, rd, avail, BLOCK);
    WindowDrop(buf, rd, avail, BLOCK);
  }

  /** A block that has been copied is taken out and is the frame of its words. */
  lemma BlockCommitted(buf: seq<Word>, wr: nat, rd: nat, prd: nat, block: seq<byte>, bs: seq<seq<Word>>,
      bs': seq<seq<Word>>)
    requires wr < COUNT && rd < COUNT && |buf| == COUNT && prd == rd + BLOCK
    requires PackingOf(Copying(prd, 0), block, PendingOf(buf, wr, rd), bs) && bs' == bs + [Window(buf, rd, BLOCK)]
    ensures bs' == bs + [PendingOf(buf, wr, rd)[..BLOCK]]
    ensures Flat(bs') + PendingOf(buf, wr, prd % COUNT) == Flat(bs) + PendingOf(buf, wr, rd)
    ensures PackingOf(Framed, block, PendingOf(buf, wr, prd % COUNT), bs')
  {
    var pending := PendingOf(buf, wr, rd);
    BlockTaken(buf, wr, rd);
    BlockFramed(prd, block, pending, bs);
    BlockMoves(bs, pending[..BLOCK], bs', pending);
  }

  // ---------------------------------------------------------------- interrupt and packing

  class Capture {
    const dataBuffer: array<Word>
    const block: array<byte>
    var wr: nat
    var rd: nat
    var wakeupcnt: nat
    var start: bool
    var drain: Drain
    /** Every word stored since the start, every block taken out, and whether an interrupt ever came too far ahead. */
    ghost var produced: seq<Word>
    ghost var blocks: seq<seq<Word>>
    ghost var overrun: bool

    constructor ()
      ensures Valid() && fresh(dataBuffer) && fresh(block)
      ensures produced == [] && blocks == [] && !overrun && drain == Idle
    {
      dataBuffer, block := new Word[COUNT](_ => 0), new byte[2 + BYTES](_ => 0);
      wr, rd, wakeupcnt, start, drain := 0, 0, 512, true, Idle;
      produced, blocks, overrun := [], [], false;
    }

    ghost function Avail(): nat
      requires wr < COUNT && rd < COUNT
      reads this
    {
      AvailOf(wr, rd)
    }

    ghost function Pending(): seq<Word>
      requires wr < COUNT && rd < COUNT && dataBuffer.Length == COUNT
      reads this, dataBuffer
    {
      PendingOf(dataBuffer[..], wr, rd)
    }

    ghost predicate Shape()
      reads this
    {
      && dataBuffer.Length == COUNT && block.Length == 2 + BYTES
      && wr < COUNT && rd < COUNT && wr % BURST == 0 && WholeBlocks(blocks)
      && (drain.Copying? ==> drain.left <= BLOCK && drain.prd == rd + (BLOCK - drain.left))
      && (drain.Framed? ==> blocks != [])
    }

    ghost predicate Valid()
      reads this, dataBuffer, block
    {
      && Shape()
      && (!overrun ==> produced == Flat(blocks) + Pending() && PackingOf(drain, block[..], Pending(), blocks))
    }

    ghost function Now(): Sampling
      reads this
    {
      Sampling(start, wakeupcnt, produced, blocks, PhaseOf(drain), overrun)
    }

    /** The words between the indices are those produced and not yet taken out. */
    lemma PendingWait()
      requires Valid() && !overrun
      ensures Waiting(Now()) == Avail() == |Pending()|
      ensures BLOCK <= Avail() ==> NextBlock(Now()) == Pending()[..BLOCK]
    {
      FlatLength(blocks);
      assert produced[BLOCK * |blocks|..] == Pending();
    }

    /** dma_i2s_isr(), with the words that the DMA has left in its buffer. */
    method Isr(words: seq<Word>)
      requires Valid() && |words| == BURST
      modifies `wr, `wakeupcnt, `produced, `overrun, dataBuffer
      ensures Valid()
      ensures produced == old(produced) + (if start && old(wakeupcnt) == 0 then words else [])
      ensures wakeupcnt == if start && old(wakeupcnt) != 0 then old(wakeupcnt) - 1 else old(wakeupcnt)
      ensures overrun == (old(overrun) || (start && old(wakeupcnt) == 0 && COUNT <= old(Avail()) + BURST))
      ensures HandedOn(Now()) == old(HandedOn(Now()))
      ensures !old(overrun) ==> Now() == Sampled(old(Now()), Interrupt(words))
    {
      if !overrun { PendingWait(); }
      if !start {
        return;
      }
      if wakeupcnt != 0 {
        wakeupcnt := wakeupcnt - 1;
      } else {
        Store(words);
      }
    }

    method Store(words: seq<Word>)
      requires Valid() && |words| == BURST
      modifies `wr, `produced, `overrun, dataBuffer
      ensures Valid() && produced == old(produced) + words
      ensures overrun == (old(overrun) || COUNT <= old(Avail()) + BURST)
    {
      ghost var pending := Pending();
      overrun := overrun || COUNT <= Avail() + BURST;
      produced := produced + words;
      if !overrun { BurstAppends(dataBuffer[..], wr, rd, words); }
      StoreBurst(words);
      if !overrun {
        assert Flat(blocks) + pending + words == Flat(blocks) + Pending();
        PackingGoesOn(drain, block[..], pending, words, blocks);
      }
    }

    method StoreBurst(words: seq<Word>)
      requires dataBuffer.Length == COUNT && wr < COUNT && wr % BURST == 0 && |words| == BURST
      modifies `wr, dataBuffer
      ensures wr == (old(wr) + BURST) % COUNT && wr % BURST == 0
      ensures dataBuffer[..] == old(dataBuffer[..wr]) + words + old(dataBuffer[wr + BURST..])
    {
      ghost var at, buf := wr, dataBuffer[..];
      wr := wr % COUNT;
      for i := 0 to BURST
        invariant wr == at + i && dataBuffer[..] == buf[..at] + words[..i] + buf[at + i..]
      {
        dataBuffer[wr] := words[i];
        OneMoreStored(buf, at, words, i);
        wr := wr + 1;
      }
      wr := wr % COUNT;
    }

    /** The start of task_data_out(): both indices are read once, and a call with too few words ends here. */
    method Snapshot()
      requires Valid() && drain == Idle
      modifies `drain, block
      ensures Valid() && drain == (if Avail() < BLOCK then Idle else Copying(rd, BLOCK))
          && HandedOn(Now()) == old(HandedOn(Now()))
      ensures !overrun ==> Now() == Sampled(old(Now()), Look)
    {
      if !overrun { PendingWait(); }
      var prd, pwr := rd, wr;
      var size := 0;
      if pwr < prd {
        size := COUNT - prd + pwr;
      } else if pwr > prd {
        size := pwr - prd;
      }
      if size < BLOCK {
        return;
      }
      block[0], block[1] := BYTES, COMMAND;
      drain := Copying(prd, BLOCK);
      assert Pending()[..0] == [] && block[..][2..2] == [];
    }

    /** One turn of the copying loops; the index goes on from the beginning of the buffer after its end. */
    method CopyWord()
      requires Valid() && drain.Copying? && drain.left != 0
      modifies `drain, block
      ensures Valid() && drain == Copying(old(drain).prd + 1, old(drain).left - 1)
          && HandedOn(Now()) == old(HandedOn(Now()))
      ensures Now() == Sampled(old(Now()), CopyOne)
    {
      var prd, left := drain.prd, drain.left;
      var w := dataBuffer[if prd < COUNT then prd else prd - COUNT];
      ghost var block0, pending := block[..], Pending();
      assert !overrun ==> w == dataBuffer[..][Wrap(rd + (BLOCK - left), COUNT)] == pending[BLOCK - left];
      StoreBytes(BLOCK - left, w);
      drain := Copying(prd + 1, left - 1);
      if !overrun {
        WordCopied(prd, left, block0, block[..], Pending(), blocks);
      }
    }

    method StoreBytes(k: nat, w: Word)
      requires k < BLOCK && block.Length == 2 + BYTES
      modifies block
      ensures block[..][0] == old(block[..])[0] && block[..][1] == old(block[..])[1]
      ensures block[..][2..2 + 3 * (k + 1)] == old(block[..])[2..2 + 3 * k] + Pack(w)
    {
      block[2 + 3 * k], block[3 + 3 * k], block[4 + 3 * k] := w % 256, w / 256 % 256, w / 65536 % 256;
    }

    /** The end of the copying: the block is out of the buffer. */
    method Commit()
      requires Valid() && drain.Copying? && drain.left == 0
      modifies `drain, `rd, `blocks
      ensures Valid() && drain == Framed && |blocks| == |old(blocks)| + 1 && HandedOn(Now()) == old(blocks)
      ensures !overrun ==> Now() == Sampled(old(Now()), TakeOut)
    {
      ghost var b := Window(dataBuffer[..], rd, BLOCK);
      if !overrun {
        PendingWait();
        BlockCommitted(dataBuffer[..], wr, rd, drain.prd, block[..], blocks, blocks + [b]);
      }
      MoveReader(b);
    }

    method MoveReader(ghost b: seq<Word>)
      requires Shape() && drain.Copying? && |b| == BLOCK
      modifies `drain, `rd, `blocks
      ensures Shape() && drain == Framed && rd == old(drain).prd % COUNT
      ensures blocks == old(blocks) + [b] && HandedOn(Now()) == old(blocks)
    {
      rd := drain.prd % COUNT;
      blocks := blocks + [b];
      drain := Framed;
      assert blocks[..|blocks| - 1] == old(blocks);
    }

    /** The steps of task_data_out() in a row, up to the finished block. */
    method TakeBlock()
      requires Valid() && drain == Idle
      modifies `drain, `rd, `blocks, block
      ensures Valid() && HandedOn(Now()) == old(HandedOn(Now()))
      ensures drain == (if old(Avail()) < BLOCK then Idle else Framed)
      ensures |blocks| == |old(blocks)| + (if old(Avail()) < BLOCK then 0 else 1)
      ensures !overrun ==> Now() == SampledAll(old(Now()), Drained(BLOCK <= old(Avail())))
    {
      ghost var start := Now();
      FirstSample(start);
      Snapshot();
      if drain.Copying? {
        CopyBlock(start);
        OneMoreSample(start, CallSoFar(BLOCK), TakeOut);
        Commit();
      }
    }

    /** The copying loops. */
    method CopyBlock(ghost start: Sampling)
      requires Valid() && drain == Copying(rd, BLOCK) && (!overrun ==> Now() == SampledAll(start, CallSoFar(0)))
      modifies `drain, block
      ensures Valid() && drain.Copying? && drain.left == 0
      ensures !overrun ==> Now() == SampledAll(start, CallSoFar(BLOCK))
    {
      ghost var k, now := 0, Now();
      while drain.left != 0
        invariant Valid() && drain.Copying? && k + drain.left == BLOCK && now == Now()
        invariant !overrun ==> now == SampledAll(start, CallSoFar(k))
        decreases drain.left
      {
        OneMoreCopy(start, k);
        CopyWord();
        k, now := k + 1, Now();
      }
    }

    /** One step but the last, if it is that step's turn. */
    method Advance(e: Event)
      requires Valid() && (e.Interrupt? ==> |e.words| == BURST)
      modifies this, dataBuffer, block
      ensures Valid() && old(produced) <= produced && (old(overrun) ==> overrun)
      ensures HandedOn(Now()) == old(HandedOn(Now()))
      ensures !old(overrun) ==> Now() == Sampled(old(Now()), e)
    {
      match e {
        case Interrupt(words) => Isr(words);
        case Look => if drain == Idle { Snapshot(); }
        case CopyOne => if drain.Copying? && drain.left != 0 { CopyWord(); }
        case TakeOut => if drain.Copying? && drain.left == 0 { Commit(); }
        case _ =>
      }
    }

    /** The return from task_data_out(). */
    method Return()
      requires Valid() && drain == Framed
      modifies `drain
      ensures Valid() && drain == Idle && Now() == old(Now()).(phase := Resting)
    {
      drain := Idle;
    }
  }

  // ---------------------------------------------------------------- ring and bus

  class Sender {
    const ring: RingBuffer
    const writeBuffer: array<byte>
    var busy: bool
    var sending: bool
    var inFlight: Option<nat>
    /** All bytes that the ring ever took, all packets the host ever got, and what each read of the ring handed over. */
    ghost var accepted: seq<byte>
    ghost var wire: seq<seq<byte>>
    ghost var chunks: seq<seq<byte>>

    constructor (ring: RingBuffer)
      requires ring.Valid() && ring.Contents() == [] && ring.size == RING_SIZE
      ensures Valid() && this.ring == ring && fresh(writeBuffer) && accepted == [] && wire == []
    {
      this.ring := ring;
      writeBuffer := new byte[TX_SIZE](_ => 0);
      busy, sending, inFlight := false, false, None;
      accepted, wire, chunks := [], [], [];
    }

    ghost function Flight(): Option<seq<byte>>
      requires inFlight.Some? ==> inFlight.value < writeBuffer.Length
      reads this, writeBuffer
    {
      if inFlight.Some? then Some(writeBuffer[..inFlight.value]) else None
    }

    ghost predicate Shape()
      reads this, ring, ring.pointer
    {
      && ring.Valid() && ring.size == RING_SIZE && writeBuffer != ring.pointer && writeBuffer.Length == TX_SIZE
      && busy == (inFlight.Some? || sending) && (inFlight.Some? ==> inFlight.value < TX_SIZE)
    }

    ghost function Now(): Sending
      requires Shape()
      reads this, ring, ring.pointer, writeBuffer
    {
      Sending(accepted, ring.Contents(), Flight(), sending, wire, chunks)
    }

    ghost predicate Valid()
      reads this, ring, ring.pointer, writeBuffer
    {
      Shape() && SendingOk(Now())
    }

    /** Ring_Buffer_Write() */
    method Accept(data: seq<byte>) returns (n: nat)
      requires Valid()
      modifies `accepted, ring`writeIndex, ring`writeMirror, ring.pointer
      ensures Valid() && n == Min(|data|, RING_SIZE - |old(ring.Contents())|)
      ensures Now() == Taken(old(Now()), data)
    {
      ghost var now := Now();
      TakenKeeps(now, data);
      n := ring.Write(data);
      accepted := accepted + data[..n];
      assert Flight() == now.flight;
    }

    /** usbd_ep_start_write(): the controller takes one transfer at a time. */
    method StartWrite(len: nat)
      requires inFlight == None && len < TX_SIZE
      modifies `inFlight
      ensures inFlight == Some(len)
    {
      inFlight := Some(len);
    }

    /** The start of usb_dc_send_from_ringbuffer(), once the wait is over. */
    method BeginSend()
      requires Valid() && !busy
      modifies `busy, `sending
      ensures Valid() && sending && Now() == Transferred(old(Now()), Begin)
    {
      busy := true;
      sending := true;
    }

    /** Its end: whatever the ring holds becomes one transfer. */
    method ReadRing()
      requires Valid() && sending
      modifies `busy, `sending, `inFlight, `chunks, ring`readIndex, ring`readMirror, writeBuffer
      ensures Valid() && !sending
      ensures inFlight == if old(ring.Contents()) == [] then None else Some(Min(TX_SIZE - 1, |old(ring.Contents())|))
      ensures Now() == Transferred(old(Now()), Fetch)
    {
      ghost var now := Now();
      FetchKeeps(now);
      var len := FetchChunk();
      sending := false;
      if len != 0 {
        StartWrite(len);
        chunks := chunks + [now.stored[..len]];
      } else {
        busy := false;
      }
      assert Flight() == Transferred(now, Fetch).flight;
    }

    method FetchChunk() returns (len: nat)
      requires ring.Valid() && writeBuffer != ring.pointer && writeBuffer.Length == TX_SIZE
      modifies ring`readIndex, ring`readMirror, writeBuffer
      ensures ring.Valid() && len == Min(TX_SIZE - 1, |old(ring.Contents())|)
      ensures writeBuffer[..len] == old(ring.Contents())[..len] && ring.Contents() == old(ring.Contents())[len..]
      ensures len == 0 ==> ring.Contents() == old(ring.Contents())
    {
      len := ring.Read(writeBuffer, TX_SIZE - 1);
    }

    /** The host has taken the transfer; the callback ends it with a zero-length packet where it must. */
    method Complete()
      requires Valid() && inFlight.Some?
      modifies `busy, `inFlight, `wire
      ensures Valid()
      ensures inFlight == if old(inFlight.value) != 0 && old(inFlight.value) % PACKET == 0 then Some(0) else None
      ensures Now() == Transferred(old(Now()), Arrived)
    {
      ghost var now := Now();
      ArrivedKeeps(now);
      var n := inFlight.value;
      assert n == |now.flight.value|;
      wire := Transferred(now, Arrived).wire;
      inFlight := None;
      BulkIn(n);
      assert Flight() == Transferred(now, Arrived).flight;
    }

    /** One step, if it is that step's turn; a transfer begins when the last one is over. */
    method Advance(e: Event)
      requires Valid()
      modifies this, ring, writeBuffer
      ensures Valid() && Now() == Transferred(old(Now()), e)
    {
      match e {
        case Begin => if !busy { BeginSend(); }
        case Fetch => if sending { ReadRing(); }
        case Arrived => if inFlight.Some? { Complete(); }
        case _ =>
      }
    }

    /** usbd_cdc_acm_bulk_in() */
    method BulkIn(nbytes: nat)
      requires inFlight == None
      modifies `busy, `inFlight
      ensures inFlight == if nbytes % PACKET == 0 && nbytes != 0 then Some(0) else None
      ensures busy == if nbytes % PACKET == 0 && nbytes != 0 then old(busy) else false
    {
      if nbytes % PACKET == 0 && nbytes != 0 {
        StartWrite(0);
      } else {
        busy := false;
      }
    }
  }

  // ---------------------------------------------------------------- the whole path

  class Pipeline {
    const capture: Capture
    const sender: Sender
    var blkReadCount: nat
    var blkOverflowCnt: nat
    /** Blocks that went into the ring whole, and blocks that did not. */
    ghost var whole: nat
    ghost var short: nat

    constructor (capture: Capture, sender: Sender)
      requires capture.Valid() && sender.Valid() && sender.accepted == [] && capture.blocks == []
      requires capture.block != sender.writeBuffer && capture.block != sender.ring.pointer
      requires capture.dataBuffer as object != sender.writeBuffer && capture.dataBuffer as object != sender.ring.pointer
      ensures Valid() && this.capture == capture && this.sender == sender && short == 0
    {
      this.capture, this.sender := capture, sender;
      blkReadCount, blkOverflowCnt, whole, short := 0, 0, 0, 0;
    }

    ghost predicate Apart()
      reads sender, sender.ring
    {
      && capture.block != sender.writeBuffer && capture.block != sender.ring.pointer
      && capture.dataBuffer as object != sender.writeBuffer && capture.dataBuffer as object != sender.ring.pointer
    }

    ghost function Now(): Path
      requires sender.Shape()
      reads this, capture, sender, sender.ring, sender.ring.pointer, sender.writeBuffer
    {
      Path(capture.Now(), sender.Now(), whole, short)
    }

    ghost predicate Valid()
      reads this, capture, capture.dataBuffer, capture.block
      reads sender, sender.ring, sender.ring.pointer, sender.writeBuffer
    {
      && capture.Valid() && sender.Valid() && Apart() && BooksOk(Now())
      && blkReadCount == whole % TWO32 && blkOverflowCnt == short % TWO32
    }

    /** The end of task_data_out(): the block goes into the ring, and one of the counters goes up. */
    method WriteFrame()
      requires Valid() && capture.drain == Framed
      modifies this, capture`drain, sender`accepted, sender.ring`writeIndex, sender.ring`writeMirror,
          sender.ring.pointer
      ensures Valid() && capture.drain == Idle
      ensures var full := |old(sender.ring.Contents())| + 2 + BYTES <= RING_SIZE;
              && whole == old(whole) + (if full then 1 else 0) && short == old(short) + (if full then 0 else 1)
      ensures capture.overrun == old(capture.overrun)
      ensures !capture.overrun ==> Now() == Handed(old(Now()))
    {
      ghost var p := Now();
      var n := HandFrame();
      Count(n == 2 + BYTES);
      HandedKeeps(p, Now());
    }

    /** Ring_Buffer_Write() with the block, and the return. */
    method HandFrame() returns (n: nat)
      requires Valid() && capture.drain == Framed
      modifies capture`drain, sender`accepted, sender.ring`writeIndex, sender.ring`writeMirror, sender.ring.pointer
      ensures capture.Valid() && sender.Valid() && capture.drain == Idle
      ensures n == Min(2 + BYTES, RING_SIZE - |old(sender.ring.Contents())|)
      ensures capture.Now() == old(capture.Now()).(phase := Resting)
      ensures !capture.overrun ==>
        sender.Now() == Taken(old(sender.Now()), Frame(capture.blocks[|capture.blocks| - 1]))
    {
      var frame := capture.block[..];
      n := sender.Accept(frame);
      assert capture.Valid() && capture.block[..] == frame;
      ghost var now := sender.Now();
      capture.Return();
      assert sender.Valid() && sender.Now() == now;
    }

    method Count(full: bool)
      modifies this
      requires blkReadCount == whole % TWO32 && blkOverflowCnt == short % TWO32
      ensures blkReadCount == whole % TWO32 && blkOverflowCnt == short % TWO32
      ensures whole == old(whole) + (if full then 1 else 0) && short == old(short) + (if full then 0 else 1)
    {
      if full {
        blkReadCount := (blkReadCount + 1) % TWO32;
        whole := whole + 1;
      } else {
        blkOverflowCnt := (blkOverflowCnt + 1) % TWO32;
        short := short + 1;
      }
    }

    /** A step of the sampling side that hands nothing on leaves the rest as it was. */
    twostate lemma StillValid()
      requires old(Valid()) && capture.Valid()
      requires HandedOn(capture.Now()) == old(HandedOn(capture.Now())) && (old(capture.overrun) ==> capture.overrun)
      requires unchanged(this, sender, sender.ring, sender.ring.pointer, sender.writeBuffer)
      ensures Valid()
    {
    }

    /** One step of the sampling side, if it is that step's turn. An interrupt may come at any time. */
    method Sample(e: Event)
      requires Valid() && (e.Interrupt? ==> |e.words| == BURST) && !OfSender(e) && e != Hand
      modifies capture, capture.dataBuffer, capture.block
      ensures Valid() && old(capture.produced) <= capture.produced
      ensures if old(capture.overrun) then capture.overrun else Now() == Step(old(Now()), e)
    {
      capture.Advance(e);
      StillValid();
    }

    /** A step of the sending side that takes nothing new leaves the rest as it was. */
    twostate lemma StillBooked()
      requires old(Valid()) && sender.Valid()
      requires sender.accepted == old(sender.accepted)
      requires unchanged(this, capture, capture.dataBuffer, capture.block)
      ensures Valid()
    {
    }

    /** One step of the sending side; a transfer begins when the last one is over. */
    method Send(e: Event)
      requires Valid() && OfSender(e)
      modifies sender, sender.ring, sender.writeBuffer
      ensures Valid() && old(Joined(sender.wire)) <= Joined(sender.wire)
      ensures if old(capture.overrun) then capture.overrun else Now() == Step(old(Now()), e)
    {
      TransferredKeeps(sender.Now(), e);
      sender.Advance(e);
      StillBooked();
    }

    method Perform(e: Event)
      requires Valid() && (e.Interrupt? ==> |e.words| == BURST)
      modifies this, capture, capture.dataBuffer, capture.block
      modifies sender, sender.ring, sender.ring.pointer, sender.writeBuffer
      ensures Valid() && old(capture.produced) <= capture.produced && old(Joined(sender.wire)) <= Joined(sender.wire)
      ensures if old(capture.overrun) then capture.overrun else Now() == Step(old(Now()), e)
    {
      if e == Hand {
        if capture.drain == Framed { WriteFrame(); }
      } else if OfSender(e) {
        Send(e);
      } else {
        Sample(e);
      }
    }

    /** task_data_out() without interruption: all its steps in a row, and no other. */
    method TaskDataOut()
      requires Valid() && capture.drain == Idle
      modifies this, capture`drain, capture`rd, capture`blocks, capture.block
      modifies sender`accepted, sender.ring`writeIndex, sender.ring`writeMirror, sender.ring.pointer
      ensures Valid() && capture.drain == Idle
      ensures |capture.blocks| == |old(capture.blocks)| + (if old(capture.Avail()) < BLOCK then 0 else 1)
      ensures !capture.overrun ==> Now() == Steps(old(Now()), Call(BLOCK <= old(capture.Avail())))
    {
      ghost var p, goesOn := Now(), BLOCK <= capture.Avail();
      capture.TakeBlock();
      StillValid();
      if !capture.overrun { CallIsSteps(p, goesOn, Now()); }
      if capture.drain == Framed {
        WriteFrame();
      }
    }

    /** In every run, however the steps follow each other: an interrupt comes too far ahead exactly when it does on
        values, and until then everything is as on values. If also every block fitted into the ring, the host reads
        from what it has received the low 24 bits of the first samples produced, in order and without a gap; and what
        it has received is cut into transfers exactly as it was handed to the controller. */
    method Run(events: seq<Event>)
      requires Valid() && forall i :: 0 <= i < |events| ==> events[i].Interrupt? ==> |events[i].words| == BURST
      modifies this, capture, capture.dataBuffer, capture.block
      modifies sender, sender.ring, sender.ring.pointer, sender.writeBuffer
      ensures Valid() && old(capture.produced) <= capture.produced && old(Joined(sender.wire)) <= Joined(sender.wire)
      ensures capture.overrun == Steps(old(Now()), events).sampling.overrun
      ensures !capture.overrun ==> Now() == Steps(old(Now()), events)
      ensures !capture.overrun && short == 0 ==> Delivered(Now())
      ensures !sender.busy ==> CutAt(sender.wire) == Cut(sender.chunks, [])
    {
      ghost var start := Now();
      for i := 0 to |events|
        invariant Valid() && old(capture.produced) <= capture.produced
        invariant old(Joined(sender.wire)) <= Joined(sender.wire)
        invariant capture.overrun == Steps(start, events[..i]).sampling.overrun
        invariant !capture.overrun ==> Now() == Steps(start, events[..i])
      {
        assert events[..i + 1][..i] == events[..i];
        Perform(events[i]);
      }
      assert events[..|events|] == events;
      if !capture.overrun && short == 0 { PathDelivers(Now()); }
    }
  }
}
