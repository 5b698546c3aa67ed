/** The byte formats between the sampler and the host: 24-bit packing, framed blocks, and USB packets. */
module SampleFrames {
  import opened RingSeq
  import opened Seqs

  type Word = w: int | 0 <= w < 0x1_0000_0000

  const BLOCK := 40      // samples in a block
  const BYTES := 120     // bytes in a block
  const COMMAND := 0x3A  // CMD_DEV_ADC
  const PACKET := 64     // largest USB packet

  // ---------------------------------------------------------------- blocks and frames

  /** The low 24 bits, least significant byte first. */
  function Pack(w: Word): seq<byte> {
    [w % 256, w / 256 % 256, w / 65536 % 256]
  }

  function Packed(ws: seq<Word>): (r: seq<byte>)
    ensures |r| == 3 * |ws|
  {
    if ws == [] then [] else Packed(ws[..|ws| - 1]) + Pack(ws[|ws| - 1])
  }

  /** A size byte, a command byte, and the data. */
  function Frame(ws: seq<Word>): (r: seq<byte>)
    ensures |r| == 2 + 3 * |ws|
  {
    [BYTES, COMMAND] + Packed(ws)
  }

  predicate WholeBlocks(bs: seq<seq<Word>>) {
    forall i :: 0 <= i < |bs| ==> |bs[i]| == BLOCK
  }

  /** The frames of a stream of blocks. */
  function Frames(bs: seq<seq<Word>>): seq<byte> {
    if bs == [] then [] else Frame(bs[0]) + Frames(bs[1..])
  }

  /** The samples of a stream of blocks. */
  function Flat(bs: seq<seq<Word>>): seq<Word> {
    if bs == [] then [] else bs[0] + Flat(bs[1..])
  }

  lemma {:induction false} OneMoreFrame(bs: seq<seq<Word>>, b: seq<Word>, bs': seq<seq<Word>>)
    requires bs' == bs + [b]
    ensures Frames(bs') == Frames(bs) + Frame(b)
  {
    if bs == [] {
      assert bs'[1..] == [] && Frame(b) + [] == Frame(b) == [] + Frame(b);
    } else {
      assert bs'[1..] == bs[1..] + [b];
      OneMoreFrame(bs[1..], b, bs'[1..]);
      Reassociate(Frame(bs[0]), Frames(bs[1..]), Frame(b));
    }
  }

  lemma {:induction false} OneMoreBlock(bs: seq<seq<Word>>, b: seq<Word>, bs': seq<seq<Word>>)
    requires bs' == bs + [b]
    ensures Flat(bs') == Flat(bs) + b
  {
    if bs == [] {
      assert bs'[1..] == [] && b + [] == b == [] + b;
    } else {
      assert bs'[1..] == bs[1..] + [b];
      OneMoreBlock(bs[1..], b, bs'[1..]);
      assert bs[0] + Flat(bs[1..]) + b == bs[0] + (Flat(bs[1..]) + b);
    }
  }

  // ---------------------------------------------------------------- the host's side

  /** Splits a byte stream by the size bytes; a last frame that is not complete is left over. */
  function Blocks(s: seq<byte>): seq<seq<byte>> {
    if |s| < 2 then [] else
    var end: int := s[0] as int + 2;
    if |s| < end then [] else [s[2..end]] + Blocks(s[end..])
  }

  function Unpacked(b: seq<byte>): seq<int> {
    if |b| < 3 then [] else [b[0] + 256 * b[1] + 65536 * b[2]] + Unpacked(b[3..])
  }

  /** All samples that the host can take out of a byte stream. */
  function Samples(s: seq<byte>): seq<int> {
    SamplesOf(Blocks(s))
  }

  function SamplesOf(bs: seq<seq<byte>>): seq<int> {
    if bs == [] then [] else Unpacked(bs[0]) + SamplesOf(bs[1..])
  }

  function Low24(ws: seq<Word>): (r: seq<int>)
    ensures |r| == |ws|
  {
    seq(|ws|, i requires 0 <= i < |ws| => ws[i] % 0x100_0000)
  }

  lemma {:induction false} UnpackedOfConcat(a: seq<byte>, w: Word)
    requires |a| % 3 == 0
    ensures Unpacked(a + Pack(w)) == Unpacked(a) + [w % 0x100_0000]
  {
    if a == [] {
      assert a + Pack(w) == Pack(w) && Pack(w)[3..] == [];
      PackKeepsLow24(w);
    } else {
      UnpackedOfConcat(a[3..], w);
      assert (a + Pack(w))[3..] == a[3..] + Pack(w);
    }
  }

  lemma PackKeepsLow24(w: Word)
    ensures w % 256 + 256 * (w / 256 % 256) + 65536 * (w / 65536 % 256) == w % 0x100_0000
  {
    assert w / 65536 == w / 256 / 256;
  }

  lemma {:induction false} UnpackInvertsPack(ws: seq<Word>)
    ensures Unpacked(Packed(ws)) == Low24(ws)
  {
    if ws != [] {
      var n := |ws| - 1;
      UnpackInvertsPack(ws[..n]);
      UnpackedOfConcat(Packed(ws[..n]), ws[n]);
      assert Low24(ws) == Low24(ws[..n]) + [ws[n] % 0x100_0000];
    }
  }

  /** The host takes the first frame off the stream. */
  lemma {:induction false} HostReadsFrame(b: seq<Word>, s: seq<byte>, rest: seq<byte>)
    requires |b| == BLOCK && s == Frame(b) + rest
    ensures Samples(s) == Low24(b) + Samples(rest)
  {
    UnpackInvertsPack(b);
    assert s[0] == BYTES && s[2..2 + BYTES] == Packed(b) && s[2 + BYTES..] == rest;
    assert Blocks(s) == [Packed(b)] + Blocks(rest);
    assert Blocks(s)[1..] == Blocks(rest);
  }

  lemma {:induction false} Low24OfConcat(a: seq<Word>, b: seq<Word>)
    ensures Low24(a + b) == Low24(a) + Low24(b)
  {
  }

  function FramesIn(s: seq<byte>): nat { |s| / (2 + BYTES) }

  /** Whatever part of the frames has arrived, the host reads from it the samples of all frames that arrived whole,
      in order, and no other. */
  lemma {:induction false} HostReadsSamples(s: seq<byte>, bs: seq<seq<Word>>)
    requires WholeBlocks(bs) && s <= Frames(bs)
    ensures FramesIn(s) <= |bs| && Samples(s) == Low24(Flat(bs[..FramesIn(s)]))
    decreases |bs|
  {
    if |s| < 2 + BYTES {
      HostWaits(s, bs);
    } else {
      FirstFrame(s, bs);
      HostReadsSamples(s[2 + BYTES..], bs[1..]);
      OneFrameMore(s, s[2 + BYTES..], bs, bs[1..]);
    }
  }

  lemma OneFrameMore(s: seq<byte>, rest: seq<byte>, bs: seq<seq<Word>>, more: seq<seq<Word>>)
    requires bs != [] && |bs[0]| == BLOCK && more == bs[1..] && s == Frame(bs[0]) + rest
    requires FramesIn(rest) <= |more| && Samples(rest) == Low24(Flat(more[..FramesIn(rest)]))
    ensures FramesIn(s) <= |bs| && Samples(s) == Low24(Flat(bs[..FramesIn(s)]))
  {
    assert FramesIn(s) == FramesIn(rest) + 1;
    HostReadsFrame(bs[0], s, rest);
    FlatFirst(bs, FramesIn(s));
  }

  lemma FlatFirst(bs: seq<seq<Word>>, n: nat)
    requires 0 < n <= |bs|
    ensures Low24(Flat(bs[..n])) == Low24(bs[0]) + Low24(Flat(bs[1..][..n - 1]))
  {
    assert bs[..n][1..] == bs[1..][..n - 1];
    Low24OfConcat(bs[0], Flat(bs[1..][..n - 1]));
  }

  lemma HostWaits(s: seq<byte>, bs: seq<seq<Word>>)
    requires WholeBlocks(bs) && s <= Frames(bs) && |s| < 2 + BYTES
    ensures Samples(s) == [] && FramesIn(s) == 0
  {
    if 2 <= |s| {
      assert s[0] == Frames(bs)[0] == Frame(bs[0])[0] == BYTES;
    }
    assert Blocks(s) == [];
  }

  lemma FirstFrame(s: seq<byte>, bs: seq<seq<Word>>)
    requires WholeBlocks(bs) && s <= Frames(bs) && 2 + BYTES <= |s|
    ensures bs != [] && s == Frame(bs[0]) + s[2 + BYTES..] && s[2 + BYTES..] <= Frames(bs[1..])
  {
    var f := Frames(bs);
    assert f[..2 + BYTES] == Frame(bs[0]) && f[2 + BYTES..] == Frames(bs[1..]);
    assert s == f[..|s|];
  }

  // ---------------------------------------------------------------- packets on the bus

  function Joined(wire: seq<seq<byte>>): seq<byte> {
    if wire == [] then [] else Joined(wire[..|wire| - 1]) + wire[|wire| - 1]
  }

  /** What the controller makes of one write: full packets, and a short one for what is left over. */
  function Packets(d: seq<byte>): seq<seq<byte>> {
    if d == [] then [] else if |d| <= PACKET then [d] else [d[..PACKET]] + Packets(d[PACKET..])
  }

  /** A transfer of the host ends with the first packet that is not full. */
  datatype Cut = Cut(transfers: seq<seq<byte>>, open: seq<byte>)

  function CutAt(wire: seq<seq<byte>>): Cut {
    if wire == [] then Cut([], []) else Extend(CutAt(wire[..|wire| - 1]), wire[|wire| - 1])
  }

  function Extend(c: Cut, p: seq<byte>): Cut {
    if |p| == PACKET then Cut(c.transfers, c.open + p) else Cut(c.transfers + [c.open + p], [])
  }

  /** What data sent in packets does to the transfers: data that is not a multiple of the packet size closes one, data
      that is leaves it open. */
  function Sent(c: Cut, d: seq<byte>): Cut {
    if |d| % PACKET == 0 then Cut(c.transfers, c.open + d) else Cut(c.transfers + [c.open + d], [])
  }

  lemma {:induction false} OnePacket(wire: seq<seq<byte>>, p: seq<byte>, wire': seq<seq<byte>>)
    requires wire' == wire + [p]
    ensures Joined(wire') == Joined(wire) + p && CutAt(wire') == Extend(CutAt(wire), p)
  {
    assert wire'[..|wire|] == wire;
  }

  lemma {:induction false} PacketsCarry(wire: seq<seq<byte>>, d: seq<byte>, wire': seq<seq<byte>>)
    requires wire' == wire + Packets(d)
    ensures Joined(wire') == Joined(wire) + d && CutAt(wire') == Sent(CutAt(wire), d)
    decreases |d|
  {
    if d == [] {
      assert wire' == wire;
    } else if |d| <= PACKET {
      OnePacket(wire, d, wire');
    } else {
      var p, rest := d[..PACKET], d[PACKET..];
      var mid := wire + [p];
      assert wire' == mid + Packets(rest);
      PacketsCarry(mid, rest, wire');
      OnePacket(wire, p, mid);
      SentInTwo(CutAt(wire), p, rest);
      Reassociate(Joined(wire), p, rest);
      assert d == p + rest;
    }
  }

  lemma SentInTwo(c: Cut, p: seq<byte>, rest: seq<byte>)
    requires |p| == PACKET
    ensures Sent(Extend(c, p), rest) == Sent(c, p + rest)
  {
    assert c.open + p + rest == c.open + (p + rest);
  }

  lemma {:induction false} PacketsFit(d: seq<byte>)
    ensures forall i :: 0 <= i < |Packets(d)| ==> 0 < |Packets(d)[i]| <= PACKET
  {
    if |d| > PACKET { PacketsFit(d[PACKET..]); }
  }
}
