/** The byte ring whose read and write indices each carry a mirror bit, so that full and empty can be told apart
    without giving up a byte. */
module MirrorRing {
  import opened Numbers
  import opened RingSeq

  datatype Status = Empty | Partial | Full

  /** ~m on the eight bits of a mirror. */
  function Complement(m: byte): byte { 255 - m }

  class RingBuffer {
    const pointer: array<byte>
    const size: nat
    var readMirror: byte
    var readIndex: nat
    var writeMirror: byte
    var writeIndex: nat

    /** The indices stay inside the buffer, the mirrors are 0 or 255, and with equal mirrors the writer is ahead of
        the reader, with different ones behind it. No 32-bit sum or difference of the code wraps around. */
    ghost predicate Valid()
      reads this, pointer
    {
      && 0 < size == pointer.Length && size < 0x1_0000_0000
      && readIndex < size && writeIndex < size
      && (readMirror == 0 || readMirror == 255) && (writeMirror == 0 || writeMirror == 255)
      && (readMirror == writeMirror ==> readIndex <= writeIndex)
      && (readMirror != writeMirror ==> writeIndex <= readIndex)
    }

    ghost function Len(): (n: nat)
      requires Valid()
      reads this, pointer
      ensures n <= size
    {
      if readMirror == writeMirror then writeIndex - readIndex else size - (readIndex - writeIndex)
    }

    /** The stored bytes, oldest first. */
    ghost function Contents(): (s: seq<byte>)
      requires Valid()
      reads this, pointer
      ensures |s| == Len()
    {
      Window(pointer[..], readIndex, Len())
    }

    constructor (buffer: array<byte>)
      requires 0 < buffer.Length < 0x1_0000_0000
      ensures Valid() && pointer == buffer && size == buffer.Length && Contents() == []
      ensures readMirror == writeMirror == 0
    {
      pointer := buffer;
      readMirror, readIndex := 0, 0;
      writeMirror, writeIndex := 0, 0;
      size := buffer.Length;
    }

    method Reset()
      requires Valid()
      modifies this
      ensures Valid() && Contents() == []
    {
      readMirror, readIndex := 0, 0;
      writeMirror, writeIndex := 0, 0;
    }

    method GetLength() returns (n: nat)
      requires Valid()
      ensures n == |Contents()|
    {
      if readMirror == writeMirror {
        n := writeIndex - readIndex;
      } else {
        n := size - (readIndex - writeIndex);
      }
    }

    method GetEmptyLength() returns (n: nat)
      requires Valid()
      ensures n == size - |Contents()|
    {
      var len := GetLength();
      n := size - len;
    }

    method GetStatus() returns (s: Status)
      requires Valid()
      ensures s == Empty <==> Contents() == []
      ensures s == Full <==> |Contents()| == size
    {
      if readIndex == writeIndex {
        if readMirror == writeMirror { s := Empty; } else { s := Full; }
      } else {
        s := Partial;
      }
    }

    /** The part of a bulk write that runs under the lock. `sizeRemained` was measured before; it may be less than
        the room there is by now, never more. */
    method LockedWrite(sizeRemained: nat, data: seq<byte>) returns (n: nat)
      requires Valid() && sizeRemained <= size - |Contents()|
      modifies this`writeIndex, this`writeMirror, pointer
      ensures Valid() && n == Min(|data|, sizeRemained)
      ensures Contents() == old(Contents()) + data[..n]
    {
      if sizeRemained == 0 {
        return 0;
      }
      n := Min(|data|, sizeRemained);
      ghost var len := Len();
      ghost var buf := pointer[..];
      CopyIn(pointer, writeIndex, data[..n]);
      var rem := size - writeIndex;
      assert writeIndex == Wrap(readIndex + len, size);
      WindowAppend(buf, readIndex, len, data[..n]);
      if rem > n {
        writeIndex := writeIndex + n;
      } else {
        writeIndex := n - rem;
        writeMirror := Complement(writeMirror);
      }
      assert Len() == len + n;
    }

    /** Ring_Buffer_Write: as much of the data as there is room for. */
    method Write(data: seq<byte>) returns (n: nat)
      requires Valid()
      modifies this`writeIndex, this`writeMirror, pointer
      ensures Valid() && n == Min(|data|, size - |old(Contents())|)
      ensures Contents() == old(Contents()) + data[..n]
    {
      var sizeRemained := GetEmptyLength();
      n := LockedWrite(sizeRemained, data);
    }

    method WriteByte(data: byte) returns (n: nat)
      requires Valid()
      modifies this`writeIndex, this`writeMirror, pointer
      ensures Valid() && n == Min(1, size - |old(Contents())|)
      ensures Contents() == old(Contents()) + [data][..n]
    {
      var empty := GetEmptyLength();
      if empty == 0 {
        return 0;
      }
      ghost var len := Len();
      ghost var buf := pointer[..];
      assert writeIndex == Wrap(readIndex + len, size);
      pointer[writeIndex] := data;
      assert pointer[..] == Put(buf, writeIndex, [data]);
      WindowAppend(buf, readIndex, len, [data]);
      if writeIndex != size - 1 {
        writeIndex := writeIndex + 1;
      } else {
        writeIndex := 0;
        writeMirror := Complement(writeMirror);
      }
      assert Len() == len + 1;
      return 1;
    }

    /** The part of a bulk read that runs under the lock; `avail` was measured before. */
    method LockedRead(avail: nat, data: array<byte>, length: nat) returns (n: nat)
      requires Valid() && avail <= |Contents()| && data != pointer && Min(length, avail) <= data.Length
      modifies this`readIndex, this`readMirror, data
      ensures Valid() && n == Min(length, avail)
      ensures data[..] == old(Contents())[..n] + old(data[n..])
      ensures Contents() == old(Contents())[n..]
    {
      n := Min(length, avail);
      if avail == 0 {
        return;
      }
      ghost var len := Len();
      CopyOut(pointer, readIndex, data, n);
      WindowTake(pointer[..], readIndex, len, n);
      WindowDrop(pointer[..], readIndex, len, n);
      var rem := size - readIndex;
      if rem > n {
        readIndex := readIndex + n;
      } else {
        readIndex := n - rem;
        readMirror := Complement(readMirror);
      }
      assert Len() == len - n;
    }

    /** Ring_Buffer_Read: as much as is asked for and there. */
    method Read(data: array<byte>, length: nat) returns (n: nat)
      requires Valid() && data != pointer && Min(length, |Contents()|) <= data.Length
      modifies this`readIndex, this`readMirror, data
      ensures Valid() && n == Min(length, |old(Contents())|)
      ensures data[..] == old(Contents())[..n] + old(data[n..])
      ensures Contents() == old(Contents())[n..]
    {
      var avail := GetLength();
      n := LockedRead(avail, data, length);
    }

    /** Returns 0 and no byte, or 1 and the oldest byte. */
    method ReadByte() returns (n: nat, data: byte)
      requires Valid()
      modifies this`readIndex, this`readMirror
      ensures Valid() && n == Min(1, |old(Contents())|)
      ensures n == 1 ==> data == old(Contents())[0]
      ensures Contents() == old(Contents())[n..]
    {
      var len := GetLength();
      if len == 0 {
        return 0, 0;
      }
      data := pointer[readIndex];
      assert Contents()[0] == pointer[..][Wrap(readIndex, size)];
      WindowDrop(pointer[..], readIndex, len, 1);
      if readIndex == size - 1 {
        readIndex := 0;
        readMirror := Complement(readMirror);
      } else {
        readIndex := readIndex + 1;
      }
      assert Len() == len - 1;
      n := 1;
    }

    method Peek(data: array<byte>, length: nat) returns (n: nat)
      requires Valid() && data != pointer && Min(length, |Contents()|) <= data.Length
      modifies data
      ensures Valid() && n == Min(length, |Contents()|)
      ensures data[..] == Contents()[..n] + old(data[n..])
    {
      var avail := GetLength();
      n := Min(length, avail);
      if avail != 0 {
        CopyOut(pointer, readIndex, data, n);
        WindowTake(pointer[..], readIndex, avail, n);
      }
    }

    method PeekByte() returns (n: nat, data: byte)
      requires Valid()
      ensures n == Min(1, |Contents()|)
      ensures n == 1 ==> data == Contents()[0]
    {
      var len := GetLength();
      if len == 0 {
        return 0, 0;
      }
      assert Contents()[0] == pointer[..][Wrap(readIndex, size)];
      return 1, pointer[readIndex];
    }

    // ---------------------------------------------------------------- overwriting writes

    /** The one family of overwriting bulk writes that goes wrong: reader and writer share a mirror, and the write
        runs over the end of the buffer as well as over the oldest byte. Both mirrors are then flipped. */
    ghost predicate ForceLosesAll(length: nat)
      requires Valid()
      reads this, pointer
    {
      var n := Min(length, size);
      readMirror == writeMirror && n >= size - writeIndex && n > size - |Contents()|
    }

    /** What an overwriting bulk write of `data` leaves. */
    ghost function Forced(data: seq<byte>): seq<byte>
      requires Valid()
      reads this, pointer
    {
      if ForceLosesAll(|data|) then [] else Newest(Contents() + data, size)
    }

    /** The write keeps its promise, the newest `size` bytes of old and new, exactly outside that family. */
    lemma ForcedExactly(data: seq<byte>)
      requires Valid()
      ensures Forced(data) == Newest(Contents() + data, size) <==> !ForceLosesAll(|data|)
    {
      if ForceLosesAll(|data|) { assert |Newest(Contents() + data, size)| > 0; }
    }

    /** Everything that lies in the buffer, whether read already or not, beginning with what was written first. */
    ghost function Written(): (s: seq<byte>)
      requires Valid()
      reads this, pointer
      ensures |s| == size
    {
      Window(pointer[..], writeIndex, size)
    }

    lemma StoredIsNewest()
      requires Valid()
      ensures Contents() == Written()[size - Len()..]
    {
      WindowDrop(pointer[..], writeIndex, size, size - Len());
    }

    /** Reader and writer share a mirror unless the stored bytes run over the end of the buffer. */
    lemma MirrorsTell()
      requires Valid()
      ensures readMirror == writeMirror <==> |Contents()| <= writeIndex
    {
    }

    /** What the locked section of an overwriting bulk write leaves when it acts on room measured before. Where that
        is less than the data, the reader is moved behind the data, whatever room there is by now. */
    ghost function ForcedLate(sizeRemained: nat, data: seq<byte>): seq<byte>
      requires Valid()
      reads this, pointer
    {
      var src := Newest(data, size);
      if |src| <= sizeRemained then Contents() + src
      else if readMirror == writeMirror then []
      else Newest(Written() + src, size)
    }

    /** That is right if and only if the data fits what was measured, or still fills the buffer while the stored bytes
        run over its end. Otherwise everything is lost, or bytes come back that have been read already. */
    lemma ForcedLateExactly(sizeRemained: nat, data: seq<byte>)
      requires Valid() && sizeRemained <= size - |Contents()|
      ensures var n := Min(|data|, size);
              ForcedLate(sizeRemained, data) == Newest(Contents() + data, size)
              <==> n <= sizeRemained || (writeIndex < |Contents()| && n >= size - |Contents()|)
    {
      var src := Newest(data, size);
      MirrorsTell();
      if |src| <= sizeRemained {
        NewestAppends(Contents(), data, src, size);
      } else if readMirror == writeMirror {
        assert |Newest(Contents() + data, size)| > 0;
      } else if |src| >= size - |Contents()| {
        StoredIsNewest();
        NewestOfAll(Written(), Contents(), data, src, size);
      } else {
        assert |Newest(Written() + src, size)| != |Newest(Contents() + data, size)|;
      }
    }

    /** The part of an overwriting bulk write that runs under the lock. */
    method LockedForce(sizeRemained: nat, data: seq<byte>) returns (n: nat)
      requires Valid() && sizeRemained <= size - |Contents()|
      modifies this, pointer
      ensures Valid() && n == Min(|data|, size) && Contents() == old(ForcedLate(sizeRemained, data))
    {
      ghost var len, start, at, buf := Len(), readIndex, writeIndex, pointer[..];
      var src := if |data| > size then data[|data| - size..] else data;
      n := |src|;
      assert at == Wrap(start + len, size) && src == Newest(data, size);
      CopyIn(pointer, writeIndex, src);
      assert Len() == len;
      ghost var shared := readMirror == writeMirror;
      Advance(n, sizeRemained);
      LateOutcome(buf, start, len, at, sizeRemained, src, shared, readIndex, Len());
    }

    method WriteForce(data: seq<byte>) returns (n: nat)
      requires Valid()
      modifies this, pointer
      ensures Valid() && n == Min(|data|, size)
      ensures Contents() == old(Forced(data))
    {
      var sizeRemained := GetEmptyLength();
      ForcedAtOnce(data);
      n := LockedForce(sizeRemained, data);
    }

    lemma ForcedAtOnce(data: seq<byte>)
      requires Valid()
      ensures ForcedLate(size - |Contents()|, data) == Forced(data)
    {
      MirrorsTell();
      ForcedLateExactly(size - |Contents()|, data);
    }

    /** Moves the indices and mirrors after an overwriting write of n bytes. */
    method Advance(n: nat, sizeRemained: nat)
      requires Valid() && n <= size && sizeRemained <= size - Len()
      modifies this
      ensures Valid() && writeIndex == Wrap(old(writeIndex) + n, size)
      ensures n <= sizeRemained ==> readIndex == old(readIndex) && Len() == old(Len()) + n
      ensures n > sizeRemained ==> readIndex == writeIndex
      ensures n > sizeRemained ==> Len() == if old(readMirror == writeMirror) then 0 else size
    {
      var indexRemained := size - writeIndex;
      if indexRemained > n {
        writeIndex := writeIndex + n;
        if n > sizeRemained {
          readIndex := writeIndex;
        }
      } else {
        writeIndex := n - indexRemained;
        writeMirror := Complement(writeMirror);
        if n > sizeRemained {
          readIndex := writeIndex;
          readMirror := Complement(readMirror);
        }
      }
    }

    /** An overwriting bulk write with reads between its measuring and its locked section. Between them they leave the
        newest bytes if and only if the data fitted the room that was measured, or the bytes still stored run over the
        end of the buffer and the data fills the room that the reads have made larger. */
    method ForceAround(data: seq<byte>, lengths: seq<nat>) returns (n: nat, got: seq<byte>)
      requires Valid()
      modifies this, pointer
      ensures Valid() && n == Min(|data|, size)
      ensures got == old(Contents())[..Min(Sum(lengths), old(|Contents()|))]
      ensures var left, room := old(Contents())[|got|..], size - old(|Contents()|);
              && (n <= room ==> Contents() == left + Newest(data, size))
              && (n > room && |left| <= old(writeIndex) ==> Contents() == [])
              && (n > room && |left| > old(writeIndex) ==> |Contents()| == size)
              && (Contents() == Newest(left + data, size)
                  <==> n <= room || (old(writeIndex) < |left| && n >= room + |got|))
    {
      var sizeRemained := GetEmptyLength();
      got := ReadAll(lengths);
      MirrorsTell();
      ForcedLateExactly(sizeRemained, data);
      n := LockedForce(sizeRemained, data);
    }

    method ReadAll(lengths: seq<nat>) returns (got: seq<byte>)
      requires Valid()
      modifies this`readIndex, this`readMirror
      ensures Valid() && got == old(Contents())[..Min(Sum(lengths), old(|Contents()|))]
      ensures Contents() == old(Contents())[|got|..]
    {
      got := [];
      ghost var q := Contents();
      for k := 0 to |lengths|
        invariant Valid() && |got| == Min(Sum(lengths[..k]), |q|) && got == q[..|got|] && Contents() == q[|got|..]
      {
        assert lengths[..k + 1][..k] == lengths[..k];
        var one := ReadOne(lengths[k]);
        ReadOn(q, got, one);
        got := got + one;
      }
      assert lengths[..|lengths|] == lengths;
    }

    method ReadOne(length: nat) returns (got: seq<byte>)
      requires Valid()
      modifies this`readIndex, this`readMirror
      ensures Valid() && |got| == Min(length, |old(Contents())|)
      ensures got == old(Contents())[..|got|] && Contents() == old(Contents())[|got|..]
    {
      var avail := GetLength();
      var buf := new byte[Min(length, avail)];
      var n := Read(buf, length);
      got := buf[..];
    }

    method WriteByteForce(data: byte) returns (n: nat)
      requires Valid()
      modifies this, pointer
      ensures Valid() && n == 1
      ensures Contents() == Newest(old(Contents()) + [data], size)
    {
      ghost var len, start, buf := Len(), readIndex, pointer[..];
      var status := GetStatus();
      pointer[writeIndex] := data;
      assert pointer[..] == Put(buf, Wrap(start + len, size), [data]);
      StepWriter(status, len);
      ForceOutcome(buf, start, len, [data], [data], false, readIndex, Len());
      n := 1;
    }

    method StepWriter(status: Status, ghost len: nat)
      requires Valid() && len == Len() && (status == Full <==> len == size)
      modifies this
      ensures Valid() && writeIndex == Wrap(old(writeIndex) + 1, size)
      ensures len < size ==> readIndex == old(readIndex) && Len() == len + 1
      ensures len == size ==> readIndex == writeIndex && Len() == size
    {
      if writeIndex == size - 1 {
        writeIndex := 0;
        writeMirror := Complement(writeMirror);
        if status == Full {
          readIndex := writeIndex;
          readMirror := Complement(readMirror);
        }
      } else {
        writeIndex := writeIndex + 1;
        if status == Full {
          readIndex := writeIndex;
        }
      }
    }

    // ---------------------------------------------------------------- runs

    /** Any sequence of reads, writes and peeks does to the ring what it does to a bounded queue. */
    method Run(ops: seq<Op>) returns (result: Moved)
      requires Valid()
      modifies this, pointer
      ensures Valid()
      ensures Fifo(Contents(), result) == FifoRun(size, old(Contents()), ops)
    {
      result := Moved([], []);
      ghost var q := Contents();
      for k := 0 to |ops|
        invariant Valid() && Fifo(Contents(), result) == FifoRun(size, q, ops[..k])
      {
        assert ops[..k + 1][..k] == ops[..k];
        ghost var before := Contents();
        var moved := Perform(ops[k]);
        result := Moved(result.accepted + moved.accepted, result.delivered + moved.delivered);
      }
      assert ops[..|ops|] == ops;
    }

    method Perform(op: Op) returns (moved: Moved)
      requires Valid()
      modifies this, pointer
      ensures Valid() && Fifo(Contents(), moved) == FifoStep(size, old(Contents()), op)
    {
      moved := Moved([], []);
      match op {
        case Write(data) =>
          var n := this.Write(data);
          moved := Moved(data[..n], []);
        case WriteByte(b) =>
          var n := this.WriteByte(b);
          moved := Moved([b][..n], []);
        case Read(length) =>
          var avail := GetLength();
          var buf := new byte[Min(length, avail)];
          var n := this.Read(buf, length);
          assert buf[..] == old(Contents())[..n];
          moved := Moved([], buf[..]);
        case ReadByte =>
          var n, b := this.ReadByte();
          moved := Moved([], if n == 1 then [b] else []);
          assert moved.delivered == old(Contents())[..n];
        case Peek(length) =>
          var avail := GetLength();
          var buf := new byte[Min(length, avail)];
          var _ := this.Peek(buf, length);
        case PeekByte =>
          var _, _ := this.PeekByte();
      }
    }

    /** One writer and one reader, in any interleaving of their steps: measuring, and the locked section that acts on
        what was measured. Both measurements, what the ring holds and what moved are at the end what the turns make of a
        bounded queue. */
    method Interleave(turns: seq<Turn>) returns (writer: Pending, reader: Pending, result: Moved)
      requires Valid()
      modifies this, pointer
      ensures Valid()
      ensures Split(Contents(), writer, reader, result) == SplitRun(size, old(Contents()), turns)
    {
      writer, reader, result := NotMeasured, NotMeasured, Moved([], []);
      ghost var q := Contents();
      for k := 0 to |turns|
        invariant Valid() && Split(Contents(), writer, reader, result) == SplitRun(size, q, turns[..k])
      {
        assert turns[..k + 1][..k] == turns[..k];
        writer, reader, result := TakeTurn(turns[k], writer, reader, result);
      }
      assert turns[..|turns|] == turns;
    }

    /** One turn, acting on what its side has measured. */
    method TakeTurn(turn: Turn, writer: Pending, reader: Pending, moved: Moved)
      returns (writer': Pending, reader': Pending, moved': Moved)
      requires Valid() && Safe(size, Split(Contents(), writer, reader, moved))
      modifies this, pointer
      ensures Valid()
      ensures Split(Contents(), writer', reader', moved')
              == TakenTurn(size, Split(old(Contents()), writer, reader, moved), turn)
    {
      writer', reader', moved' := writer, reader, moved;
      match turn {
        case WriterMeasures =>
          var room := GetEmptyLength();
          writer' := Measured(room);
        case ReaderMeasures =>
          var len := GetLength();
          reader' := Measured(len);
        case WriterCommits(data) =>
          if writer.Measured? {
            var n := LockedWrite(writer.amount, data);
            moved', writer' := Moved(moved.accepted + data[..n], moved.delivered), NotMeasured;
          }
        case ReaderCommits(length) =>
          if reader.Measured? {
            var buf := new byte[Min(length, reader.amount)];
            var n := LockedRead(reader.amount, buf, length);
            assert buf[..] == old(Contents())[..n];
            moved', reader' := Moved(moved.accepted, moved.delivered + buf[..]), NotMeasured;
          }
      }
    }
  }

  /** What was measured, if anything, is a lower bound on the true amount. */
  predicate Holds(p: Pending, amount: nat) { p.Measured? ==> p.amount <= amount }

  /** The same, where the room was measured before. */
  lemma LateOutcome(buf: seq<byte>, start: nat, len: nat, at: nat, room: nat, src: seq<byte>, shared: bool, r: nat,
      l: nat)
    requires start < |buf| && len + room <= |buf| && |src| <= |buf| && r < |buf| && l <= |buf|
    requires at == Wrap(start + len, |buf|)
    requires |src| <= room ==> r == start && l == len + |src|
    requires |src| > room ==> r == Wrap(at + |src|, |buf|) && l == if shared then 0 else |buf|
    ensures Window(Put(buf, at, src), r, l)
            == if |src| <= room then Window(buf, start, len) + src
               else if shared then [] else Newest(Window(buf, at, |buf|) + src, |buf|)
  {
    if |src| <= room {
      WindowAppend(buf, start, len, src);
    } else {
      WindowOverwrite(buf, at, |buf|, src);
    }
  }

  function Sum(s: seq<nat>): nat {
    if s == [] then 0 else Sum(s[..|s| - 1]) + s[|s| - 1]
  }

  lemma ReadOn(q: seq<byte>, got: seq<byte>, one: seq<byte>)
    requires |got| <= |q| && got == q[..|got|] && |one| <= |q| - |got| && one == q[|got|..][..|one|]
    ensures got + one == q[..|got + one|] && q[|got|..][|one|..] == q[|got + one|..]
  {
  }

  lemma NewestAppends(q: seq<byte>, data: seq<byte>, src: seq<byte>, size: nat)
    requires src == Newest(data, size) && |q| + |src| <= size
    ensures Newest(q + data, size) == q + src
  {
  }

  /** Data that fills the room leaves nothing of what lay before the stored bytes. */
  lemma NewestOfAll(all: seq<byte>, q: seq<byte>, data: seq<byte>, src: seq<byte>, size: nat)
    requires |all| == size && |q| <= size && q == all[size - |q|..] && src == Newest(data, size)
    requires |src| >= size - |q|
    ensures Newest(all + src, size) == Newest(q + data, size)
  {
    assert (all + src)[|src|..] == all[|src|..] + src;
    if |data| <= size {
      assert (q + src)[|q| + |src| - size..] == q[|q| + |src| - size..] + src;
    }
  }

  /** The window after an overwriting write, given where the indices have moved. */
  lemma ForceOutcome(buf: seq<byte>, start: nat, len: nat, data: seq<byte>, src: seq<byte>, loses: bool, r: nat, l: nat)
    requires start < |buf| && len <= |buf| && r < |buf| && l <= |buf| && src == Newest(data, |buf|)
    requires len + |src| <= |buf| ==> r == start && l == len + |src| && !loses
    requires len + |src| > |buf| ==>
      r == Wrap(Wrap(start + len, |buf|) + |src|, |buf|) && l == (if loses then 0 else |buf|)
    ensures Window(Put(buf, Wrap(start + len, |buf|), src), r, l)
            == if loses then [] else Newest(Window(buf, start, len) + data, |buf|)
  {
    WindowForce(buf, start, len, data);
  }

  // ---------------------------------------------------------------- the bounded queue

  datatype Op =
    | Write(data: seq<byte>) | WriteByte(b: byte)
    | Read(length: nat) | ReadByte
    | Peek(length: nat) | PeekByte

  datatype Turn = WriterMeasures | WriterCommits(data: seq<byte>) | ReaderMeasures | ReaderCommits(length: nat)

  datatype Pending = NotMeasured | Measured(amount: nat)

  /** The bytes accepted and the bytes handed out by a step or a run. */
  datatype Moved = Moved(accepted: seq<byte>, delivered: seq<byte>)

  datatype Fifo = Fifo(queue: seq<byte>, moved: Moved)

  function FifoStep(size: nat, q: seq<byte>, op: Op): Fifo
    requires |q| <= size
  {
    match op
    case Write(data) => var n := Min(|data|, size - |q|); Fifo(q + data[..n], Moved(data[..n], []))
    case WriteByte(b) => var n := Min(1, size - |q|); Fifo(q + [b][..n], Moved([b][..n], []))
    case Read(length) => var n := Min(length, |q|); Fifo(q[n..], Moved([], q[..n]))
    case ReadByte => var n := Min(1, |q|); Fifo(q[n..], Moved([], q[..n]))
    case Peek(_) => Fifo(q, Moved([], []))
    case PeekByte => Fifo(q, Moved([], []))
  }

  function FifoRun(size: nat, q: seq<byte>, ops: seq<Op>): (f: Fifo)
    requires |q| <= size
    ensures |f.queue| <= size
    decreases |ops|
  {
    if ops == [] then Fifo(q, Moved([], []))
    else
      var before := FifoRun(size, q, ops[..|ops| - 1]);
      var last := FifoStep(size, before.queue, ops[|ops| - 1]);
      Fifo(last.queue,
          Moved(before.moved.accepted + last.moved.accepted, before.moved.delivered + last.moved.delivered))
  }

  lemma FifoSnoc(size: nat, q: seq<byte>, ops: seq<Op>, op: Op)
    requires |q| <= size
    ensures var before := FifoRun(size, q, ops);
            var last := FifoStep(size, before.queue, op);
            FifoRun(size, q, ops + [op]) == Fifo(last.queue,
              Moved(before.moved.accepted + last.moved.accepted, before.moved.delivered + last.moved.delivered))
  {
    assert (ops + [op])[..|ops|] == ops;
  }

  // ---------------------------------------------------------------- measuring outside the lock

  /** The queue, what each side has measured and not yet used, and what has moved so far. */
  datatype Split = Split(queue: seq<byte>, writer: Pending, reader: Pending, moved: Moved)

  /** What the writer measured is at most the room there is, and what the reader measured at most the length. */
  predicate Safe(size: nat, st: Split) {
    |st.queue| <= size && Holds(st.writer, size - |st.queue|) && Holds(st.reader, |st.queue|)
  }

  /** A locked section moves as much as was measured before, whatever the truth is by now, and uses the measurement up;
      without one it cannot come. */
  function TakenTurn(size: nat, st: Split, turn: Turn): Split
    requires Safe(size, st)
  {
    match turn
    case WriterMeasures => st.(writer := Measured(size - |st.queue|))
    case ReaderMeasures => st.(reader := Measured(|st.queue|))
    case WriterCommits(data) =>
      if st.writer.NotMeasured? then st else
      var d := data[..Min(|data|, st.writer.amount)];
      Split(st.queue + d, NotMeasured, st.reader, Moved(st.moved.accepted + d, st.moved.delivered))
    case ReaderCommits(length) =>
      if st.reader.NotMeasured? then st else
      var n := Min(length, st.reader.amount);
      Split(st.queue[n..], st.writer, NotMeasured, Moved(st.moved.accepted, st.moved.delivered + st.queue[..n]))
  }

  /** Neither side can invalidate what the other has measured: at the start of every turn, in every interleaving, the
      measurements are lower bounds. */
  function SplitRun(size: nat, q: seq<byte>, turns: seq<Turn>): (st: Split)
    requires |q| <= size
    ensures Safe(size, st)
    decreases |turns|
  {
    if turns == [] then Split(q, NotMeasured, NotMeasured, Moved([], []))
    else TakenTurn(size, SplitRun(size, q, turns[..|turns| - 1]), turns[|turns| - 1])
  }

  /** What a turn does to the queue, as an operation under one lock. */
  function AsOp(st: Split, turn: Turn): Op {
    match turn
    case WriterCommits(data) =>
      if st.writer.Measured? then Op.Write(data[..Min(|data|, st.writer.amount)]) else Op.PeekByte
    case ReaderCommits(length) => if st.reader.Measured? then Op.Read(Min(length, st.reader.amount)) else Op.PeekByte
    case _ => Op.PeekByte
  }

  function AsOps(size: nat, q: seq<byte>, turns: seq<Turn>): (ops: seq<Op>)
    requires |q| <= size
    ensures |ops| == |turns|
    decreases |turns|
  {
    if turns == [] then []
    else
      var before := turns[..|turns| - 1];
      AsOps(size, q, before) + [AsOp(SplitRun(size, q, before), turns[|turns| - 1])]
  }

  /** Every run with split locking is a run of a bounded queue in which each locked section is one whole operation that
      moves all it was allowed to by the measurement. */
  lemma {:induction false} SplitIsFifo(size: nat, q: seq<byte>, turns: seq<Turn>)
    requires |q| <= size
    ensures var st := SplitRun(size, q, turns);
            Fifo(st.queue, st.moved) == FifoRun(size, q, AsOps(size, q, turns))
    decreases |turns|
  {
    if turns != [] {
      var before, turn := turns[..|turns| - 1], turns[|turns| - 1];
      SplitIsFifo(size, q, before);
      TurnIsStep(size, SplitRun(size, q, before), turn);
      FifoSnoc(size, q, AsOps(size, q, before), AsOp(SplitRun(size, q, before), turn));
    }
  }

  lemma TurnIsStep(size: nat, st: Split, turn: Turn)
    requires Safe(size, st)
    ensures var f, st' := FifoStep(size, st.queue, AsOp(st, turn)), TakenTurn(size, st, turn);
            && st'.queue == f.queue && st'.moved.accepted == st.moved.accepted + f.moved.accepted
            && st'.moved.delivered == st.moved.delivered + f.moved.delivered
    ensures turn.WriterCommits? && st.writer.Measured? ==>
      |FifoStep(size, st.queue, AsOp(st, turn)).moved.accepted| == Min(|turn.data|, st.writer.amount)
    ensures turn.ReaderCommits? && st.reader.Measured? ==>
      |FifoStep(size, st.queue, AsOp(st, turn)).moved.delivered| == Min(turn.length, st.reader.amount)
  {
  }

  predicate OfWriter(turn: Turn) { turn.WriterMeasures? || turn.WriterCommits? }

  predicate OfReader(turn: Turn) { turn.ReaderMeasures? || turn.ReaderCommits? }

  /** What the writer holds is the room there was after k turns, when it measured. */
  lemma {:induction false} WriterMeasuresRoom(size: nat, q: seq<byte>, turns: seq<Turn>, k: nat)
    requires |q| <= size && k < |turns| && turns[k].WriterMeasures?
    requires forall j :: k < j < |turns| ==> !OfWriter(turns[j])
    ensures SplitRun(size, q, turns).writer == Measured(size - |SplitRun(size, q, turns[..k]).queue|)
    decreases |turns|
  {
    var before := turns[..|turns| - 1];
    if k < |before| {
      assert before[..k] == turns[..k] && turns[|turns| - 1] == turns[|before|];
      WriterMeasuresRoom(size, q, before, k);
    }
  }

  /** What the reader holds is the length there was after k turns, when it measured. */
  lemma {:induction false} ReaderMeasuresLength(size: nat, q: seq<byte>, turns: seq<Turn>, k: nat)
    requires |q| <= size && k < |turns| && turns[k].ReaderMeasures?
    requires forall j :: k < j < |turns| ==> !OfReader(turns[j])
    ensures SplitRun(size, q, turns).reader == Measured(|SplitRun(size, q, turns[..k]).queue|)
    decreases |turns|
  {
    var before := turns[..|turns| - 1];
    if k < |before| {
      assert before[..k] == turns[..k] && turns[|turns| - 1] == turns[|before|];
      ReaderMeasuresLength(size, q, before, k);
    }
  }

  /** A writer that measured after k turns and commits now appends as much of its data as there was room then,
      whatever the reader did in between. */
  lemma WriterCommitsWhatItMeasured(size: nat, q: seq<byte>, turns: seq<Turn>, k: nat, data: seq<byte>)
    requires |q| <= size && k < |turns| && turns[k].WriterMeasures?
    requires forall j :: k < j < |turns| ==> !OfWriter(turns[j])
    ensures var room := size - |SplitRun(size, q, turns[..k]).queue|;
            var now, later := SplitRun(size, q, turns), SplitRun(size, q, turns + [WriterCommits(data)]);
            && later.queue == now.queue + data[..Min(|data|, room)]
            && later.moved == Moved(now.moved.accepted + data[..Min(|data|, room)], now.moved.delivered)
            && later.writer == NotMeasured
  {
    WriterMeasuresRoom(size, q, turns, k);
    assert (turns + [WriterCommits(data)])[..|turns|] == turns;
  }

  /** A reader that measured after k turns and commits now takes as much of what it asks for as was there then. */
  lemma ReaderCommitsWhatItMeasured(size: nat, q: seq<byte>, turns: seq<Turn>, k: nat, length: nat)
    requires |q| <= size && k < |turns| && turns[k].ReaderMeasures?
    requires forall j :: k < j < |turns| ==> !OfReader(turns[j])
    ensures var n := Min(length, |SplitRun(size, q, turns[..k]).queue|);
            var now, later := SplitRun(size, q, turns), SplitRun(size, q, turns + [ReaderCommits(length)]);
            && n <= |now.queue| && later.queue == now.queue[n..]
            && later.moved == Moved(now.moved.accepted, now.moved.delivered + now.queue[..n])
            && later.reader == NotMeasured
  {
    ReaderMeasuresLength(size, q, turns, k);
    assert (turns + [ReaderCommits(length)])[..|turns|] == turns;
  }

  /** Measuring and committing with no turn between them is one operation on the bounded queue. */
  lemma PairIsOneStep(size: nat, q: seq<byte>, turns: seq<Turn>, data: seq<byte>, length: nat)
    requires |q| <= size
    ensures var now := SplitRun(size, q, turns);
            var w := SplitRun(size, q, turns + [WriterMeasures] + [WriterCommits(data)]);
            var r := SplitRun(size, q, turns + [ReaderMeasures] + [ReaderCommits(length)]);
            var write, read := FifoStep(size, now.queue, Op.Write(data)), FifoStep(size, now.queue, Op.Read(length));
            && w.queue == write.queue && w.moved.accepted == now.moved.accepted + write.moved.accepted
            && r.queue == read.queue && r.moved.delivered == now.moved.delivered + read.moved.delivered
  {
    var w, r := turns + [WriterMeasures], turns + [ReaderMeasures];
    assert w[..|turns|] == r[..|turns|] == turns;
    WriterCommitsWhatItMeasured(size, q, w, |turns|, data);
    ReaderCommitsWhatItMeasured(size, q, r, |turns|, length);
  }

  lemma FifoStepConserves(size: nat, q: seq<byte>, op: Op)
    requires |q| <= size
    ensures var f := FifoStep(size, q, op);
            q + f.moved.accepted == f.moved.delivered + f.queue
  {
  }

  /** What went in is what came out, followed by what is still there: nothing is lost, repeated or reordered. */
  lemma {:induction false} FifoConserves(size: nat, q: seq<byte>, ops: seq<Op>)
    requires |q| <= size
    ensures var f := FifoRun(size, q, ops);
            q + f.moved.accepted == f.moved.delivered + f.queue
    decreases |ops|
  {
    if ops != [] {
      FifoConserves(size, q, ops[..|ops| - 1]);
      var before := FifoRun(size, q, ops[..|ops| - 1]);
      var last := FifoStep(size, before.queue, ops[|ops| - 1]);
      FifoStepConserves(size, before.queue, ops[|ops| - 1]);
      Glue(q, before.moved.accepted, last.moved.accepted, before.moved.delivered, last.moved.delivered,
           before.queue, last.queue);
    }
  }

  lemma Glue(q0: seq<byte>, a1: seq<byte>, a2: seq<byte>, d1: seq<byte>, d2: seq<byte>, q1: seq<byte>, q2: seq<byte>)
    requires q0 + a1 == d1 + q1 && q1 + a2 == d2 + q2
    ensures q0 + (a1 + a2) == (d1 + d2) + q2
  {
    assert q0 + (a1 + a2) == (q0 + a1) + a2;
    assert d1 + (q1 + a2) == (d1 + q1) + a2;
    assert d1 + (d2 + q2) == (d1 + d2) + q2;
  }

  /** Byte operations are bulk operations of length 1. */
  lemma ByteOpsAreBulkOps(size: nat, q: seq<byte>, b: byte)
    requires |q| <= size
    ensures FifoStep(size, q, WriteByte(b)) == FifoStep(size, q, Write([b]))
    ensures FifoStep(size, q, ReadByte) == FifoStep(size, q, Read(1))
  {
  }
}
