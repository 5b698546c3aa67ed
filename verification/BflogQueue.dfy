/** The log queue: records of varying length in a byte ring. Where a record ends is known only from the size field
    at its beginning, inside the ring; the oldest records make way for new ones. */
module BflogQueue {
  import opened Numbers
  import opened RingSeq

  type Record = seq<byte>

  const ZERO_OFFSET := 3
  const NO_MESSAGE: byte := 0xbd

  /** The 16-bit size field, low byte first. */
  function SizeField(r: seq<byte>): int
    requires |r| >= 2
  {
    Le16(r[0], r[1])
  }

  function Le16(lo: int, hi: int): int { lo + 256 * hi }

  /** Records are a multiple of four bytes long, their size field tells the length, and their fourth byte is zero. */
  predicate IsRecord(r: Record) {
    4 <= |r| && |r| % 4 == 0 && SizeField(r) == |r| && r[ZERO_OFFSET] == 0
  }

  /** What bflog() may hand to the queue. */
  predicate IsMessage(msg: seq<byte>) {
    |msg| >= 4 && 4 <= SizeField(msg) <= |msg| && SizeField(msg) % 4 == 0 && msg[ZERO_OFFSET] == 0
  }

  predicate AreRecords(recs: seq<Record>) {
    forall k :: 0 <= k < |recs| ==> IsRecord(recs[k])
  }

  function Total(recs: seq<Record>): nat {
    if recs == [] then 0 else |recs[0]| + Total(recs[1..])
  }

  function Joined(recs: seq<Record>): (s: seq<byte>)
    ensures |s| == Total(recs)
  {
    if recs == [] then [] else recs[0] + Joined(recs[1..])
  }

  lemma {:induction false} TotalSplit(recs: seq<Record>, k: nat)
    requires k <= |recs|
    ensures Total(recs) == Total(recs[..k]) + Total(recs[k..])
  {
    if k > 0 {
      TotalSplit(recs[1..], k - 1);
      assert recs[1..][..k - 1] == recs[..k][1..] && recs[1..][k - 1..] == recs[k..];
    } else {
      assert recs[..0] == [] && recs[0..] == recs;
    }
  }

  lemma {:induction false} JoinedSnoc(recs: seq<Record>, r: Record)
    ensures Joined(recs + [r]) == Joined(recs) + r
  {
    if recs == [] {
      assert [r][1..] == [] && Joined([]) == [];
      assert r + [] == r;
    } else {
      JoinedSnoc(recs[1..], r);
      assert (recs + [r])[1..] == recs[1..] + [r];
      assert recs[0] + (Joined(recs[1..]) + r) == (recs[0] + Joined(recs[1..])) + r;
    }
  }

  // ---------------------------------------------------------------- drop-oldest queue of records

  /** How many of the oldest records have to go to free `need` bytes. */
  function Evictions(recs: seq<Record>, need: int): (k: nat)
    ensures k <= |recs|
  {
    if need <= 0 || recs == [] then 0 else 1 + Evictions(recs[1..], need - |recs[0]|)
  }

  /** They free enough, if all together hold enough, and one fewer would not do. */
  lemma {:induction false} EvictionsShortest(recs: seq<Record>, need: int)
    requires need <= Total(recs)
    ensures var k := Evictions(recs, need);
            need <= Total(recs[..k]) && forall j :: 0 <= j < k ==> Total(recs[..j]) < need
  {
    if need > 0 {
      EvictionsShortest(recs[1..], need - |recs[0]|);
      var k := Evictions(recs[1..], need - |recs[0]|);
      assert recs[..k + 1][1..] == recs[1..][..k];
      forall j | 0 <= j < k + 1 ensures Total(recs[..j]) < need {
        if j > 0 { assert recs[..j][1..] == recs[1..][..j - 1]; }
      }
    }
  }

  /** The queue after a record has been put into a pool of `size` bytes. */
  function AfterPut(size: nat, recs: seq<Record>, r: Record): seq<Record> {
    recs[Evictions(recs, |r| - (size - Total(recs)))..] + [r]
  }

  /** Putting a record drops exactly the shortest prefix of the old records that makes room for it. */
  lemma AfterPutDropsShortest(size: nat, recs: seq<Record>, r: Record, j: nat)
    requires Total(recs) <= size && |r| <= size
    ensures var k := Evictions(recs, |r| - (size - Total(recs)));
            && AfterPut(size, recs, r) == recs[k..] + [r]
            && Total(recs[k..]) + |r| <= size
            && (j < k ==> Total(recs[j..]) + |r| > size)
  {
    var need := |r| - (size - Total(recs));
    var k := Evictions(recs, need);
    EvictionsShortest(recs, need);
    TotalSplit(recs, k);
    if j < k { TotalSplit(recs, j); }
  }

  /** What is stored of a message: as much as the pool can hold, with the size field corrected. */
  function Stored(size: nat, msg: seq<byte>): (r: Record)
    requires |msg| >= 4 && 4 <= SizeField(msg) <= |msg| && 4 <= size < 0x1_0000
  {
    if SizeField(msg) > size then [size % 256, size / 256] + msg[2..size] else msg[..SizeField(msg)]
  }

  lemma StoredIsRecord(size: nat, msg: seq<byte>)
    requires IsMessage(msg) && 4 <= size < 0x1_0000 && size % 4 == 0
    ensures IsRecord(Stored(size, msg)) && |Stored(size, msg)| == Min(SizeField(msg), size)
  {
  }

  // ---------------------------------------------------------------- the ring

  /** The used part of the ring is the records one after the other. Pool size and positions are multiples of four, so
      that the first four bytes of a record are never split. All quantities fit 16 bits. */
  ghost predicate Holds(pool: seq<byte>, rpos: nat, wpos: nat, free: nat, recs: seq<Record>) {
    && 0 < |pool| < 0x1_0000 && |pool| % 4 == 0
    && rpos < |pool| && rpos % 4 == 0
    && AreRecords(recs) && Total(recs) + free == |pool|
    && wpos == Wrap(rpos + Total(recs), |pool|)
    && Window(pool, rpos, Total(recs)) == Joined(recs)
  }

  lemma OldestWindow(pool: seq<byte>, rpos: nat, recs: seq<Record>)
    requires rpos < |pool| && recs != [] && Total(recs) <= |pool| && Window(pool, rpos, Total(recs)) == Joined(recs)
    ensures |recs[0]| <= |pool| && Window(pool, rpos, |recs[0]|) == recs[0]
    ensures Window(pool, Wrap(rpos + |recs[0]|, |pool|), Total(recs[1..])) == Joined(recs[1..])
  {
    var n := |recs[0]|;
    assert Joined(recs)[..n] == recs[0] && Joined(recs)[n..] == Joined(recs[1..]);
    WindowTake(pool, rpos, Total(recs), n);
    WindowDrop(pool, rpos, Total(recs), n);
  }

  /** Positions that are multiples of four leave a header in one piece. */
  lemma HeaderUnsplit(pool: seq<byte>, rpos: nat, r: Record)
    requires |pool| % 4 == 0 && rpos < |pool| && rpos % 4 == 0
    requires IsRecord(r) && |r| <= |pool| && Window(pool, rpos, |r|) == r
    ensures rpos + 4 <= |pool| && Le16(pool[rpos], pool[rpos + 1]) == |r|
    ensures Wrap(rpos + |r|, |pool|) % 4 == 0
  {
    var w := Window(pool, rpos, |r|);
    assert w[0] == pool[Wrap(rpos, |pool|)] && w[1] == pool[Wrap(rpos + 1, |pool|)];
  }

  /** The oldest record and its size field are where the code looks for them. */
  lemma OldestHere(pool: seq<byte>, rpos: nat, wpos: nat, free: nat, recs: seq<Record>)
    requires Holds(pool, rpos, wpos, free, recs) && recs != []
    ensures rpos + 4 <= |pool| && Le16(pool[rpos], pool[rpos + 1]) == |recs[0]| >= 4
    ensures |recs[0]| <= |pool| && Window(pool, rpos, |recs[0]|) == recs[0]
    ensures Holds(pool, Wrap(rpos + |recs[0]|, |pool|), wpos, free + |recs[0]|, recs[1..])
  {
    assert IsRecord(recs[0]);
    OldestWindow(pool, rpos, recs);
    HeaderUnsplit(pool, rpos, recs[0]);
  }

  /** Storing a record behind the last one. */
  lemma NewestThere(pool: seq<byte>, rpos: nat, wpos: nat, free: nat, recs: seq<Record>, r: Record)
    requires Holds(pool, rpos, wpos, free, recs) && IsRecord(r) && |r| <= free
    ensures Holds(Put(pool, wpos, r), rpos, Wrap(wpos + |r|, |pool|), free - |r|, recs + [r])
  {
    WindowAppend(pool, rpos, Total(recs), r);
    JoinedSnoc(recs, r);
    assert Total(recs + [r]) == |Joined(recs) + r|;
  }

  class LogQueue {
    const pool: array<byte>
    const size: nat
    var rpos: nat
    var wpos: nat
    var free: nat
    ghost var recs: seq<Record>

    ghost predicate Valid()
      reads this, pool
    {
      size == pool.Length && Holds(pool[..], rpos, wpos, free, recs)
    }

    constructor (pool: array<byte>)
      requires 0 < pool.Length < 0x1_0000 && pool.Length % 4 == 0
      ensures Valid() && recs == [] && this.pool == pool && size == pool.Length
    {
      this.pool := pool;
      free := pool.Length;
      wpos := 0;
      rpos := 0;
      size := pool.Length;
      recs := [];
    }

    /** queue_free(): frees at least `need` bytes by forgetting the oldest records. */
    method QueueFree(need: nat)
      requires Valid() && free + need <= size
      modifies this`rpos, this`free, this`recs
      ensures Valid() && recs == old(recs)[Evictions(old(recs), need)..] && free >= old(free) + need
    {
      var rpos', space := SkipOldest(need);
      recs := recs[Evictions(recs, need)..];
      rpos := rpos';
      free := free + space;
    }

    /** Its loop: walks over the oldest records by their size fields until they add up. */
    method SkipOldest(need: nat) returns (rpos': nat, space: nat)
      requires Valid() && free + need <= size
      ensures need <= space
      ensures Holds(pool[..], rpos', wpos, free + space, recs[Evictions(recs, need)..])
    {
      rpos', space := rpos, 0;
      ghost var k := 0;
      assert recs[0..] == recs;
      while need > space
        invariant k <= |recs| && Holds(pool[..], rpos', wpos, free + space, recs[k..])
        invariant Evictions(recs, need) == k + Evictions(recs[k..], need - space)
        decreases |recs| - k
      {
        ghost var rest := recs[k..];
        OldestHere(pool[..], rpos', wpos, free + space, rest);
        assert rest[1..] == recs[k + 1..];
        // oldest message size
        var sz := Le16(pool[rpos'], pool[rpos' + 1]);
        if rpos' + sz >= size {
          rpos' := rpos' + sz - size;
        } else {
          rpos' := rpos' + sz;
        }
        space := space + sz;
        k := k + 1;
      }
    }

    /** queue_put(): stores a message, in two parts if it runs over the end of the pool. */
    method QueuePut(msg: array<byte>)
      requires Valid() && msg != pool
      requires IsMessage(msg[..])
      modifies this, pool, msg
      ensures Valid() && recs == AfterPut(size, old(recs), Stored(size, old(msg[..])))
    {
      ghost var r := Stored(size, msg[..]);
      StoredIsRecord(size, msg[..]);
      if Le16(msg[0], msg[1]) > size {
        msg[0], msg[1] := size % 256, size / 256;
      }
      var msgSize := Le16(msg[0], msg[1]);
      assert msg[..msgSize] == r;
      if free < msgSize {
        QueueFree(msgSize - free);
      }
      StoreRecord(msg, msgSize);
    }

    /** The copies of queue_put(), once there is room. */
    method StoreRecord(msg: array<byte>, msgSize: nat)
      requires Valid() && msg != pool && msgSize <= msg.Length && IsRecord(msg[..msgSize]) && msgSize <= free
      modifies this`wpos, this`free, this`recs, pool
      ensures Valid() && recs == old(recs) + [msg[..msgSize]]
    {
      var remain := size - wpos;
      NewestThere(pool[..], rpos, wpos, free, recs, msg[..msgSize]);
      CopyIn(pool, wpos, msg[..msgSize]);
      if msgSize >= remain {
        wpos := msgSize - remain;
      } else {
        wpos := wpos + msgSize;
      }
      free := free - msgSize;
      recs := recs + [msg[..msgSize]];
    }

    /** queue_get(): loads the oldest record, followed by a NUL, or marks the load area as holding no message. The load
        area is the first `area` bytes of mem, which the code does not look at; the NUL stays inside it exactly if the
        record is shorter. */
    method QueueGet(mem: array<byte>, ghost area: nat)
      requires Valid() && mem != pool && 4 <= area <= mem.Length && (recs != [] ==> |recs[0]| < mem.Length)
      modifies this`rpos, this`free, this`recs, mem
      ensures Valid()
      ensures old(recs) == [] ==> recs == [] && mem[..] == old(mem[..])[ZERO_OFFSET := NO_MESSAGE]
      ensures old(recs) != [] ==> recs == old(recs)[1..]
      ensures old(recs) != [] ==> mem[..] == old(recs)[0] + [0] + old(mem[..])[|old(recs)[0]| + 1..]
      ensures old(recs) == [] ==> mem[area..] == old(mem[area..])
      ensures old(recs) != [] && old(mem[|recs[0]|]) != 0 ==>
                (mem[area..] == old(mem[area..]) <==> |old(recs)[0]| < area)
      ensures old(recs) != [] && |old(recs)[0]| < area ==> mem[area..] == old(mem[area..])
    {
      if recs != [] { assert IsRecord(recs[0]); }
      if free == size {
        mem[ZERO_OFFSET] := NO_MESSAGE;
      } else {
        ghost var r := recs[0];
        LoadOldest(mem);
        assert mem[..][0] == r[0] && mem[..][1] == r[1];
        mem[Le16(mem[0], mem[1])] := 0;
        TailAfter(old(mem[..]), mem[..], r, area);
      }
    }

    /** The copies of queue_get(), when there is a record. */
    method LoadOldest(msg: array<byte>)
      requires Valid() && msg != pool && recs != [] && |recs[0]| < msg.Length
      modifies this`rpos, this`free, this`recs, msg
      ensures Valid() && recs == old(recs)[1..]
      ensures msg[..] == old(recs)[0] + old(msg[..])[|old(recs)[0]|..]
    {
      OldestHere(pool[..], rpos, wpos, free, recs);
      var remain := size - rpos;
      var sz := Le16(pool[rpos], pool[rpos + 1]);
      CopyOut(pool, rpos, msg, sz);
      if sz >= remain {
        rpos := sz - remain;
      } else {
        rpos := rpos + sz;
      }
      free := free + sz;
      recs := recs[1..];
    }

    /** Any run of puts and gets does what the drop-oldest queue does, and hands out its records byte for byte; whether
        there was one is told from the fourth byte of the load area. Behind the load area nothing changes as long as
        every record loaded is shorter than the area. */
    method Run(ops: seq<Op>, mem: array<byte>, ghost area: nat) returns (loaded: seq<Record>)
      requires Valid() && mem != pool && 4 <= area <= mem.Length && size < mem.Length
      requires forall k :: 0 <= k < |ops| ==> OpOk(ops[k])
      modifies this, pool, mem
      ensures Valid()
      ensures 4 <= size < 0x1_0000 && Outcome(recs, loaded) == RunSpec(size, old(recs), ops)
      ensures AllShorter(loaded, area) ==> mem[area..] == old(mem[area..])
    {
      loaded := [];
      LoadFits();
      for k := 0 to |ops|
        invariant Valid() && Outcome(recs, loaded) == RunSpec(size, old(recs), ops[..k])
        invariant AllShorter(loaded, area) ==> mem[area..] == old(mem[area..])
      {
        assert ops[..k + 1][..k] == ops[..k] && OpOk(ops[k]);
        match ops[k] {
          case Log(bytes) =>
            var msg := new byte[|bytes|](i requires 0 <= i < |bytes| => bytes[i]);
            assert msg[..] == bytes;
            QueuePut(msg);
          case Flush =>
            var more := FlushOne(mem, area);
            ShorterTogether(loaded, more, area);
            loaded := loaded + more;
        }
      }
      assert ops[..|ops|] == ops;
    }

    /** What bflog_flush() does with the queue: gets a record and looks whether there was one. */
    method FlushOne(mem: array<byte>, ghost area: nat) returns (loaded: seq<Record>)
      requires Valid() && mem != pool && 4 <= area <= mem.Length && size < mem.Length
      modifies this`rpos, this`free, this`recs, mem
      ensures Valid()
      ensures if old(recs) == [] then recs == [] && loaded == []
              else recs == old(recs)[1..] && loaded == [old(recs)[0]]
      ensures AllShorter(loaded, area) ==> mem[area..] == old(mem[area..])
    {
      LoadFits();
      ghost var oldest := recs;
      QueueGet(mem, area);
      assert oldest != [] ==> mem[..][ZERO_OFFSET] == oldest[0][ZERO_OFFSET];
      if mem[ZERO_OFFSET] == NO_MESSAGE {
        return [];
      }
      assert mem[..][0] == oldest[0][0] && mem[..][1] == oldest[0][1];
      var n := Le16(mem[0], mem[1]);
      loaded := [mem[..n]];
      assert loaded[0] == oldest[0];
    }

    /** No record is longer than the pool. */
    lemma LoadFits()
      requires Valid()
      ensures size >= 4 && (recs == [] <==> free == size)
      ensures recs != [] ==> IsRecord(recs[0]) && |recs[0]| <= size
    {
      if recs != [] { assert IsRecord(recs[0]); }
    }
  }

  /** What a record with a NUL behind it does to the memory behind the load area. */
  lemma TailAfter(mem: seq<byte>, mem': seq<byte>, r: Record, area: nat)
    requires |r| < |mem| && area <= |mem| && mem' == r + [0] + mem[|r| + 1..]
    ensures |r| < area ==> mem'[area..] == mem[area..]
    ensures |r| >= area && mem[|r|] != 0 ==> mem'[area..] != mem[area..]
  {
    if |r| >= area {
      assert mem'[area..][|r| - area] == 0 && mem[area..][|r| - area] == mem[|r|];
    }
  }

  predicate AllShorter(loaded: seq<Record>, area: nat) {
    forall k :: 0 <= k < |loaded| ==> |loaded[k]| < area
  }

  lemma ShorterTogether(a: seq<Record>, b: seq<Record>, area: nat)
    ensures AllShorter(a + b, area) ==> AllShorter(a, area) && AllShorter(b, area)
  {
    assert forall k :: 0 <= k < |a| ==> (a + b)[k] == a[k];
    assert forall k :: 0 <= k < |b| ==> (a + b)[|a| + k] == b[k];
  }

  // ---------------------------------------------------------------- how long messages get

  const LINE := 256   // BFLOG_LINE_BUFFER_SIZE

  /** The size that bflog() stores in a message with a header of `header` bytes, when formatting its text has answered
      `ret`: the length of the whole text, however much of it fits. */
  function MessageSize(header: nat, ret: int): nat {
    var size := header + (if 0 <= ret <= LINE then ret else LINE);
    if size % 4 != 0 then size / 4 * 4 + 4 else size
  }

  /** A message is as long as its header and text, rounded up to words; one too long or in error counts as a full line.
      bflog_flush() loads into an area of header + LINE bytes. Every message fits it, but the NUL behind the message
      only does if the text has at most 252 characters. */
  lemma FlushAreaFits(header: nat, ret: int)
    requires header % 4 == 0
    ensures MessageSize(header, ret) % 4 == 0 && MessageSize(header, ret) <= header + LINE
    ensures 0 <= ret <= 256 ==> header + ret <= MessageSize(header, ret) < header + ret + 4
    ensures ret < 0 || ret > 256 ==> MessageSize(header, ret) == header + 256
    ensures MessageSize(header, ret) < header + LINE <==> 0 <= ret <= 252
  {
  }

  // ---------------------------------------------------------------- runs

  datatype Op = Log(bytes: seq<byte>) | Flush

  predicate OpOk(op: Op) {
    op.Log? ==> IsMessage(op.bytes)
  }

  datatype Outcome = Outcome(recs: seq<Record>, loaded: seq<Record>)

  function RunSpec(size: nat, recs: seq<Record>, ops: seq<Op>): Outcome
    requires 4 <= size < 0x1_0000 && forall k :: 0 <= k < |ops| ==> OpOk(ops[k])
    decreases |ops|
  {
    if ops == [] then Outcome(recs, [])
    else
      var before := RunSpec(size, recs, ops[..|ops| - 1]);
      assert OpOk(ops[|ops| - 1]);
      match ops[|ops| - 1]
      case Log(bytes) => Outcome(AfterPut(size, before.recs, Stored(size, bytes)), before.loaded)
      case Flush =>
        if before.recs == [] then before
        else Outcome(before.recs[1..], before.loaded + [before.recs[0]])
  }
}
