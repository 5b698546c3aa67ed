/** Stretches of a circular buffer, seen as sequences. */
module RingSeq {

  type byte = b: int | 0 <= b < 256

  /** An index into a buffer of n elements that may have run once past its end. */
  function Wrap(p: nat, n: nat): (r: nat)
    requires p < 2 * n
    ensures r < n
  {
    if p >= n then p - n else p
  }

  /** How far index p lies behind index `at`, going round. */
  function Behind(at: nat, p: nat, n: nat): (k: nat)
    requires at < n && p < n
    ensures k < n && Wrap(at + k, n) == p
  {
    if p >= at then p - at else p + n - at
  }

  /** The `len` elements that start at `start`, going round. */
  function Window<T>(buf: seq<T>, start: nat, len: nat): (w: seq<T>)
    requires start < |buf| && len <= |buf|
    ensures |w| == len
  {
    seq(len, k requires 0 <= k < len => buf[Wrap(start + k, |buf|)])
  }

  /** The buffer after `data` has been stored at `at`, going round. */
  function Put<T>(buf: seq<T>, at: nat, data: seq<T>): (b: seq<T>)
    requires at < |buf| && |data| <= |buf|
    ensures |b| == |buf|
  {
    seq(|buf|, p requires 0 <= p < |buf| =>
      var k := Behind(at, p, |buf|); if k < |data| then data[k] else buf[p])
  }

  /** Two copies, one up to the end of the buffer and one from its beginning, store the data going round. */
  lemma PutInTwo<T>(buf: seq<T>, at: nat, data: seq<T>)
    requires at < |buf| && |data| <= |buf| && |buf| - at <= |data|
    ensures var rem := |buf| - at;
            data[rem..] + (buf[..at] + data[..rem])[|data| - rem..] == Put(buf, at, data)
  {
    var rem := |buf| - at;
    var l, r := data[rem..] + (buf[..at] + data[..rem])[|data| - rem..], Put(buf, at, data);
    forall p | 0 <= p < |buf| ensures l[p] == r[p] {
      assert Behind(at, p, |buf|) == if p >= at then p - at else p + rem;
    }
  }

  lemma PutInOne<T>(buf: seq<T>, at: nat, data: seq<T>)
    requires at < |buf| && at + |data| <= |buf|
    ensures buf[..at] + data + buf[at + |data|..] == Put(buf, at, data)
  {
    var l, r := buf[..at] + data + buf[at + |data|..], Put(buf, at, data);
    forall p | 0 <= p < |buf| ensures l[p] == r[p] {
      assert Behind(at, p, |buf|) == if p >= at then p - at else p + |buf| - at;
    }
  }

  /** A window that goes over the end of the buffer is read in two pieces. */
  lemma WindowInTwo<T>(buf: seq<T>, start: nat, len: nat)
    requires start < |buf| && len <= |buf| && |buf| - start <= len
    ensures buf[start..] + buf[..len - (|buf| - start)] == Window(buf, start, len)
  {
    var l, w := buf[start..] + buf[..len - (|buf| - start)], Window(buf, start, len);
    forall k | 0 <= k < len ensures l[k] == w[k] {
      assert w[k] == buf[Wrap(start + k, |buf|)];
    }
  }

  lemma WindowInOne<T>(buf: seq<T>, start: nat, len: nat)
    requires start + len <= |buf| && start < |buf|
    ensures buf[start..start + len] == Window(buf, start, len)
  {
    var l, w := buf[start..start + len], Window(buf, start, len);
    forall k | 0 <= k < len ensures l[k] == w[k] {
      assert w[k] == buf[Wrap(start + k, |buf|)];
    }
  }

  /** Dropping from the front moves the start. */
  lemma WindowDrop<T>(buf: seq<T>, start: nat, len: nat, k: nat)
    requires start < |buf| && k <= len <= |buf|
    ensures Window(buf, Wrap(start + k, |buf|), len - k) == Window(buf, start, len)[k..]
  {
    var w, v := Window(buf, Wrap(start + k, |buf|), len - k), Window(buf, start, len);
    forall i | 0 <= i < len - k ensures w[i] == v[k..][i] {
      assert w[i] == buf[Wrap(Wrap(start + k, |buf|) + i, |buf|)] && v[k + i] == buf[Wrap(start + k + i, |buf|)];
    }
  }

  lemma WindowTake<T>(buf: seq<T>, start: nat, len: nat, k: nat)
    requires start < |buf| && k <= len <= |buf|
    ensures Window(buf, start, k) == Window(buf, start, len)[..k]
  {
  }

  /** Storing behind a window extends it, as long as there is room. */
  lemma WindowAppend<T>(buf: seq<T>, start: nat, len: nat, data: seq<T>)
    requires start < |buf| && len + |data| <= |buf|
    ensures Window(Put(buf, Wrap(start + len, |buf|), data), start, len + |data|) == Window(buf, start, len) + data
  {
    var n, at := |buf|, Wrap(start + len, |buf|);
    var w, v := Window(Put(buf, at, data), start, len + |data|), Window(buf, start, len);
    forall k | 0 <= k < len + |data| ensures w[k] == (v + data)[k] {
      var p := Wrap(start + k, n);
      assert w[k] == Put(buf, at, data)[p];
      assert if k < len then Behind(at, p, n) >= n - len else Behind(at, p, n) == k - len;
    }
  }

  /** Storing over the oldest elements leaves the newest |buf| of old and new together, starting right behind what
      was stored. */
  lemma WindowOverwrite<T>(buf: seq<T>, start: nat, len: nat, data: seq<T>)
    requires start < |buf| && len <= |buf| && |data| <= |buf| <= len + |data|
    ensures var at := Wrap(start + len, |buf|);
            Window(Put(buf, at, data), Wrap(at + |data|, |buf|), |buf|)
            == (Window(buf, start, len) + data)[len + |data| - |buf|..]
  {
    var n, at := |buf|, Wrap(start + len, |buf|);
    var start' := Wrap(at + |data|, n);
    var w, v := Window(Put(buf, at, data), start', n), Window(buf, start, len);
    forall k | 0 <= k < n ensures w[k] == (v + data)[len + |data| - n..][k] {
      var p := Wrap(start' + k, n);
      assert w[k] == Put(buf, at, data)[p];
      assert if k < n - |data| then Behind(at, p, n) == |data| + k else Behind(at, p, n) == k - (n - |data|);
      assert k < n - |data| ==> p == Wrap(start + (len + |data| - n + k), n);
    }
  }

  /** The last `size` elements of a sequence, or all of it. */
  function Newest<T>(s: seq<T>, size: nat): (r: seq<T>)
    ensures |s| <= size ==> r == s
    ensures |s| > size ==> |r| == size
  {
    if |s| <= size then s else s[|s| - size..]
  }

  /** Storing the newest part of `data` behind a window, whether or not it runs over the window's oldest elements. */
  lemma WindowForce<T>(buf: seq<T>, start: nat, len: nat, data: seq<T>)
    requires start < |buf| && len <= |buf|
    ensures var src, at := Newest(data, |buf|), Wrap(start + len, |buf|);
            var w := Newest(Window(buf, start, len) + data, |buf|);
            if len + |src| <= |buf| then Window(Put(buf, at, src), start, len + |src|) == w
            else Window(Put(buf, at, src), Wrap(at + |src|, |buf|), |buf|) == w
  {
    var src := Newest(data, |buf|);
    var v := Window(buf, start, len);
    if len + |src| <= |buf| {
      WindowAppend(buf, start, len, src);
      assert Newest(v + data, |buf|) == v + src;
    } else {
      WindowOverwrite(buf, start, len, src);
      assert Newest(v + data, |buf|) == (v + src)[len + |src| - |buf|..];
    }
  }

  /** memcpy() into an array. */
  method MemCpy(dst: array<byte>, at: nat, src: seq<byte>)
    requires at + |src| <= dst.Length
    modifies dst
    ensures dst[..] == old(dst[..at]) + src + old(dst[at + |src|..])
  {
    forall k | 0 <= k < |src| {
      dst[at + k] := src[k];
    }
  }

  /** Stores data into a circular buffer: one copy if it ends before the end of the buffer, else two. */
  method CopyIn(ring: array<byte>, at: nat, data: seq<byte>)
    requires at < ring.Length && |data| <= ring.Length
    modifies ring
    ensures ring[..] == Put(old(ring[..]), at, data)
  {
    ghost var buf := ring[..];
    var rem := ring.Length - at;
    if rem > |data| {
      MemCpy(ring, at, data);
      PutInOne(buf, at, data);
    } else {
      MemCpy(ring, at, data[..rem]);
      assert ring[..] == buf[..at] + data[..rem];
      MemCpy(ring, 0, data[rem..]);
      PutInTwo(buf, at, data);
    }
  }

  /** Two copies into an array, one behind the other. */
  lemma LoadInTwo<T>(d0: seq<T>, a: seq<T>, b: seq<T>, d1: seq<T>, d2: seq<T>, n: nat)
    requires n == |a| + |b| <= |d0| && d1 == d0[..0] + a + d0[|a|..] && d2 == d1[..|a|] + b + d1[n..]
    ensures d2 == a + b + d0[n..]
  {
    assert d1[..|a|] == a && d1[n..] == d0[n..];
  }

  /** Loads n bytes from a circular buffer, in one copy or two. */
  method CopyOut(ring: array<byte>, start: nat, data: array<byte>, n: nat)
    requires start < ring.Length && n <= ring.Length && n <= data.Length && data != ring
    modifies data
    ensures data[..] == Window(ring[..], start, n) + old(data[n..])
  {
    var rem := ring.Length - start;
    if rem > n {
      MemCpy(data, 0, ring[start..start + n]);
      WindowInOne(ring[..], start, n);
    } else {
      MemCpy(data, 0, ring[start..]);
      ghost var first := data[..];
      MemCpy(data, rem, ring[..n - rem]);
      LoadInTwo(old(data[..]), ring[start..], ring[..n - rem], first, data[..], n);
      WindowInTwo(ring[..], start, n);
    }
  }
}
