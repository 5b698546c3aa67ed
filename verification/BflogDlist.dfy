/** Recorders and their output lists: intrusive circular lists that are linked and unlinked in place. */
module BflogDlist {
  import opened Options
  import opened Seqs

  const ILLEGAL := 0
  const READY := 1
  const RUNNING := 2
  const SUSPEND := 3

  datatype Link = Link(next: nat, prev: nat)

  type Heap = seq<Link>

  // ---------------------------------------------------------------- circular lists

  /** The node in place i of the circle: the head, the listed nodes, and the head again. */
  function At(head: nat, s: seq<nat>, i: nat): nat
    requires i <= |s| + 1
  {
    if i == 0 || i == |s| + 1 then head else s[i - 1]
  }

  predicate Joint(h: Heap, a: nat, b: nat) {
    a < |h| && b < |h| && h[a].next == b && h[b].prev == a
  }

  /** From the head, next leads through s and back, and prev leads the other way round. */
  predicate Ring(h: Heap, head: nat, s: seq<nat>) {
    forall i :: 0 <= i <= |s| ==> Joint(h, At(head, s, i), At(head, s, i + 1))
  }

  /** A proper list: a ring in which no node, and in particular not the head, comes twice. */
  predicate IsList(h: Heap, head: nat, s: seq<nat>) {
    Ring(h, head, s) && NoDouble(s) && head !in s
  }

  lemma ListWithin(h: Heap, head: nat, s: seq<nat>)
    requires Ring(h, head, s)
    ensures head < |h| && forall x :: x in s ==> x < |h|
  {
    assert Joint(h, At(head, s, 0), At(head, s, 1));
    forall x | x in s ensures x < |h| {
      var i :| 0 <= i < |s| && s[i] == x;
      assert Joint(h, At(head, s, i), At(head, s, i + 1));
    }
  }

  lemma ListFrame(h: Heap, h': Heap, head: nat, s: seq<nat>)
    requires IsList(h, head, s) && |h'| == |h|
    requires forall x :: x < |h| && (x == head || x in s) ==> h'[x] == h[x]
    ensures IsList(h', head, s)
  {
    forall i | 0 <= i <= |s| ensures Joint(h', At(head, s, i), At(head, s, i + 1)) {
      assert Joint(h, At(head, s, i), At(head, s, i + 1));
    }
  }

  /** bflog_dlist_insert_before(): what the four assignments make of the links. */
  function Inserted(h: Heap, p: nat, n: nat): Heap
    requires p < |h| && n < |h| && h[p].prev < |h|
  {
    var last := h[p].prev;
    var h1 := h[last := h[last].(next := n)];
    var h2 := h1[n := h1[n].(prev := last)];
    var h3 := h2[p := h2[p].(prev := n)];
    h3[n := h3[n].(next := p)]
  }

  /** Inserting before the head appends at the tail. */
  lemma InsertAppends(h: Heap, head: nat, s: seq<nat>, n: nat)
    requires IsList(h, head, s) && n < |h| && n != head && n !in s
    ensures head < |h| && h[head].prev == At(head, s, |s|) && h[head].prev < |h|
    ensures IsList(Inserted(h, head, n), head, s + [n])
  {
    var s', last := s + [n], At(head, s, |s|);
    assert Joint(h, last, At(head, s, |s| + 1));
    var h' := Inserted(h, head, n);
    forall i | 0 <= i <= |s'| ensures Joint(h', At(head, s', i), At(head, s', i + 1)) {
      if i < |s| {
        assert Joint(h, At(head, s, i), At(head, s, i + 1));
        assert At(head, s', i) == At(head, s, i) && At(head, s', i + 1) == At(head, s, i + 1);
        if i != 0 { assert s[i - 1] != s[|s| - 1] && s[i - 1] != head; }
      }
    }
  }

  /** bflog_dlist_remove(): its four assignments. */
  function Removed(h: Heap, n: nat): Heap
    requires n < |h| && h[n].next < |h| && h[n].prev < |h|
  {
    var next := h[n].next;
    var h1 := h[next := h[next].(prev := h[n].prev)];
    var h2 := h1[h1[n].prev := h1[h1[n].prev].(next := h1[n].next)];
    var h3 := h2[n := h2[n].(next := n)];
    h3[n := h3[n].(prev := n)]
  }

  function Without(s: seq<nat>, i: nat): seq<nat>
    requires i < |s|
  {
    s[..i] + s[i + 1..]
  }

  lemma RemoveUnlinks(h: Heap, head: nat, s: seq<nat>, k: nat)
    requires IsList(h, head, s) && k < |s|
    ensures s[k] < |h| && h[s[k]] == Link(At(head, s, k + 2), At(head, s, k))
    ensures h[s[k]].next < |h| && h[s[k]].prev < |h|
    ensures IsList(Removed(h, s[k]), head, Without(s, k)) && Removed(h, s[k])[s[k]] == Link(s[k], s[k])
  {
    var n, s' := s[k], Without(s, k);
    assert Joint(h, At(head, s, k), At(head, s, k + 1));
    assert Joint(h, At(head, s, k + 1), At(head, s, k + 2));
    var h' := Removed(h, n);
    forall i | 0 <= i <= |s'| ensures Joint(h', At(head, s', i), At(head, s', i + 1)) {
      var a := if i <= k then i else i + 1;
      var b := if i + 1 <= k then i + 1 else i + 2;
      assert At(head, s', i) == At(head, s, a) && At(head, s', i + 1) == At(head, s, b);
      if i != k { assert Joint(h, At(head, s, a), At(head, s, a + 1)); }
    }
  }

  // ---------------------------------------------------------------- all lists together

  /** All nodes of the list s of recorder l are outputs, and call l their home. The nodes below `heads` are the heads
      of the recorders. */
  predicate Housed(s: seq<nat>, home: seq<Option<nat>>, heads: nat, l: nat) {
    forall x :: x in s ==> heads <= x < |home| && home[x] == Some(l)
  }

  /** A node that has a home is in its list. */
  predicate Listed(lists: seq<seq<nat>>, home: seq<Option<nat>>, x: nat)
    requires x < |home|
  {
    home[x].Some? ==> home[x].value < |lists| && x in lists[home[x].value]
  }

  predicate ListOk(h: Heap, lists: seq<seq<nat>>, home: seq<Option<nat>>, l: nat)
    requires l < |lists|
  {
    IsList(h, l, lists[l]) && Housed(lists[l], home, |lists|, l)
  }

  /** Outputs that are in no list are linked to themselves; the others are suspended or running. */
  predicate OutOk(h: Heap, lists: seq<seq<nat>>, home: seq<Option<nat>>, status: seq<nat>, x: nat)
    requires x < |h| == |home| == |status|
  {
    && Listed(lists, home, x)
    && if home[x].None? then h[x] == Link(x, x) else status[x] == SUSPEND || status[x] == RUNNING
  }

  /** Recorder l has the list lists[l], and home[x] says to which recorder output x is linked. */
  predicate World(h: Heap, lists: seq<seq<nat>>, home: seq<Option<nat>>, status: seq<nat>) {
    && |h| == |home| == |status| && |lists| <= |h|
    && (forall l :: 0 <= l < |lists| ==> ListOk(h, lists, home, l))
    && (forall x :: |lists| <= x < |h| ==> OutOk(h, lists, home, status, x))
  }

  /** Lists of different recorders have no node in common. */
  lemma ListsApart(h: Heap, lists: seq<seq<nat>>, home: seq<Option<nat>>, status: seq<nat>, l: nat, m: nat, x: nat)
    requires World(h, lists, home, status) && l < |lists| && m < |lists| && x in lists[l] && x in lists[m]
    ensures l == m
  {
    assert ListOk(h, lists, home, l) && ListOk(h, lists, home, m);
    assert home[x] == Some(l);
  }

  lemma OtherList(h: Heap, h': Heap, lists: seq<seq<nat>>, home: seq<Option<nat>>, home': seq<Option<nat>>, l: nat,
      m: nat)
    requires l < |lists| && m < |lists| && m != l && ListOk(h, lists, home, m) && |h'| == |h| == |home| == |home'|
    requires forall x :: 0 <= x < |h| && x != l && (x < |lists| || home[x] == Some(m)) ==>
               h'[x] == h[x] && home'[x] == home[x]
    ensures IsList(h', m, lists[m]) && Housed(lists[m], home', |lists|, m)
  {
    ListWithin(h, m, lists[m]);
    ListFrame(h, h', m, lists[m]);
  }

  lemma AppendKeepsWorld(h: Heap, lists: seq<seq<nat>>, home: seq<Option<nat>>, status: seq<nat>, l: nat, n: nat)
    requires World(h, lists, home, status) && l < |lists| <= n < |h| && home[n].None?
    ensures l < |h| && h[l].prev < |h|
    ensures World(Inserted(h, l, n), lists[l := lists[l] + [n]], home[n := Some(l)], status[n := SUSPEND])
  {
    var s := lists[l];
    assert ListOk(h, lists, home, l);
    InsertAppends(h, l, s, n);
    var h', lists', home', status' := Inserted(h, l, n), lists[l := s + [n]], home[n := Some(l)], status[n := SUSPEND];
    var last := h[l].prev;
    assert last == l || last in s;
    assert last == l || (|lists| <= last && home[last] == Some(l));
    forall m | 0 <= m < |lists| ensures ListOk(h', lists', home', m) {
      assert ListOk(h, lists, home, m);
      if m != l { OtherList(h, h', lists, home, home', l, m); }
    }
    forall x | |lists| <= x < |h| ensures OutOk(h', lists', home', status', x) {
      assert OutOk(h, lists, home, status, x);
    }
  }

  lemma WithoutMembers(s: seq<nat>, k: nat, x: nat)
    requires k < |s| && NoDouble(s)
    ensures x in Without(s, k) <==> x in s && x != s[k]
  {
    if x in s && x != s[k] {
      var i :| 0 <= i < |s| && s[i] == x;
      assert Without(s, k)[if i < k then i else i - 1] == x;
    }
  }

  lemma RemoveKeepsWorld(h: Heap, lists: seq<seq<nat>>, home: seq<Option<nat>>, status: seq<nat>, l: nat, k: nat,
      st: nat)
    requires World(h, lists, home, status) && l < |lists| && k < |lists[l]|
    ensures var n := lists[l][k];
            && n < |h| && h[n].next < |h| && h[n].prev < |h|
            && World(Removed(h, n), lists[l := Without(lists[l], k)], home[n := None], status[n := st])
  {
    var s := lists[l];
    var n := s[k];
    assert ListOk(h, lists, home, l);
    RemoveUnlinks(h, l, s, k);
    var h', s' := Removed(h, n), Without(s, k);
    var lists', home', status' := lists[l := s'], home[n := None], status[n := st];
    var a, b := h[n].prev, h[n].next;
    assert (a == l || a in s) && (b == l || b in s);
    assert (a == l || (|lists| <= a && home[a] == Some(l))) && (b == l || (|lists| <= b && home[b] == Some(l)));
    assert n in s;
    assert |lists| <= n && home[n] == Some(l);
    forall x ensures x in s' <==> x in s && x != n { WithoutMembers(s, k, x); }
    forall m | 0 <= m < |lists| ensures ListOk(h', lists', home', m) {
      assert ListOk(h, lists, home, m);
      if m != l { OtherList(h, h', lists, home, home', l, m); }
    }
    forall x | |lists| <= x < |h| ensures OutOk(h', lists', home', status', x) {
      assert OutOk(h, lists, home, status, x);
    }
  }

  /** A listed node is not linked to itself. */
  lemma NeverAlone(h: Heap, lists: seq<seq<nat>>, home: seq<Option<nat>>, l: nat, x: nat)
    requires l < |lists| && ListOk(h, lists, home, l) && x < |h|
    ensures x in lists[l] ==> h[x].next != x
  {
    var s := lists[l];
    if x in s {
      var k :| 0 <= k < |s| && s[k] == x;
      assert Joint(h, At(l, s, k + 1), At(l, s, k + 2));
    }
  }

  lemma FirstNext(h: Heap, lists: seq<seq<nat>>, home: seq<Option<nat>>, l: nat)
    requires l < |lists| && ListOk(h, lists, home, l)
    ensures l < |h| && h[l].next == At(l, lists[l], 1) && h[l].next < |h|
  {
    assert Joint(h, At(l, lists[l], 0), At(l, lists[l], 1));
  }

  function Ended(status: nat): nat { if status == RUNNING then READY else status }

  /** The outputs of s are free, the running ones ready again; all other nodes but the head are as before. */
  predicate Freed(s: seq<nat>, head: nat, home0: seq<Option<nat>>, status0: seq<nat>, home: seq<Option<nat>>,
      status: seq<nat>) {
    && |home0| == |status0| == |home| == |status|
    && forall x :: 0 <= x < |home| && x != head ==>
         home[x] == (if x in s then None else home0[x]) && status[x] == if x in s then Ended(status0[x]) else status0[x]
  }

  lemma StatusOfLog(h: Heap, lists: seq<seq<nat>>, home: seq<Option<nat>>, status: seq<nat>, l: nat, s: nat)
    requires World(h, lists, home, status) && l < |lists|
    ensures World(h, lists, home, status[l := s])
  {
    var status' := status[l := s];
    forall x | |lists| <= x < |h| ensures OutOk(h, lists, home, status', x) {
      assert OutOk(h, lists, home, status, x);
    }
  }

  lemma StatusOfDirect(h: Heap, lists: seq<seq<nat>>, home: seq<Option<nat>>, status: seq<nat>, n: nat, s: nat)
    requires World(h, lists, home, status) && |lists| <= n < |h| && (s == SUSPEND || s == RUNNING)
    ensures World(h, lists, home, status[n := s])
  {
    var status' := status[n := s];
    forall x | |lists| <= x < |h| ensures OutOk(h, lists, home, status', x) {
      assert OutOk(h, lists, home, status, x);
    }
  }

  // ---------------------------------------------------------------- the recorders

  class Node {
    const number: nat
    var next: nat
    var prev: nat
    /** The status of the recorder or output that the node is part of. */
    var status: nat

    constructor (number: nat, status: nat)
      ensures this.number == number && next == number && prev == number && this.status == status
    {
      this.number, next, prev, this.status := number, number, number, status;
    }
  }

  /** The operations on recorders and outputs. Each may fail to get the recorder's lock. */
  datatype Op =
    | Append(log: nat, direct: nat, locked: bool)
    | Remove(log: nat, direct: nat, locked: bool)
    | Delete(log: nat, locked: bool)
    | Suspend(log: nat, locked: bool)
    | Resume(log: nat, locked: bool)
    | DirectSuspend(direct: nat)
    | DirectResume(direct: nat)

  class Recorders {
    /** The nodes of the recorders, then those of the outputs. */
    const nodes: seq<Node>
    const logs: nat
    ghost var lists: seq<seq<nat>>
    ghost var home: seq<Option<nat>>

    constructor (nodes: seq<Node>, logs: nat)
      requires logs <= |nodes|
      requires forall i :: 0 <= i < |nodes| ==> nodes[i].number == nodes[i].next == nodes[i].prev == i
      ensures Valid() && this.nodes == nodes && this.logs == logs
      ensures forall l :: 0 <= l < logs ==> lists[l] == []
    {
      this.nodes, this.logs := nodes, logs;
      lists := seq(logs, _ => []);
      home := seq(|nodes|, _ => None);
      new;
      forall l | 0 <= l < logs ensures ListOk(LinksNow(), lists, home, l) {
        assert Joint(LinksNow(), At(l, [], 0), At(l, [], 1));
      }
    }

    ghost function LinksNow(): (h: Heap)
      reads nodes
      ensures |h| == |nodes|
      ensures forall i {:trigger h[i]} :: 0 <= i < |h| ==> h[i] == Link(nodes[i].next, nodes[i].prev)
    {
      seq(|nodes|, i requires 0 <= i < |nodes| reads nodes => Link(nodes[i].next, nodes[i].prev))
    }

    ghost function StatusNow(): (s: seq<nat>)
      reads nodes
      ensures |s| == |nodes|
      ensures forall i {:trigger s[i]} :: 0 <= i < |s| ==> s[i] == nodes[i].status
    {
      seq(|nodes|, i requires 0 <= i < |nodes| reads nodes => nodes[i].status)
    }

    predicate Ok() {
      logs <= |nodes| && forall i :: 0 <= i < |nodes| ==> nodes[i].number == i
    }

    ghost predicate Valid()
      reads this, nodes
    {
      Ok() && |lists| == logs && World(LinksNow(), lists, home, StatusNow())
    }

    method SetNext(i: nat, n: nat)
      requires Ok() && i < |nodes|
      modifies {nodes[i]}`next
      ensures LinksNow() == old(LinksNow())[i := old(LinksNow())[i].(next := n)] && StatusNow() == old(StatusNow())
    {
      nodes[i].next := n;
    }

    method SetPrev(i: nat, n: nat)
      requires Ok() && i < |nodes|
      modifies {nodes[i]}`prev
      ensures LinksNow() == old(LinksNow())[i := old(LinksNow())[i].(prev := n)] && StatusNow() == old(StatusNow())
    {
      nodes[i].prev := n;
    }

    method SetStatus(i: nat, s: nat)
      requires Ok() && i < |nodes|
      modifies {nodes[i]}`status
      ensures LinksNow() == old(LinksNow()) && StatusNow() == old(StatusNow())[i := s]
    {
      nodes[i].status := s;
    }

    /** bflog_dlist_insert_before() */
    method InsertBefore(list: nat, node: nat)
      requires Ok() && list < |nodes| && node < |nodes| && nodes[list].prev < |nodes|
      modifies nodes
      ensures LinksNow() == Inserted(old(LinksNow()), list, node) && StatusNow() == old(StatusNow())
    {
      assert LinksNow()[list].prev == nodes[list].prev;
      SetNext(nodes[list].prev, node);
      assert LinksNow()[list].prev == nodes[list].prev;
      SetPrev(node, nodes[list].prev);
      SetPrev(list, node);
      SetNext(node, list);
    }

    /** bflog_dlist_remove() */
    method Unlink(node: nat)
      requires Ok() && node < |nodes| && nodes[node].next < |nodes| && nodes[node].prev < |nodes|
      modifies nodes
      ensures LinksNow() == Removed(old(LinksNow()), node) && StatusNow() == old(StatusNow())
    {
      ghost var h := LinksNow();
      assert h[node] == Link(nodes[node].next, nodes[node].prev);
      SetPrev(nodes[node].next, nodes[node].prev);
      ghost var h1 := LinksNow();
      assert h1[node] == Link(nodes[node].next, nodes[node].prev);
      SetNext(nodes[node].prev, nodes[node].next);
      SetNext(node, node);
      SetPrev(node, node);
    }

    predicate Open(log: nat)
      requires log < |nodes|
      reads nodes
    {
      IsOpen(nodes[log].status)
    }

    predicate IsLog(x: nat) { x < logs }

    predicate IsDirect(x: nat) { logs <= x < |nodes| }

    /** bflog_append(): links a ready output at the tail. */
    method Append(log: nat, direct: nat, locked: bool) returns (r: int)
      requires Valid() && IsLog(log) && IsDirect(direct)
      modifies this, nodes
      ensures Valid() && (r == 0 || r == -1)
      ensures r == 0 <==> old(Open(log)) && locked && old(nodes[direct].status) == READY
      ensures r == 0 ==>
        lists == old(lists)[log := old(lists[log]) + [direct]] && home == old(home)[direct := Some(log)]
      ensures r == 0 ==> StatusNow() == old(StatusNow())[direct := SUSPEND]
      ensures r != 0 ==> lists == old(lists) && home == old(home) && StatusNow() == old(StatusNow())
    {
      if !Open(log) { return -1; }
      if !locked { return -1; }
      if nodes[direct].status != READY { return -1; }
      assert OutOk(LinksNow(), lists, home, StatusNow(), direct);
      if nodes[direct].next != direct { return -1; }
      AppendKeepsWorld(LinksNow(), lists, home, StatusNow(), log, direct);
      assert LinksNow()[log].prev == nodes[log].prev;
      InsertBefore(log, direct);
      SetStatus(direct, SUSPEND);
      lists := lists[log := lists[log] + [direct]];
      home := home[direct := Some(log)];
      return 0;
    }

    /** Takes node k of a list out, in the links and in the lists. */
    method TakeOut(log: nat, ghost k: nat, direct: nat, st: nat)
      requires Valid() && IsLog(log) && k < |lists[log]| && lists[log][k] == direct
      modifies this, nodes
      ensures IsDirect(direct) && StatusNow() == old(StatusNow())[direct := st]
      ensures Valid() && lists == old(lists)[log := Without(old(lists[log]), k)] && home == old(home)[direct := None]
    {
      assert ListOk(LinksNow(), lists, home, log) && direct in lists[log];
      RemoveKeepsWorld(LinksNow(), lists, home, StatusNow(), log, k, st);
      assert LinksNow()[direct] == Link(nodes[direct].next, nodes[direct].prev);
      Unlink(direct);
      SetStatus(direct, st);
      lists := lists[log := Without(lists[log], k)];
      home := home[direct := None];
    }

    /** Looks for an output among those of a recorder. */
    method Find(log: nat, direct: nat) returns (found: bool, ghost k: nat)
      requires Valid() && IsLog(log) && IsDirect(direct)
      ensures found == (direct in lists[log])
      ensures found ==> k < |lists[log]| && lists[log][k] == direct
    {
      ghost var h, s := LinksNow(), lists[log];
      assert ListOk(h, lists, home, log);
      k := 0;
      assert Joint(h, At(log, s, 0), At(log, s, 1)) && h[log].next == nodes[log].next;
      var node := nodes[log].next;
      while node != log
        invariant k <= |s| && node == At(log, s, k + 1) && direct !in s[..k]
        decreases |s| - k
      {
        if node == direct { return true, k; }
        assert Joint(h, At(log, s, k + 1), At(log, s, k + 2)) && h[node].next == nodes[node].next;
        node := nodes[node].next;
        k := k + 1;
      }
      found := false;
    }

    /** bflog_remove(): unlinks a suspended output of this recorder, and only that one. */
    method Remove(log: nat, direct: nat, locked: bool) returns (r: int)
      requires Valid() && IsLog(log) && IsDirect(direct)
      modifies this, nodes
      ensures Valid() && (r == 0 || r == -1)
      ensures r == 0 <==> old(Open(log)) && locked && old(nodes[direct].status) == SUSPEND && direct in old(lists[log])
      ensures r == 0 ==> exists k :: 0 <= k < |old(lists[log])| && old(lists[log])[k] == direct
                                     && lists == old(lists)[log := Without(old(lists[log]), k)]
      ensures r == 0 ==> home == old(home)[direct := None] && StatusNow() == old(StatusNow())[direct := READY]
      ensures r != 0 ==> lists == old(lists) && home == old(home) && StatusNow() == old(StatusNow())
    {
      if !Open(log) { return -1; }
      if !locked { return -1; }
      if nodes[direct].status != SUSPEND { return -1; }
      assert ListOk(LinksNow(), lists, home, log);
      assert OutOk(LinksNow(), lists, home, StatusNow(), direct);
      NeverAlone(LinksNow(), lists, home, log, direct);
      assert LinksNow()[direct].next == nodes[direct].next;
      if nodes[direct].next == direct { return -1; }
      var found;
      ghost var k;
      found, k := Find(log, direct);
      if !found { return -1; }
      TakeOut(log, k, direct, READY);
      return 0;
    }

    /** bflog_delete(): unlinks all outputs. The running ones are ready again; the suspended ones stay suspended. A
        recorder that is not open is left as it is, and the answer is 0 all the same. */
    method Delete(log: nat, locked: bool) returns (r: int)
      requires Valid() && IsLog(log)
      modifies this, nodes
      ensures Valid() && r == if old(Open(log)) && !locked then -1 else 0
      ensures old(Open(log)) && locked ==> lists == old(lists)[log := []] && nodes[log].status == ILLEGAL
      ensures old(Open(log)) && locked ==> Freed(old(lists[log]), log, old(home), old(StatusNow()), home, StatusNow())
      ensures !(old(Open(log)) && locked) ==>
        lists == old(lists) && home == old(home) && StatusNow() == old(StatusNow())
    {
      if !Open(log) { return 0; }
      if !locked { return -1; }
      UnlinkAll(log);
      StatusOfLog(LinksNow(), lists, home, StatusNow(), log, ILLEGAL);
      SetStatus(log, ILLEGAL);
      assert StatusNow()[log] == nodes[log].status;
      return 0;
    }

    method UnlinkAll(log: nat)
      requires Valid() && IsLog(log)
      modifies this, nodes
      ensures Valid() && lists == old(lists)[log := []]
      ensures Freed(old(lists[log]), log, old(home), old(StatusNow()), home, StatusNow())
    {
      ghost var s := lists[log];
      FirstNext(LinksNow(), lists, home, log);
      assert LinksNow()[log].next == nodes[log].next;
      var node := nodes[log].next;
      var next := nodes[node].next;
      while node != log
        invariant Valid() && |lists[log]| <= |s| && lists == old(lists)[log := s[|s| - |lists[log]|..]]
        invariant node == At(log, lists[log], 1) && node < |nodes| && next == nodes[node].next
        invariant Freed(s[..|s| - |lists[log]|], log, old(home), old(StatusNow()), home, StatusNow())
        decreases |lists[log]|
      {
        ghost var j := |s| - |lists[log]|;
        UnlinkFirst(log, node);
        FirstNext(LinksNow(), lists, home, log);
        assert s[..j + 1] == s[..j] + [node];
        assert s[j..][1..] == s[j + 1..];
        node := next;
        next := nodes[node].next;
      }
      assert s[..|s|] == s;
    }

    /** One turn of the loop of bflog_delete(). */
    method UnlinkFirst(log: nat, node: nat)
      requires Valid() && IsLog(log) && lists[log] != [] && node == lists[log][0]
      modifies this, nodes
      ensures IsDirect(node) && StatusNow() == old(StatusNow())[node := Ended(old(nodes[node].status))]
      ensures Valid() && lists == old(lists)[log := old(lists[log])[1..]] && home == old(home)[node := None]
      ensures old(nodes[node].next) == At(log, lists[log], 1)
    {
      ghost var h, s := LinksNow(), lists[log];
      assert ListOk(h, lists, home, log);
      assert Joint(h, At(log, s, 1), At(log, s, 2)) && h[node].next == nodes[node].next;
      assert Without(s, 0) == s[1..];
      TakeOut(log, 0, node, if nodes[node].status == RUNNING then READY else nodes[node].status);
    }

    // ---------------------------------------------------------------- suspending and resuming

    /** bflog_suspend() and bflog_resume() change the status of an existing recorder to s. */
    method Change(log: nat, s: nat, locked: bool) returns (r: int)
      requires Valid() && IsLog(log) && (s == SUSPEND || s == RUNNING)
      modifies nodes
      ensures Valid() && LinksNow() == old(LinksNow())
      ensures var st := old(nodes[log].status);
              var alive := st == READY || st == RUNNING || st == SUSPEND;
              && r == (if alive && (st == s || locked) then 0 else -1)
              && StatusNow() == old(StatusNow())[log := if r == 0 then s else st]
    {
      var st := nodes[log].status;
      if st == s { return 0; }
      if st != READY && st != RUNNING && st != SUSPEND { return -1; }
      if !locked { return -1; }
      SetStatus(log, s);
      StatusOfLog(LinksNow(), lists, home, old(StatusNow()), log, s);
      return 0;
    }

    /** bflog_direct_suspend() and bflog_direct_resume() */
    method DirectChange(direct: nat, s: nat) returns (r: int)
      requires Valid() && IsDirect(direct) && (s == SUSPEND || s == RUNNING)
      modifies nodes
      ensures Valid() && LinksNow() == old(LinksNow())
      ensures var st := old(nodes[direct].status);
              && r == (if st == RUNNING || st == SUSPEND then 0 else -1)
              && StatusNow() == old(StatusNow())[direct := if r == 0 then s else st]
    {
      if nodes[direct].status != RUNNING && nodes[direct].status != SUSPEND { return -1; }
      SetStatus(direct, s);
      StatusOfDirect(LinksNow(), lists, home, old(StatusNow()), direct, s);
      return 0;
    }

    // ---------------------------------------------------------------- runs

    /** The lists and statuses. */
    ghost function Now(): Board
      reads this, nodes
    {
      Board(lists, StatusNow())
    }

    method Perform(op: Op) returns (r: int)
      requires Valid() && OpFits(logs, |nodes|, op)
      modifies this, nodes
      ensures Valid() && Reply(Now(), r) == Reaction(old(Now()), op)
    {
      assert forall i :: 0 <= i < |nodes| ==> StatusNow()[i] == nodes[i].status;
      match op {
        case Append(l, d, locked) => r := Append(l, d, locked);
        case Remove(l, d, locked) => r := RemoveErases(l, d, locked);
        case Delete(l, locked) => r := DeleteFrees(l, locked);
        case Suspend(l, locked) => r := Change(l, SUSPEND, locked);
        case Resume(l, locked) => r := Change(l, RUNNING, locked);
        case DirectSuspend(d) => r := DirectChange(d, SUSPEND);
        case DirectResume(d) => r := DirectChange(d, RUNNING);
      }
    }

    method RemoveErases(l: nat, d: nat, locked: bool) returns (r: int)
      requires Valid() && IsLog(l) && IsDirect(d)
      modifies this, nodes
      ensures Valid() && Reply(Now(), r) == Reaction(old(Now()), Op.Remove(l, d, locked))
    {
      ghost var before, status := lists, StatusNow();
      assert ListOk(LinksNow(), lists, home, l) && status[l] == nodes[l].status && status[d] == nodes[d].status;
      r := Remove(l, d, locked);
      if r == 0 {
        ghost var k :| 0 <= k < |before[l]| && before[l][k] == d && lists == before[l := Without(before[l], k)];
        WithoutErases(before[l], k, d);
      }
    }

    method DeleteFrees(l: nat, locked: bool) returns (r: int)
      requires Valid() && IsLog(l)
      modifies this, nodes
      ensures Valid() && Reply(Now(), r) == Reaction(old(Now()), Op.Delete(l, locked))
    {
      ghost var before, status := lists, StatusNow();
      assert status[l] == nodes[l].status;
      r := Delete(l, locked);
      assert StatusNow()[l] == nodes[l].status;
      if IsOpen(status[l]) && locked {
        assert StatusNow() == FreedStatus(before[l], l, status);
      }
    }

    /** In every run the lists stay proper circles that share no output, every linked output is suspended or running,
        and lists, statuses and answers are what the operations make of them one after the other. */
    method Run(ops: seq<Op>) returns (answers: seq<int>)
      requires Valid() && AllFit(logs, |nodes|, ops)
      modifies this, nodes
      ensures Valid() && Outcome(Now(), answers) == RunSpec(old(Now()), ops)
    {
      answers := [];
      ghost var start := Now();
      for i := 0 to |ops|
        invariant Valid() && Outcome(Now(), answers) == RunSpec(start, ops[..i])
      {
        assert ops[..i + 1][..i] == ops[..i] && OpFits(logs, |nodes|, ops[i]);
        var r := Perform(ops[i]);
        answers := answers + [r];
      }
      assert ops[..|ops|] == ops;
    }
  }

  // ---------------------------------------------------------------- lists and statuses as values

  datatype Board = Board(lists: seq<seq<nat>>, status: seq<nat>)

  datatype Reply = Reply(board: Board, answer: int)

  datatype Outcome = Outcome(board: Board, answers: seq<int>)

  predicate IsOpen(status: nat) { status == READY || status == SUSPEND }

  /** The list without x, which is in it at most once. */
  function Erased(s: seq<nat>, x: nat): seq<nat> {
    if s == [] then [] else if s[0] == x then s[1..] else [s[0]] + Erased(s[1..], x)
  }

  lemma {:induction false} WithoutErases(s: seq<nat>, k: nat, x: nat)
    requires k < |s| && s[k] == x && x !in s[..k]
    ensures Without(s, k) == Erased(s, x)
  {
    if k != 0 {
      var t := s[1..];
      assert s[..k] == [s[0]] + t[..k - 1];
      WithoutErases(t, k - 1, x);
      assert Without(s, k) == [s[0]] + Without(t, k - 1);
    }
  }

  function FreedStatus(s: seq<nat>, log: nat, status: seq<nat>): (r: seq<nat>)
    ensures |r| == |status|
  {
    seq(|status|, x requires 0 <= x < |status| =>
      if x == log then ILLEGAL else if x in s then Ended(status[x]) else status[x])
  }

  /** The recorder and the output of an operation exist. */
  predicate OpFits(logs: nat, n: nat, op: Op) {
    match op
    case Append(l, d, _) => l < logs <= d < n
    case Remove(l, d, _) => l < logs <= d < n
    case Delete(l, _) => l < logs
    case Suspend(l, _) => l < logs
    case Resume(l, _) => l < logs
    case DirectSuspend(d) => logs <= d < n
    case DirectResume(d) => logs <= d < n
  }

  predicate AllFit(logs: nat, n: nat, ops: seq<Op>) {
    forall i :: 0 <= i < |ops| ==> OpFits(logs, n, ops[i])
  }

  /** What each operation does and answers. */
  function Reaction(b: Board, op: Op): Reply
    requires |b.lists| <= |b.status| && OpFits(|b.lists|, |b.status|, op)
  {
    match op
    case Append(l, d, locked) =>
      if IsOpen(b.status[l]) && locked && b.status[d] == READY then
        Reply(Board(b.lists[l := b.lists[l] + [d]], b.status[d := SUSPEND]), 0)
      else Reply(b, -1)
    case Remove(l, d, locked) =>
      if IsOpen(b.status[l]) && locked && b.status[d] == SUSPEND && d in b.lists[l] then
        Reply(Board(b.lists[l := Erased(b.lists[l], d)], b.status[d := READY]), 0)
      else Reply(b, -1)
    case Delete(l, locked) =>
      if IsOpen(b.status[l]) && locked then Reply(Board(b.lists[l := []], FreedStatus(b.lists[l], l, b.status)), 0)
      else Reply(b, if IsOpen(b.status[l]) then -1 else 0)
    case Suspend(l, locked) => Changed(b, l, SUSPEND, locked)
    case Resume(l, locked) => Changed(b, l, RUNNING, locked)
    case DirectSuspend(d) => DirectChanged(b, d, SUSPEND)
    case DirectResume(d) => DirectChanged(b, d, RUNNING)
  }

  function Changed(b: Board, l: nat, s: nat, locked: bool): Reply
    requires l < |b.status|
  {
    var st := b.status[l];
    var alive := st == READY || st == RUNNING || st == SUSPEND;
    if alive && (st == s || locked) then Reply(b.(status := b.status[l := s]), 0) else Reply(b, -1)
  }

  function DirectChanged(b: Board, d: nat, s: nat): Reply
    requires d < |b.status|
  {
    if b.status[d] == RUNNING || b.status[d] == SUSPEND then Reply(b.(status := b.status[d := s]), 0) else Reply(b, -1)
  }

  function RunSpec(b: Board, ops: seq<Op>): (o: Outcome)
    requires |b.lists| <= |b.status| && AllFit(|b.lists|, |b.status|, ops)
    ensures |o.board.lists| == |b.lists| && |o.board.status| == |b.status|
    decreases |ops|
  {
    if ops == [] then Outcome(b, [])
    else
      var before := RunSpec(b, ops[..|ops| - 1]);
      assert OpFits(|b.lists|, |b.status|, ops[|ops| - 1]);
      var last := Reaction(before.board, ops[|ops| - 1]);
      Outcome(last.board, before.answers + [last.answer])
  }

  /** An output that a deleted recorder has left suspended or running: in no list, and not ready. */
  predicate Stranded(b: Board, x: nat) {
    && |b.lists| <= x < |b.status| && (b.status[x] == SUSPEND || b.status[x] == RUNNING)
    && forall l :: 0 <= l < |b.lists| ==> x !in b.lists[l]
  }

  lemma {:induction false} ErasedIsPart(s: seq<nat>, x: nat, y: nat)
    requires y in Erased(s, x)
    ensures y in s
  {
    if s[0] != x && y != s[0] { ErasedIsPart(s[1..], x, y); }
  }

  /** Deleting an open recorder unlinks its outputs and makes the running ones ready again, but it leaves the suspended
      ones suspended: exactly those are stranded. */
  lemma DeleteStrands(b: Board, l: nat, x: nat)
    requires l < |b.lists| <= x < |b.status| && IsOpen(b.status[l]) && !Stranded(b, x)
    requires forall m :: 0 <= m < |b.lists| && x in b.lists[m] ==> m == l
    ensures var after := Reaction(b, Op.Delete(l, true)).board;
            && after.lists[l] == [] && after.status[l] == ILLEGAL
            && (x in b.lists[l] && b.status[x] == RUNNING ==> after.status[x] == READY)
            && (x !in b.lists[l] || b.status[x] == SUSPEND ==> after.status[x] == b.status[x])
            && (Stranded(after, x) <==> x in b.lists[l] && b.status[x] == SUSPEND)
  {
  }

  /** The life of an output, whatever the operation: it becomes suspended when a recorder takes it and ready when the
      recorder gives it back, is suspended and resumed in between, and a deletion makes only a running one ready. */
  lemma OutputMoves(b: Board, op: Op, x: nat)
    requires OpFits(|b.lists|, |b.status|, op) && |b.lists| <= x < |b.status|
    ensures var s, s' := b.status[x], Reaction(b, op).board.status[x];
            s != s' ==>
              || (s == READY && s' == SUSPEND && op.Append? && op.direct == x)
              || (s == SUSPEND && s' == READY && op.Remove? && op.direct == x && x in b.lists[op.log])
              || (s == SUSPEND && s' == RUNNING && op == DirectResume(x))
              || (s == RUNNING && s' == SUSPEND && op == DirectSuspend(x))
              || (s == RUNNING && s' == READY && op.Delete? && x in b.lists[op.log])
    ensures op == DirectResume(x) && Reaction(b, op).answer == 0 ==> Reaction(b, op).board.status[x] == RUNNING
    ensures op == DirectSuspend(x) && Reaction(b, op).answer == 0 ==> Reaction(b, op).board.status[x] == SUSPEND
  {
  }

  /** A stranded output is stranded for good: no operation links it again. */
  lemma {:induction false} StrandedForGood(b: Board, ops: seq<Op>, x: nat)
    requires |b.lists| <= |b.status| && AllFit(|b.lists|, |b.status|, ops)
    requires Stranded(b, x)
    ensures Stranded(RunSpec(b, ops).board, x)
    decreases |ops|
  {
    if ops != [] {
      var before, op := ops[..|ops| - 1], ops[|ops| - 1];
      StrandedForGood(b, before, x);
      assert OpFits(|b.lists|, |b.status|, op);
      StillStranded(RunSpec(b, before).board, op, x);
    }
  }

  lemma StillStranded(b: Board, op: Op, x: nat)
    requires OpFits(|b.lists|, |b.status|, op) && Stranded(b, x)
    ensures Stranded(Reaction(b, op).board, x)
  {
    if op.Remove? && x in Erased(b.lists[op.log], op.direct) { ErasedIsPart(b.lists[op.log], op.direct, x); }
  }
}
