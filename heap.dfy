/** The array binary min-heap of heap/heap.c, run by one thread: the node
    spin locks and the heap lock are not modelled, the tags and the owner
    thread id (`tid`) that the locking protocol uses are.

    Each operation on the node array is given by a function on the array's
    contents (`SiftUp`, `SiftDownAsWritten`); the methods of `Heap` are proved
    to compute exactly those functions, and the lemmas below say what the
    functions guarantee. */
module BinaryHeap {
  import opened Keys

  /** errno values returned (negated) by the heap. */
  const ENOBUFS: int := 105
  const ENONET: int := 64

  /** `status` (heap.h): a slot is EMPTY, holds a settled key (AVAIL) or a
      key still being sifted up by its pusher (BUSY). */
  datatype Tag = Empty | Avail | Busy

  /** `struct h_node`: the spin lock word is kept only to show that `h_swap`
      leaves it in place. */
  datatype HNode = HNode(tag: Tag, k: Key, tid: int, lock: nat)

  function Parent(i: nat): nat
    requires i > 0
  {
    (i - 1) / 2
  }

  /** `h_swap` (heap.c:9-17): exchanges tag, key and tid of two slots; each
      slot keeps its own lock. */
  function Swap(s: seq<HNode>, i: nat, j: nat): (t: seq<HNode>)
    requires i < |s| && j < |s|
    ensures |t| == |s|
    ensures t[i].lock == s[i].lock && t[j].lock == s[j].lock
    ensures t[i].k == s[j].k && t[j].k == s[i].k
    ensures t[i].tag == s[j].tag && t[j].tag == s[i].tag
    ensures t[i].tid == s[j].tid && t[j].tid == s[i].tid
    ensures forall m :: 0 <= m < |s| && m != i && m != j ==> t[m] == s[m]
  {
    s[i := HNode(s[j].tag, s[j].k, s[j].tid, s[i].lock)]
     [j := HNode(s[i].tag, s[i].k, s[i].tid, s[j].lock)]
  }

  function KeysOf(s: seq<HNode>): (ks: seq<Key>)
    ensures |ks| == |s|
    ensures forall i :: 0 <= i < |s| ==> ks[i] == s[i].k
  {
    seq(|s|, i requires 0 <= i < |s| => s[i].k)
  }

  /** The multiset of keys held in the first `n` slots. */
  function Bag(s: seq<HNode>, n: nat): multiset<Key>
    requires n <= |s|
  {
    multiset(KeysOf(s[..n]))
  }

  /** Min-heap order on the first `n` slots. */
  ghost predicate HeapOrdered(s: seq<HNode>, n: nat)
    requires n <= |s|
  {
    forall i :: 0 < i < n ==> s[Parent(i)].k <= s[i].k
  }

  /** Between operations every slot below `len` is settled. */
  ghost predicate AllAvail(s: seq<HNode>, n: nat)
    requires n <= |s|
  {
    forall i :: 0 <= i < n ==> s[i].tag == Avail
  }

  lemma SwapKeepsBag(s: seq<HNode>, n: nat, i: nat, j: nat)
    requires n <= |s| && i < n && j < n
    ensures Bag(Swap(s, i, j), n) == Bag(s, n)
  {
    var a: seq<Key> := KeysOf(s[..n]);
    var b: seq<Key> := KeysOf(Swap(s, i, j)[..n]);
    var si: Key, sj: Key := s[i].k, s[j].k;
    assert b == a[i := sj][j := si];
  }

  lemma SwapInsideKeepsOutside(s: seq<HNode>, n: nat, i: nat, j: nat)
    requires n <= |s| && i < n && j < n
    ensures Swap(s, i, j)[n..] == s[n..]
  {
  }

  // ----- push: sift-up -----

  /** The slot `now` holds the pusher's BUSY node and every slot before it is
      settled: the state `h_push`'s loop keeps when it runs alone. */
  ghost predicate SiftingUp(s: seq<HNode>, now: nat, tid: int)
  {
    now < |s| && s[now].tag == Busy && s[now].tid == tid &&
    forall i :: 0 <= i < now ==> s[i].tag == Avail
  }

  /** Slot `n` taken by thread `tid` for key `k`, BUSY, its lock kept. */
  function Entered(s: seq<HNode>, n: nat, k: Key, tid: int): (t: seq<HNode>)
    requires n < |s|
    ensures |t| == |s| && t[n].k == k && t[n].tag == Busy && t[n].tid == tid
    ensures forall i :: 0 <= i < |s| && i != n ==> t[i] == s[i]
  {
    s[n := HNode(Busy, k, tid, s[n].lock)]
  }

  /** The sift-up of `h_push` (heap.c:64-96) from slot `now`: while the
      node is below the root and strictly smaller than its parent, swap it
      up; then mark it AVAIL with tid -1. */
  function SiftUp(s: seq<HNode>, now: nat, tid: int): (t: seq<HNode>)
    requires SiftingUp(s, now, tid)
    ensures |t| == |s|
    decreases now
  {
    if now == 0 then
      s[0 := s[0].(tag := Avail, tid := -1)]
    else
      var fa := Parent(now);
      if s[now].k < s[fa].k then SiftUp(Swap(s, now, fa), fa, tid)
      else s[now := s[now].(tag := Avail, tid := -1)]
  }

  lemma {:induction false} SiftUpKeepsBag(s: seq<HNode>, n: nat, now: nat, tid: int)
    requires SiftingUp(s, now, tid) && now < n <= |s|
    ensures Bag(SiftUp(s, now, tid), n) == Bag(s, n)
    ensures SiftUp(s, now, tid)[n..] == s[n..]
    decreases now
  {
    if now > 0 {
      var fa := Parent(now);
      if s[now].k < s[fa].k {
        SwapKeepsBag(s, n, now, fa);
        SiftUpKeepsBag(Swap(s, now, fa), n, fa, tid);
      } else {
        assert KeysOf(SiftUp(s, now, tid)[..n]) == KeysOf(s[..n]);
      }
    } else {
      assert KeysOf(SiftUp(s, now, tid)[..n]) == KeysOf(s[..n]);
    }
  }

  /** After the sift-up no slot up to the end of the heap is left BUSY. */
  lemma {:induction false} SiftUpSettles(s: seq<HNode>, n: nat, now: nat, tid: int)
    requires SiftingUp(s, now, tid) && now < n <= |s|
    requires forall i :: now < i < n ==> s[i].tag == Avail
    ensures AllAvail(SiftUp(s, now, tid), n)
    decreases now
  {
    if now > 0 {
      var fa := Parent(now);
      if s[now].k < s[fa].k {
        SiftUpSettles(Swap(s, now, fa), n, fa, tid);
      }
    }
  }

  lemma {:induction false} SiftDownKeepsRest(s: seq<HNode>, n: nat, now: nat)
    requires n <= |s| && now < n
    ensures SiftDown(s, n, now)[n..] == s[n..]
    decreases n - now
  {
    var c := NextDown(s, n, now);
    if c >= 0 {
      SwapInsideKeepsOutside(s, n, c, now);
      SiftDownKeepsRest(Swap(s, c, now), n, c);
    }
  }

  lemma {:induction false} SiftDownKeepsTags(s: seq<HNode>, n: nat, now: nat)
    requires n <= |s| && now < n && AllAvail(s, n)
    ensures AllAvail(SiftDown(s, n, now), n)
    decreases n - now
  {
    var c := NextDown(s, n, now);
    if c >= 0 {
      SiftDownKeepsTags(Swap(s, c, now), n, c);
    }
  }

  /** Heap order holds everywhere except possibly between `now` and its
      parent, and `now`'s parent is no larger than `now`'s children. */
  ghost predicate HeapExceptUp(s: seq<HNode>, n: nat, now: nat)
    requires n <= |s|
  {
    now < n &&
    (forall i :: 0 < i < n && i != now ==> s[Parent(i)].k <= s[i].k) &&
    (now > 0 ==> forall c :: 0 < c < n && Parent(c) == now ==> s[Parent(now)].k <= s[c].k)
  }

  lemma {:induction false} SiftUpOrders(s: seq<HNode>, n: nat, now: nat, tid: int)
    requires SiftingUp(s, now, tid) && n <= |s| && HeapExceptUp(s, n, now)
    ensures HeapOrdered(SiftUp(s, now, tid), n)
    decreases now
  {
    var t := SiftUp(s, now, tid);
    if now == 0 {
      assert forall i :: 0 <= i < |s| ==> t[i].k == s[i].k;
    } else {
      var fa := Parent(now);
      if s[now].k < s[fa].k {
        var u := Swap(s, now, fa);
        forall i | 0 < i < n && i != fa ensures u[Parent(i)].k <= u[i].k {
          if i == now {
          } else if Parent(i) == fa {
          } else if Parent(i) == now {
          } else if i == fa {
          } else {
          }
        }
        if fa > 0 {
          forall c | 0 < c < n && Parent(c) == fa ensures u[Parent(fa)].k <= u[c].k {
            assert s[Parent(fa)].k <= s[fa].k;
          }
        }
        SiftUpOrders(u, n, fa, tid);
      } else {
        assert forall i :: 0 <= i < |s| ==> t[i].k == s[i].k;
      }
    }
  }

  // ----- pop: sift-down -----

  /** The slot the sift-down of `h_pop` (heap.c:127-154) moves on to from
      `now`, as written: it looks at the children only while slot `now` has
      a RIGHT child inside the heap, and stops at an EMPTY left child;
      -1 when the loop ends. */
  function NextAsWritten(s: seq<HNode>, n: nat, now: nat): (c: int)
    requires n <= |s| && now < n
    ensures c == -1 || (now < c < n && Parent(c) == now && s[c].k < s[now].k)
    ensures c >= 0 ==> forall d :: 0 < d < n && Parent(d) == now && s[d].tag != Empty ==> s[c].k <= s[d].k
  {
    ChildrenOf(now, n);
    if now * 2 + 2 < n && s[now * 2 + 1].tag != Empty then
      var left := now * 2 + 1;
      var right := now * 2 + 2;
      var child := if s[right].tag == Empty || s[left].k < s[right].k then left else right;
      if s[child].k < s[now].k then child else -1
    else -1
  }

  /** The sift-down of `h_pop` as written, from slot `now`. */
  function SiftDownAsWritten(s: seq<HNode>, n: nat, now: nat): (t: seq<HNode>)
    requires n <= |s| && now < n
    ensures |t| == |s|
    decreases n - now
  {
    var c := NextAsWritten(s, n, now);
    if c < 0 then s else SiftDownAsWritten(Swap(s, c, now), n, c)
  }

  /** The children of slot `p` are slots `2p + 1` and `2p + 2`. */
  lemma ChildrenOf(p: nat, n: nat)
    ensures forall d :: 0 < d < n && Parent(d) == p ==> d == p * 2 + 1 || d == p * 2 + 2
    ensures forall d :: 0 < d < n && (d == p * 2 + 1 || d == p * 2 + 2) ==> Parent(d) == p
  {
  }

  /** The slot the corrected sift-down moves on to from `now`: the smaller
      child inside the first `n` slots when it is smaller than `now`, else
      -1 (no child is smaller). */
  function NextDown(s: seq<HNode>, n: nat, now: nat): (c: int)
    requires n <= |s| && now < n
    ensures c == -1 || (now < c < n && Parent(c) == now && s[c].k < s[now].k)
    ensures c >= 0 ==> forall d :: 0 < d < n && Parent(d) == now ==> s[c].k <= s[d].k
    ensures c < 0 ==> forall d :: 0 < d < n && Parent(d) == now ==> s[now].k <= s[d].k
  {
    ChildrenOf(now, n);
    var left := now * 2 + 1;
    var right := now * 2 + 2;
    if left < n then
      var child := if right >= n || s[left].k < s[right].k then left else right;
      if s[child].k < s[now].k then child else -1
    else -1
  }

  /** The sift-down the heap needs: it also compares a lone left child. */
  function SiftDown(s: seq<HNode>, n: nat, now: nat): (t: seq<HNode>)
    requires n <= |s| && now < n
    ensures |t| == |s|
    decreases n - now
  {
    var c := NextDown(s, n, now);
    if c < 0 then s else SiftDown(Swap(s, c, now), n, c)
  }

  /** The node array after a pop of a heap of `n >= 2` slots: the root is
      tagged EMPTY and swapped with the last slot, then sifted down over the
      first `n - 1` slots. */
  function PopMoved(s: seq<HNode>, n: nat): (t: seq<HNode>)
    requires 2 <= n <= |s|
    ensures |t| == |s|
    ensures t[0].k == s[n - 1].k && t[n - 1].k == s[0].k && t[n - 1].tag == Empty
    ensures forall i :: 0 < i < n - 1 ==> t[i] == s[i]
    ensures t[n..] == s[n..]
  {
    Swap(s[0 := s[0].(tag := Empty, tid := -1)], 0, n - 1)
  }

  lemma {:induction false} SiftDownAsWrittenKeepsBag(s: seq<HNode>, n: nat, now: nat)
    requires n <= |s| && now < n
    ensures Bag(SiftDownAsWritten(s, n, now), n) == Bag(s, n)
    decreases n - now
  {
    var c := NextAsWritten(s, n, now);
    if c >= 0 {
      SwapKeepsBag(s, n, c, now);
      SiftDownAsWrittenKeepsBag(Swap(s, c, now), n, c);
    }
  }

  lemma {:induction false} SiftDownAsWrittenKeepsRest(s: seq<HNode>, n: nat, now: nat)
    requires n <= |s| && now < n
    ensures SiftDownAsWritten(s, n, now)[n..] == s[n..]
    decreases n - now
  {
    var c := NextAsWritten(s, n, now);
    if c >= 0 {
      SwapInsideKeepsOutside(s, n, c, now);
      SiftDownAsWrittenKeepsRest(Swap(s, c, now), n, c);
    }
  }

  lemma {:induction false} SiftDownAsWrittenKeepsTags(s: seq<HNode>, n: nat, now: nat)
    requires n <= |s| && now < n && AllAvail(s, n)
    ensures AllAvail(SiftDownAsWritten(s, n, now), n)
    decreases n - now
  {
    var c := NextAsWritten(s, n, now);
    if c >= 0 {
      SiftDownAsWrittenKeepsTags(Swap(s, c, now), n, c);
    }
  }

  lemma {:induction false} SiftDownKeepsBag(s: seq<HNode>, n: nat, now: nat)
    requires n <= |s| && now < n
    ensures Bag(SiftDown(s, n, now), n) == Bag(s, n)
    decreases n - now
  {
    var c := NextDown(s, n, now);
    if c >= 0 {
      SwapKeepsBag(s, n, c, now);
      SiftDownKeepsBag(Swap(s, c, now), n, c);
    }
  }

  /** Heap order holds everywhere except possibly between `now` and its
      children, and `now`'s parent is no larger than `now`'s children. */
  ghost predicate HeapExceptDown(s: seq<HNode>, n: nat, now: nat)
    requires n <= |s|
  {
    now < n &&
    (forall i :: 0 < i < n && Parent(i) != now ==> s[Parent(i)].k <= s[i].k) &&
    (now > 0 ==> forall c :: 0 < c < n && Parent(c) == now ==> s[Parent(now)].k <= s[c].k)
  }

  /** One swap of the sift-down moves the exception one level down. */
  lemma SiftDownStep(s: seq<HNode>, n: nat, now: nat, child: nat)
    requires n <= |s| && HeapExceptDown(s, n, now)
    requires now < child < n && Parent(child) == now && s[child].k < s[now].k
    requires forall c :: 0 < c < n && Parent(c) == now ==> s[child].k <= s[c].k
    ensures HeapExceptDown(Swap(s, child, now), n, child)
  {
    var u := Swap(s, child, now);
    forall i | 0 < i < n && Parent(i) != child ensures u[Parent(i)].k <= u[i].k {
      if i == child {
      } else if Parent(i) == now {
      } else if i == now {
      } else {
      }
    }
  }

  /** With no smaller child the exception is gone. */
  lemma SiftDownDone(s: seq<HNode>, n: nat, now: nat)
    requires n <= |s| && HeapExceptDown(s, n, now)
    requires forall c :: 0 < c < n && Parent(c) == now ==> s[now].k <= s[c].k
    ensures HeapOrdered(s, n)
  {
  }

  lemma {:induction false} SiftDownOrders(s: seq<HNode>, n: nat, now: nat)
    requires n <= |s| && HeapExceptDown(s, n, now)
    ensures HeapOrdered(SiftDown(s, n, now), n)
    decreases n - now
  {
    var c := NextDown(s, n, now);
    if c >= 0 {
      SiftDownStep(s, n, now, c);
      SiftDownOrders(Swap(s, c, now), n, c);
    } else {
      SiftDownDone(s, n, now);
    }
  }

  /** Moving the last slot to the root of a heap-ordered array and sifting
      down with the corrected guard restores heap order. */
  lemma PopRestoresHeap(s: seq<HNode>, n: nat)
    requires 2 <= n <= |s| && HeapOrdered(s, n)
    ensures HeapOrdered(SiftDown(PopMoved(s, n), n - 1, 0), n - 1)
  {
    var t := PopMoved(s, n);
    forall i | 0 < i < n - 1 && Parent(i) != 0 ensures t[Parent(i)].k <= t[i].k {
      var p := Parent(i);
      assert 0 < p < i;
      assert t[p] == s[p] && t[i] == s[i];
    }
    assert HeapExceptDown(t, n - 1, 0);
    SiftDownOrders(t, n - 1, 0);
  }

  /** In a heap-ordered array slot 0 holds a least key. */
  lemma {:induction false} RootIsMinimum(s: seq<HNode>, n: nat, i: nat)
    requires n <= |s| && HeapOrdered(s, n) && i < n
    ensures s[0].k <= s[i].k
    decreases i
  {
    if i > 0 {
      RootIsMinimum(s, n, Parent(i));
    }
  }

  /** The guard `now * 2 + 2 < len` (heap.c:128) skips a lone left child:
      after pushing 1, 2, 3, 4, 5 (no swaps happen), one pop leaves slot 1
      holding 5 above its only child 4. */
  lemma PopAsWrittenBreaksOrder()
    ensures var s := [HNode(Avail, 1, -1, 0), HNode(Avail, 2, -1, 0), HNode(Avail, 3, -1, 0),
                      HNode(Avail, 4, -1, 0), HNode(Avail, 5, -1, 0)];
            HeapOrdered(s, 5) && !HeapOrdered(SiftDownAsWritten(PopMoved(s, 5), 4, 0), 4)
  {
    var s := [HNode(Avail, 1, -1, 0), HNode(Avail, 2, -1, 0), HNode(Avail, 3, -1, 0),
              HNode(Avail, 4, -1, 0), HNode(Avail, 5, -1, 0)];
    assert HeapOrdered(s, 5) by {
      forall i | 0 < i < 5 ensures s[Parent(i)].k <= s[i].k {
      }
    }
    var t := PopMoved(s, 5);
    assert t[0].k == 5 && t[1].k == 2 && t[2].k == 3 && t[3].k == 4;
    var u := Swap(t, 1, 0);
    assert SiftDownAsWritten(t, 4, 0) == SiftDownAsWritten(u, 4, 1);
    assert SiftDownAsWritten(u, 4, 1) == u;
    assert u[1].k == 5 && u[3].k == 4 && Parent(3) == 1;
  }

  // ----- the heap object -----

  class Heap {
    var size: int
    var len: int
    const nodes: array<HNode>

    ghost predicate Valid()
      reads this, nodes
    {
      nodes.Length == size && size % 2 == 1 && 0 <= len <= size &&
      AllAvail(nodes[..], len)
    }

    /** `h_create` (heap.c:19-39): an even size is rounded up to odd; every
        slot is EMPTY with tid -1 and an unlocked lock; the heap is empty. */
    constructor Create(requested: nat)
      ensures Valid() && fresh(nodes)
      ensures size == if requested % 2 == 0 then requested + 1 else requested
      ensures len == 0
      ensures forall i :: 0 <= i < nodes.Length ==> nodes[i].tag == Empty && nodes[i].tid == -1 && nodes[i].lock == 0
    {
      var sz := requested;
      if sz % 2 == 0 {
        sz := sz + 1;
      }
      var a := new HNode[sz];
      var i := 0;
      while i < sz
        invariant 0 <= i <= sz
        invariant forall j :: 0 <= j < i ==> a[j].tag == Empty && a[j].tid == -1 && a[j].lock == 0
      {
        a[i] := HNode(Empty, a[i].k, -1, 0);
        i := i + 1;
      }
      size := sz;
      len := 0;
      nodes := a;
    }

    method HSwap(i: nat, j: nat)
      requires i < nodes.Length && j < nodes.Length
      modifies nodes
      ensures nodes[..] == Swap(old(nodes[..]), i, j)
    {
      var a, b := nodes[i], nodes[j];
      nodes[i] := HNode(b.tag, b.k, b.tid, a.lock);
      nodes[j] := HNode(a.tag, a.k, a.tid, b.lock);
    }

    /** `h_push` (heap.c:45-99). */
    method Push(k: Key, tid: int) returns (r: int)
      requires Valid()
      modifies this, nodes
      ensures Valid() && size == old(size)
      ensures r == 0 || r == -ENOBUFS
      ensures r == -ENOBUFS <==> old(len) == old(size)
      ensures r == -ENOBUFS ==> len == old(len) && nodes[..] == old(nodes[..])
      ensures r == 0 ==> len == old(len) + 1
      ensures r == 0 ==>
        nodes[..] == SiftUp(Entered(old(nodes[..]), old(len), k, tid), old(len), tid)
      ensures r == 0 ==> Bag(nodes[..], len) == old(Bag(nodes[..], len)) + multiset{k}
      ensures r == 0 && old(HeapOrdered(nodes[..], len)) ==> HeapOrdered(nodes[..], len)
    {
      if len == size {
        return -ENOBUFS;
      }
      var now := len;
      ghost var start := Entered(nodes[..], now, k, tid);
      PushSpec(nodes[..], len, k, tid);
      len := len + 1;
      nodes[now] := HNode(Busy, k, tid, nodes[now].lock);
      assert nodes[..] == start;
      Rise(now, tid);
      return 0;
    }

    /** The sift-up loop of `h_push` (heap.c:64-96) from slot `now`, proved
        against `SiftUp`. */
    method Rise(now: nat, tid: int)
      requires SiftingUp(nodes[..], now, tid)
      modifies nodes
      ensures nodes[..] == SiftUp(old(nodes[..]), now, tid)
    {
      ghost var target := SiftUp(nodes[..], now, tid);
      var i: nat := now;
      while i > 0
        invariant SiftingUp(nodes[..], i, tid)
        invariant SiftUp(nodes[..], i, tid) == target
      {
        var fa := (i - 1) / 2;
        // Alone, the parent is settled and the node at `i` is still ours,
        // so the source's other two branches (another pusher moved it; spin
        // on the parent) never run.
        assert nodes[fa].tag == Avail && nodes[i].tag == Busy && nodes[i].tid == tid;
        if KCmp(nodes[i].k, nodes[fa].k) < 0 {
          HSwap(i, fa);
          i := fa;
        } else {
          ghost var before := nodes[..];
          nodes[i] := nodes[i].(tag := Avail, tid := -1);
          assert nodes[..] == SiftUp(before, i, tid);
          return;
        }
      }
      ghost var before := nodes[..];
      if nodes[0].tag == Busy && nodes[0].tid == tid {
        nodes[0] := nodes[0].(tag := Avail, tid := -1);
      }
      assert nodes[..] == SiftUp(before, 0, tid);
    }

    /** `h_pop` (heap.c:101-158), with the sift-down guard as written. */
    method Pop() returns (r: int, k: Key)
      requires Valid()
      modifies this, nodes
      ensures Valid() && size == old(size)
      ensures r == 0 || r == -ENONET
      ensures r == -ENONET <==> old(len) == 0
      ensures r == -ENONET ==> len == old(len) && nodes[..] == old(nodes[..])
      ensures r == 0 ==> k == old(nodes[0].k) && len == old(len) - 1
      ensures r == 0 && old(len) == 1 ==> nodes[..] == old(nodes[..])
      ensures r == 0 && old(len) >= 2 ==>
        nodes[..] == SiftDownAsWritten(PopMoved(old(nodes[..]), old(len)), len, 0)
      ensures r == 0 ==> Bag(nodes[..], len) + multiset{k} == old(Bag(nodes[..], len))
    {
      if len == 0 {
        return -ENONET, 0;
      }
      len := len - 1;
      var last := len;
      k := nodes[0].k;
      if last == 0 {
        assert KeysOf(old(nodes[..])[..1]) == [k];
        return 0, k;
      }
      nodes[0] := nodes[0].(tag := Empty, tid := -1);
      HSwap(0, last);
      assert nodes[..] == PopMoved(old(nodes[..]), old(len));
      PopSpec(old(nodes[..]), old(len));
      SinkAsWritten();
      return 0, k;
    }

    /** The sift-down loop of `h_pop` (heap.c:127-154) from the root. */
    method SinkAsWritten()
      requires 0 < len <= nodes.Length
      modifies nodes
      ensures nodes[..] == SiftDownAsWritten(old(nodes[..]), len, 0)
    {
      ghost var target := SiftDownAsWritten(nodes[..], len, 0);
      var now := 0;
      while now * 2 + 2 < len
        invariant 0 <= now < len <= nodes.Length
        invariant SiftDownAsWritten(nodes[..], len, now) == target
        decreases len - now
      {
        var left := now * 2 + 1;
        var right := now * 2 + 2;
        var child;
        ghost var s := nodes[..];
        if nodes[left].tag == Empty {
          assert NextAsWritten(s, len, now) == -1;
          break;
        } else if nodes[right].tag == Empty || KCmp(nodes[left].k, nodes[right].k) < 0 {
          child := left;
        } else {
          child := right;
        }
        if KCmp(nodes[child].k, nodes[now].k) < 0 {
          assert NextAsWritten(s, len, now) == child;
          HSwap(child, now);
          now := child;
        } else {
          assert NextAsWritten(s, len, now) == -1;
          break;
        }
      }
      assert nodes[..] == target;
    }

    /** `h_pop` with the sift-down guard corrected to `now * 2 + 1 < len`,
        so that a lone left child is compared too; it keeps heap order. */
    method PopCorrected() returns (r: int, k: Key)
      requires Valid()
      modifies this, nodes
      ensures Valid() && size == old(size)
      ensures r == 0 || r == -ENONET
      ensures r == -ENONET <==> old(len) == 0
      ensures r == -ENONET ==> len == old(len) && nodes[..] == old(nodes[..])
      ensures r == 0 ==> k == old(nodes[0].k) && len == old(len) - 1
      ensures r == 0 && old(len) == 1 ==> nodes[..] == old(nodes[..])
      ensures r == 0 && old(len) >= 2 ==>
        nodes[..] == SiftDown(PopMoved(old(nodes[..]), old(len)), len, 0)
      ensures r == 0 ==> Bag(nodes[..], len) + multiset{k} == old(Bag(nodes[..], len))
      ensures old(HeapOrdered(nodes[..], len)) ==> HeapOrdered(nodes[..], len)
    {
      if len == 0 {
        return -ENONET, 0;
      }
      len := len - 1;
      var last := len;
      k := nodes[0].k;
      if last == 0 {
        assert KeysOf(old(nodes[..])[..1]) == [k];
        return 0, k;
      }
      nodes[0] := nodes[0].(tag := Empty, tid := -1);
      HSwap(0, last);
      assert nodes[..] == PopMoved(old(nodes[..]), old(len));
      PopCorrectedSpec(old(nodes[..]), old(len));
      Sink();
      return 0, k;
    }

    /** The corrected sift-down loop from the root, proved against
        `SiftDown`. */
    method Sink()
      requires 0 < len <= nodes.Length
      modifies nodes
      ensures nodes[..] == SiftDown(old(nodes[..]), len, 0)
    {
      ghost var target := SiftDown(nodes[..], len, 0);
      var now := 0;
      while now * 2 + 1 < len
        invariant 0 <= now < len <= nodes.Length
        invariant SiftDown(nodes[..], len, now) == target
        decreases len - now
      {
        var left := now * 2 + 1;
        var right := now * 2 + 2;
        var child := if right >= len || KCmp(nodes[left].k, nodes[right].k) < 0 then left else right;
        ghost var s := nodes[..];
        if KCmp(nodes[child].k, nodes[now].k) < 0 {
          assert NextDown(s, len, now) == child;
          HSwap(child, now);
          now := child;
        } else {
          assert NextDown(s, len, now) == -1;
          break;
        }
      }
      assert nodes[..] == target;
    }

    /** `h_top` (heap.c:160-169). */
    method Top() returns (r: int, k: Key)
      requires Valid()
      ensures r == 0 || r == -ENONET
      ensures r == -ENONET <==> len == 0
      ensures r == 0 ==> k == nodes[0].k
      ensures r == 0 && HeapOrdered(nodes[..], len) ==> forall i :: 0 <= i < len ==> k <= nodes[i].k
    {
      if len == 0 {
        return -ENONET, 0;
      }
      k := nodes[0].k;
      r := 0;
      if HeapOrdered(nodes[..], len) {
        forall i | 0 <= i < len ensures k <= nodes[i].k {
          RootIsMinimum(nodes[..], len, i);
        }
      }
    }
  }

  /** A push adds exactly its key to the heap's multiset, keeps heap order
      and leaves every slot of the heap settled. */
  lemma PushSpec(s: seq<HNode>, n: nat, k: Key, tid: int)
    requires n < |s| && AllAvail(s, n)
    ensures SiftingUp(Entered(s, n, k, tid), n, tid)
    ensures var t := SiftUp(Entered(s, n, k, tid), n, tid);
      Bag(t, n + 1) == Bag(s, n) + multiset{k} &&
      AllAvail(t, n + 1) &&
      t[n + 1..] == s[n + 1..] &&
      (HeapOrdered(s, n) ==> HeapOrdered(t, n + 1))
  {
    var s1 := Entered(s, n, k, tid);
    SiftUpKeepsBag(s1, n + 1, n, tid);
    assert s1[..n + 1] == s[..n] + [s1[n]];
    assert KeysOf(s1[..n + 1]) == KeysOf(s[..n]) + [k];
    SiftUpSettles(s1, n + 1, n, tid);
    if HeapOrdered(s, n) {
      SiftUpOrders(s1, n + 1, n, tid);
    }
  }

  /** A pop of a heap of `n >= 2` slots removes exactly the root key from the
      multiset and keeps every slot of the heap settled. */
  lemma PopSpec(s: seq<HNode>, n: nat)
    requires 2 <= n <= |s| && AllAvail(s, n)
    ensures var t := SiftDownAsWritten(PopMoved(s, n), n - 1, 0);
      Bag(t, n - 1) + multiset{s[0].k} == Bag(s, n) &&
      AllAvail(t, n - 1) && t[n - 1].tag == Empty
  {
    var m := PopMoved(s, n);
    PopMovedBag(s, n);
    SiftDownAsWrittenKeepsBag(m, n - 1, 0);
    SiftDownAsWrittenKeepsRest(m, n - 1, 0);
    SiftDownAsWrittenKeepsTags(m, n - 1, 0);
    var t := SiftDownAsWritten(m, n - 1, 0);
    assert t[n - 1] == t[n - 1..][0];
  }

  /** The same with the corrected sift-down, which also restores heap
      order. */
  lemma PopCorrectedSpec(s: seq<HNode>, n: nat)
    requires 2 <= n <= |s| && AllAvail(s, n)
    ensures var t := SiftDown(PopMoved(s, n), n - 1, 0);
      Bag(t, n - 1) + multiset{s[0].k} == Bag(s, n) &&
      AllAvail(t, n - 1) && t[n - 1].tag == Empty &&
      (HeapOrdered(s, n) ==> HeapOrdered(t, n - 1))
  {
    var m := PopMoved(s, n);
    PopMovedBag(s, n);
    SiftDownKeepsBag(m, n - 1, 0);
    SiftDownKeepsRest(m, n - 1, 0);
    SiftDownKeepsTags(m, n - 1, 0);
    var t := SiftDown(m, n - 1, 0);
    assert t[n - 1] == t[n - 1..][0];
    if HeapOrdered(s, n) {
      PopRestoresHeap(s, n);
    }
  }

  /** Moving the last slot to the root takes exactly the root key out of
      the multiset and leaves the remaining slots settled. */
  lemma PopMovedBag(s: seq<HNode>, n: nat)
    requires 2 <= n <= |s| && AllAvail(s, n)
    ensures Bag(PopMoved(s, n), n - 1) + multiset{s[0].k} == Bag(s, n)
    ensures AllAvail(PopMoved(s, n), n - 1)
  {
    var m := PopMoved(s, n);
    var a := KeysOf(s[..n]);
    var b := KeysOf(m[..n - 1]);
    assert b == [s[n - 1].k] + a[1..n - 1];
    assert a == [s[0].k] + a[1..n - 1] + [s[n - 1].k];
  }
}
