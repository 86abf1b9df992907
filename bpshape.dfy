/** The shape of the B+-tree of bptree/bptree.c, stated on values: what the
    invariants see of a page is a `Node` (its type, its entry array and its
    number of used entries), and the tree is a map from pages to nodes. A
    change to one page is then a change to one entry of that map, and the
    proofs about it are proofs about values.

    `NodeSound` is the structural invariant every operation keeps: lengths
    within capacity, leaves holding values, every child pointer one level
    down. `NodeOrdered` is the search-tree invariant: each page owns a key
    interval [lo, hi), its keys are strictly increasing inside it, and each
    live slot of an internal page points at the child owning exactly that
    slot's interval. The intervals and parent links are ghost (`Bounds`). */
module BPlusShape {
  import opened Keys
  import opened BPlusPage
  import opened BPlusContents

  /** A page as the invariants see it: its type, all its slots and how
      many of them are used. */
  datatype Node = Node(kind: Kind, s: seq<Slot>, len: int)

  /** What the invariants see of page `p`: its type, slots and length. */
  ghost function NodeOf(p: Page): Node
    reads p, p.kv
  {
    Node(p.kind, p.kv[..], p.length)
  }

  /** The pages `repr` agree with their nodes in `nodes`, and `owner`
      tells which page owns each entry array, so no two pages share one. */
  ghost predicate Mirrors(repr: set<Page>, owner: map<array<Slot>, Page>, nodes: map<Page, Node>)
    reads repr, set p | p in repr :: p.kv
  {
    nodes.Keys == repr &&
    forall p | p in repr :: p.kv in owner && owner[p.kv] == p && nodes[p] == NodeOf(p)
  }

  /** The used slots of a node. */
  function Used(n: Node): seq<Slot>
    requires 0 <= n.len <= |n.s|
  {
    n.s[..n.len]
  }

  /** Each page's key interval [lo, hi) and the page whose slot points at
      it. */
  datatype Bounds = Bounds(lo: map<Page, int>, hi: map<Page, int>, parent: map<Page, Page>)

  /** The lower end of the interval of slot `j` of an internal page: the
      page's own lower end for the sentinel slot 0, the slot's key
      otherwise. */
  function SlotLo(s: seq<Slot>, j: int, lo: int): int
    requires 0 <= j < |s|
  {
    if j == 0 then lo else s[j].k
  }

  /** The upper end of the interval of slot `j`: the next key, or the page's
      own upper end for the last used slot. */
  function SlotHi(s: seq<Slot>, len: int, j: int, hi: int): int
    requires 0 <= j && len <= |s|
  {
    if j + 1 < len then s[j + 1].k else hi
  }

  /** A child pointer one level down to a page of the tree other than the
      root. */
  ghost predicate ChildSound(c: Page, h: nat, nodes: map<Page, Node>, height: map<Page, nat>, root: Page)
  {
    c in nodes && c in height && height[c] + 1 == h && c != root
  }

  /** The structural invariant of one node at level `h`: the length fits
      the capacity `alloc_page` gave the page (bptree.c:33), leaves are
      exactly the pages at level 0 and hold values, and the child pointers
      of an internal page lead one level down. */
  ghost predicate NodeSound(n: Node, h: nat, degree: nat, nodes: map<Page, Node>,
                            height: map<Page, nat>, root: Page)
  {
    0 <= n.len <= degree + (if n.kind == Inter then 1 else 0) <= |n.s| &&
    (n.kind == Leaf <==> h == 0) &&
    (n.kind == Leaf ==> forall j :: 0 <= j < n.len ==> n.s[j].v.Value?) &&
    (n.kind == Inter ==>
      forall j :: 0 <= j < n.len && n.s[j].v.Child? ==> ChildSound(n.s[j].v.page, h, nodes, height, root))
  }

  /** Page `p` of the tree has a level and a sound node. */
  ghost predicate PageSound(p: Page, nodes: map<Page, Node>, degree: nat, height: map<Page, nat>, root: Page)
  {
    p in nodes && p in height && NodeSound(nodes[p], height[p], degree, nodes, height, root)
  }

  /** The structural invariant of the whole tree: every page sound, the
      leaf list made of distinct leaves of the tree. */
  ghost predicate TreeSound(nodes: map<Page, Node>, degree: nat, height: map<Page, nat>,
                            root: Page, leaves: seq<Page>)
  {
    root in nodes &&
    (forall p {:trigger PageSound(p, nodes, degree, height, root)} | p in nodes :: PageSound(p, nodes, degree, height, root)) &&
    (forall i | 0 <= i < |leaves| :: leaves[i] in nodes && nodes[leaves[i]].kind == Leaf) &&
    (forall i, j | 0 <= i < j < |leaves| :: leaves[i] != leaves[j])
  }

  /** `c` owns the interval [l, h), hangs under `p`, and is on the leaf
      list when it is a leaf. */
  ghost predicate ChildAt(c: Page, l: int, h: int, p: Page, b: Bounds, height: map<Page, nat>, leaves: seq<Page>)
  {
    c in b.lo && c in b.hi && c in b.parent && c in height &&
    b.lo[c] == l && b.hi[c] == h && b.parent[c] == p && (height[c] == 0 ==> c in leaves)
  }

  /** Slot `j` of internal page `p`: when its interval is not empty it
      points at the child owning that interval; when it is empty (slot 0 of
      a page made by `split`, whose lower end is its first key) it was
      never written. */
  ghost predicate SlotOk(p: Page, s: seq<Slot>, len: int, j: int, b: Bounds,
                         height: map<Page, nat>, leaves: seq<Page>)
    requires p in b.lo && p in b.hi && 0 <= j < len <= |s|
  {
    var l, h := SlotLo(s, j, b.lo[p]), SlotHi(s, len, j, b.hi[p]);
    if l < h then s[j].v.Child? && ChildAt(s[j].v.page, l, h, p, b, height, leaves)
    else s[j].v.Unwritten?
  }

  /** The used slots of a leaf are strictly sorted inside [lo, hi). */
  ghost predicate LeafKeysOk(s: seq<Slot>, len: int, lo: int, hi: int)
  {
    0 <= len <= |s| && SortedKeys(s[..len]) &&
    forall j :: 0 <= j < len ==> lo <= s[j].k < hi
  }

  /** The search-tree invariant of page `p` with node `n`. A leaf keeps
      slot 0 inside its interval even when empty, because `merge` searches
      the parent for that key (bptree.c:346). An internal page starts with
      the sentinel key 0 and its real keys lie inside its interval. */
  ghost predicate NodeOrdered(p: Page, n: Node, b: Bounds, height: map<Page, nat>, leaves: seq<Page>)
  {
    p in b.lo && p in b.hi && b.lo[p] < b.hi[p] && 1 <= |n.s| && 0 <= n.len <= |n.s| &&
    SortedKeys(n.s[..n.len]) &&
    if n.kind == Leaf then
      b.lo[p] <= n.s[0].k < b.hi[p] && LeafKeysOk(n.s, n.len, b.lo[p], b.hi[p])
    else
      1 <= n.len && n.s[0].k == 0 && (2 <= n.len ==> b.lo[p] <= n.s[1].k) && n.s[n.len - 1].k < b.hi[p] &&
      forall j :: 0 <= j < n.len ==> SlotOk(p, n.s, n.len, j, b, height, leaves)
  }

  /** The leaf list splits the key space [0, 2^64) into consecutive
      intervals. */
  ghost predicate LeafChain(ls: seq<Page>, b: Bounds)
  {
    |ls| >= 1 && (forall i :: 0 <= i < |ls| ==> ls[i] in b.lo && ls[i] in b.hi) &&
    b.lo[ls[0]] == 0 && b.hi[ls[|ls| - 1]] == U64_LIMIT &&
    forall i :: 0 <= i < |ls| - 1 ==> b.hi[ls[i]] == b.lo[ls[i + 1]]
  }

  /** The search-tree invariant of the whole tree: the root owns every key,
      every page is ordered, and the leaf list runs through the key space
      in order. */
  ghost predicate TreeOrdered(nodes: map<Page, Node>, b: Bounds, height: map<Page, nat>,
                              root: Page, leaves: seq<Page>)
  {
    root in b.lo && root in b.hi && b.lo[root] == 0 && b.hi[root] == U64_LIMIT &&
    (forall p {:trigger NodeOrdered(p, nodes[p], b, height, leaves)} | p in nodes :: NodeOrdered(p, nodes[p], b, height, leaves)) &&
    LeafChain(leaves, b) &&
    (root in nodes && nodes[root].kind == Leaf ==> root in leaves)
  }

  /** Replacing one page by an ordered node of the same kind keeps the
      tree ordered. */
  lemma OrderedUpdate(nodes: map<Page, Node>, b: Bounds, height: map<Page, nat>, root: Page,
                      leaves: seq<Page>, p: Page, n: Node)
    requires TreeOrdered(nodes, b, height, root, leaves)
    requires p in nodes && n.kind == nodes[p].kind && NodeOrdered(p, n, b, height, leaves)
    ensures TreeOrdered(nodes[p := n], b, height, root, leaves)
  {
    var nodes' := nodes[p := n];
    forall x | x in nodes' ensures NodeOrdered(x, nodes'[x], b, height, leaves) {
      if x != p {
        assert nodes'[x] == nodes[x];
      }
    }
  }

  /** Every page of `ls` is in the tree with a length within its slots. */
  ghost predicate Listed(nodes: map<Page, Node>, ls: seq<Page>)
  {
    forall i :: 0 <= i < |ls| ==> ls[i] in nodes && 0 <= nodes[ls[i]].len <= |nodes[ls[i]].s|
  }

  /** The used slots of the pages `ls`, in order: the tree's contents when
      `ls` is the leaf list. */
  ghost function Items(nodes: map<Page, Node>, ls: seq<Page>): seq<Slot>
    requires Listed(nodes, ls)
  {
    if ls == [] then [] else Used(nodes[ls[0]]) + Items(nodes, ls[1..])
  }

  ghost predicate KeysBelow(s: seq<Slot>, x: int)
  {
    forall i :: 0 <= i < |s| ==> s[i].k < x
  }

  ghost predicate KeysFrom(s: seq<Slot>, x: int)
  {
    forall i :: 0 <= i < |s| ==> x <= s[i].k
  }

  /** The leaf list of a sound tree is listed. */
  lemma SoundListed(nodes: map<Page, Node>, degree: nat, height: map<Page, nat>, root: Page, leaves: seq<Page>)
    requires TreeSound(nodes, degree, height, root, leaves)
    ensures Listed(nodes, leaves)
  {
    forall i | 0 <= i < |leaves| ensures leaves[i] in nodes && 0 <= nodes[leaves[i]].len <= |nodes[leaves[i]].s| {
      assert PageSound(leaves[i], nodes, degree, height, root);
    }
  }

  /** The contents of pages whose nodes did not change are the same. */
  lemma {:induction false} ItemsSame(nodes: map<Page, Node>, nodes': map<Page, Node>, ls: seq<Page>)
    requires Listed(nodes, ls)
    requires forall i | 0 <= i < |ls| :: ls[i] in nodes' && nodes'[ls[i]] == nodes[ls[i]]
    ensures Listed(nodes', ls) && Items(nodes', ls) == Items(nodes, ls)
  {
    if ls != [] {
      ListedParts(nodes, ls, 1, |ls|);
      assert ls[1..][..] == ls[1..];
      forall i | 0 <= i < |ls[1..]| ensures ls[1..][i] in nodes' && nodes'[ls[1..][i]] == nodes[ls[1..][i]] {
        assert ls[1..][i] == ls[i + 1];
      }
      ItemsSame(nodes, nodes', ls[1..]);
    }
  }

  lemma ListedParts(nodes: map<Page, Node>, ls: seq<Page>, i: int, j: int)
    requires Listed(nodes, ls) && 0 <= i <= j <= |ls|
    ensures Listed(nodes, ls[i..j])
  {
    forall m | 0 <= m < j - i ensures ls[i..j][m] in nodes && 0 <= nodes[ls[i..j][m]].len <= |nodes[ls[i..j][m]].s| {
      assert ls[i..j][m] == ls[i + m];
    }
  }

  lemma {:induction false} ItemsAppend(nodes: map<Page, Node>, a: seq<Page>, c: seq<Page>)
    requires Listed(nodes, a) && Listed(nodes, c) && Listed(nodes, a + c)
    ensures Items(nodes, a + c) == Items(nodes, a) + Items(nodes, c)
  {
    if a == [] {
      assert a + c == c;
    } else {
      assert (a + c)[0] == a[0];
      assert (a + c)[1..] == a[1..] + c;
      ListedParts(nodes, a, 1, |a|);
      ListedParts(nodes, a + c, 1, |a + c|);
      ItemsAppend(nodes, a[1..], c);
    }
  }

  /** The contents of `ls` around its page `a`. */
  lemma {:induction false} ItemsAround(nodes: map<Page, Node>, ls: seq<Page>, a: int)
    requires Listed(nodes, ls) && 0 <= a < |ls|
    ensures Listed(nodes, ls[..a]) && Listed(nodes, ls[a + 1..])
    ensures Items(nodes, ls) == Items(nodes, ls[..a]) + Used(nodes[ls[a]]) + Items(nodes, ls[a + 1..])
  {
    ListedParts(nodes, ls, 0, a);
    ListedParts(nodes, ls, a + 1, |ls|);
    ListedParts(nodes, ls, 1, |ls|);
    assert ls[0..a] == ls[..a] && ls[a + 1..|ls|] == ls[a + 1..] && ls[1..|ls|] == ls[1..];
    var head := Used(nodes[ls[0]]);
    assert Items(nodes, ls) == head + Items(nodes, ls[1..]);
    if a == 0 {
      assert ls[..a] == [];
    } else {
      var mid, rest := Used(nodes[ls[a]]), Items(nodes, ls[a + 1..]);
      var front := Items(nodes, ls[..a][1..]);
      assert Items(nodes, ls[1..]) == front + mid + rest by {
        ItemsAround(nodes, ls[1..], a - 1);
        assert ls[1..][..a - 1] == ls[..a][1..];
        assert ls[1..][a - 1 + 1..] == ls[a + 1..];
        assert ls[1..][a - 1] == ls[a];
      }
      assert Items(nodes, ls[..a]) == head + front by {
        assert ls[..a][0] == ls[0];
      }
      assert head + (front + mid + rest) == head + front + mid + rest;
    }
  }

  /** Consecutive leaves, each sorted inside its own interval. */
  ghost predicate Segment(nodes: map<Page, Node>, ls: seq<Page>, b: Bounds)
  {
    (forall i :: 0 <= i < |ls| ==>
      ls[i] in nodes && ls[i] in b.lo && ls[i] in b.hi && b.lo[ls[i]] < b.hi[ls[i]] &&
      LeafKeysOk(nodes[ls[i]].s, nodes[ls[i]].len, b.lo[ls[i]], b.hi[ls[i]])) &&
    forall i :: 0 <= i < |ls| - 1 ==> b.hi[ls[i]] == b.lo[ls[i + 1]]
  }

  lemma SegmentListed(nodes: map<Page, Node>, ls: seq<Page>, b: Bounds)
    requires Segment(nodes, ls, b)
    ensures Listed(nodes, ls)
  {
    forall i | 0 <= i < |ls| ensures ls[i] in nodes && 0 <= nodes[ls[i]].len <= |nodes[ls[i]].s| {
      assert LeafKeysOk(nodes[ls[i]].s, nodes[ls[i]].len, b.lo[ls[i]], b.hi[ls[i]]);
    }
  }

  /** Two strictly sorted runs, the first inside [lo, mid) and the second
      inside [mid, hi), make one strictly sorted run inside [lo, hi). */
  lemma SortedConcat(a: seq<Slot>, c: seq<Slot>, lo: int, mid: int, hi: int)
    requires SortedKeys(a) && SortedKeys(c) && lo <= mid <= hi
    requires forall i :: 0 <= i < |a| ==> lo <= a[i].k < mid
    requires forall i :: 0 <= i < |c| ==> mid <= c[i].k < hi
    ensures SortedKeys(a + c)
    ensures forall i :: 0 <= i < |a + c| ==> lo <= (a + c)[i].k < hi
  {
    forall i, j | 0 <= i < j < |a + c| ensures (a + c)[i].k < (a + c)[j].k {
      if j < |a| {
        assert (a + c)[i] == a[i] && (a + c)[j] == a[j];
      } else if i >= |a| {
        assert (a + c)[i] == c[i - |a|] && (a + c)[j] == c[j - |a|];
      } else {
        assert (a + c)[i] == a[i] && (a + c)[j] == c[j - |a|];
      }
    }
    forall i | 0 <= i < |a + c| ensures lo <= (a + c)[i].k < hi {
      if i < |a| {
        assert (a + c)[i] == a[i];
      } else {
        assert (a + c)[i] == c[i - |a|];
      }
    }
  }

  /** The contents of consecutive sorted leaves are strictly sorted and lie
      between the first leaf's lower end and the last leaf's upper end. */
  lemma {:induction false} SegmentItems(nodes: map<Page, Node>, ls: seq<Page>, b: Bounds)
    requires Segment(nodes, ls, b) && |ls| >= 1
    ensures Listed(nodes, ls)
    ensures SortedKeys(Items(nodes, ls))
    ensures forall i :: 0 <= i < |Items(nodes, ls)| ==>
      b.lo[ls[0]] <= Items(nodes, ls)[i].k < b.hi[ls[|ls| - 1]]
  {
    SegmentListed(nodes, ls, b);
    var p := ls[0];
    var mine := Used(nodes[p]);
    assert LeafKeysOk(nodes[p].s, nodes[p].len, b.lo[p], b.hi[p]);
    assert forall j :: 0 <= j < |mine| ==> mine[j] == nodes[p].s[j];
    assert Items(nodes, ls) == mine + Items(nodes, ls[1..]);
    if |ls| == 1 {
      assert Items(nodes, ls[1..]) == [];
      assert Items(nodes, ls) == mine;
    } else {
      var rest := ls[1..];
      SegmentSlice(nodes, ls, b, 1, |ls|);
      SegmentItems(nodes, rest, b);
      assert rest[|rest| - 1] == ls[|ls| - 1];
      ChainRises(nodes, ls, b, 0, |ls| - 1);
      SortedConcat(mine, Items(nodes, rest), b.lo[p], b.hi[p], b.hi[ls[|ls| - 1]]);
    }
  }

  /** Along consecutive intervals the upper ends never fall. */
  lemma {:induction false} ChainRises(nodes: map<Page, Node>, ls: seq<Page>, b: Bounds, i: int, j: int)
    requires Segment(nodes, ls, b) && 0 <= i <= j < |ls|
    ensures b.hi[ls[i]] <= b.hi[ls[j]] && b.lo[ls[i]] <= b.lo[ls[j]]
    decreases j - i
  {
    if i < j {
      ChainRises(nodes, ls, b, i + 1, j);
    }
  }

  /** A sub-run of consecutive sorted leaves is one too. */
  lemma SegmentSlice(nodes: map<Page, Node>, ls: seq<Page>, b: Bounds, i: int, j: int)
    requires Segment(nodes, ls, b) && 0 <= i <= j <= |ls|
    ensures Segment(nodes, ls[i..j], b)
  {
    var t := ls[i..j];
    forall m | 0 <= m < |t| - 1 ensures b.hi[t[m]] == b.lo[t[m + 1]] {
      assert t[m] == ls[i + m] && t[m + 1] == ls[i + m + 1];
    }
  }

  /** In a run of consecutive sorted leaves the entries of the leaves before
      leaf `a` lie below its interval, those after it above. */
  lemma SegmentAround(nodes: map<Page, Node>, ls: seq<Page>, b: Bounds, a: int)
    requires Segment(nodes, ls, b) && 0 <= a < |ls|
    ensures Listed(nodes, ls) && Listed(nodes, ls[..a]) && Listed(nodes, ls[a + 1..])
    ensures KeysBelow(Items(nodes, ls[..a]), b.lo[ls[a]])
    ensures KeysFrom(Items(nodes, ls[a + 1..]), b.hi[ls[a]])
  {
    SegmentItems(nodes, ls, b);
    ItemsAround(nodes, ls, a);
    if a > 0 {
      SegmentSlice(nodes, ls, b, 0, a);
      SegmentItems(nodes, ls[..a], b);
      assert ls[..a][a - 1] == ls[a - 1];
    } else {
      assert Items(nodes, ls[..a]) == [];
    }
    if a + 1 < |ls| {
      SegmentSlice(nodes, ls, b, a + 1, |ls|);
      SegmentItems(nodes, ls[a + 1..], b);
      assert ls[a + 1..][0] == ls[a + 1];
    } else {
      assert Items(nodes, ls[a + 1..]) == [];
    }
  }

  /** In a sound, ordered tree the leaf list is a run of consecutive sorted
      leaves, so the contents are strictly sorted. */
  lemma OrderedSegment(nodes: map<Page, Node>, degree: nat, b: Bounds, height: map<Page, nat>,
                       root: Page, leaves: seq<Page>)
    requires TreeSound(nodes, degree, height, root, leaves) && TreeOrdered(nodes, b, height, root, leaves)
    ensures Segment(nodes, leaves, b) && Listed(nodes, leaves)
    ensures SortedKeys(Items(nodes, leaves))
  {
    forall i | 0 <= i < |leaves|
      ensures leaves[i] in nodes && leaves[i] in b.lo && leaves[i] in b.hi && b.lo[leaves[i]] < b.hi[leaves[i]]
      ensures LeafKeysOk(nodes[leaves[i]].s, nodes[leaves[i]].len, b.lo[leaves[i]], b.hi[leaves[i]])
    {
      assert NodeOrdered(leaves[i], nodes[leaves[i]], b, height, leaves);
    }
    SegmentItems(nodes, leaves, b);
  }

  /** In a sound, ordered tree the value stored under `k` is the one in the
      leaf whose interval holds `k`. */
  lemma Covering(nodes: map<Page, Node>, degree: nat, b: Bounds, height: map<Page, nat>,
                 root: Page, leaves: seq<Page>, a: int, k: Key)
    requires TreeSound(nodes, degree, height, root, leaves) && TreeOrdered(nodes, b, height, root, leaves)
    requires 0 <= a < |leaves| && leaves[a] in b.lo && leaves[a] in b.hi
    requires b.lo[leaves[a]] <= k < b.hi[leaves[a]]
    ensures Listed(nodes, leaves) && ValueOf(Items(nodes, leaves), k) == ValueOf(Used(nodes[leaves[a]]), k)
  {
    OrderedSegment(nodes, degree, b, height, root, leaves);
    SegmentAround(nodes, leaves, b, a);
    ItemsAround(nodes, leaves, a);
    var before, mine, after := Items(nodes, leaves[..a]), Used(nodes[leaves[a]]), Items(nodes, leaves[a + 1..]);
    ValueOfAppend(before + mine, after, k);
    ValueOfAppend(before, mine, k);
  }

  /** Page `c` owns an interval holding `k` and, when it is a leaf, is on
      the leaf list. */
  ghost predicate Covers(c: Page, k: Key, b: Bounds, height: map<Page, nat>, leaves: seq<Page>)
  {
    c in b.lo && c in b.hi && c in height && b.lo[c] <= k < b.hi[c] && (height[c] == 0 ==> c in leaves)
  }

  /** In an ordered internal page whose interval holds `k`, the slot the
      search answers is a live one, and its child's interval holds `k`. */
  lemma ChildCovering(p: Page, n: Node, b: Bounds, height: map<Page, nat>,
                      leaves: seq<Page>, k: Key, idx: int)
    requires NodeOrdered(p, n, b, height, leaves) && n.kind == Inter && b.lo[p] <= k < b.hi[p]
    requires -1 <= idx < n.len && SearchAnswer(n.s, n.len, k, idx)
    ensures 0 <= idx && n.s[idx].v.Child? && Covers(n.s[idx].v.page, k, b, height, leaves)
  {
    assert n.s[..n.len][0] == n.s[0];
    assert SlotOk(p, n.s, n.len, idx, b, height, leaves);
    assert SlotLo(n.s, idx, b.lo[p]) <= k < SlotHi(n.s, n.len, idx, b.hi[p]);
  }

  /** In a sorted leaf the search answer settles whether and how `k` is
      stored: under slot `idx` exactly when that slot holds `k`. */
  lemma LeafAnswer(s: seq<Slot>, len: int, k: Key, idx: int)
    requires 0 <= len <= |s| && SortedKeys(s[..len])
    requires -1 <= idx < len && SearchAnswer(s, len, k, idx)
    ensures ValueOf(s[..len], k) == if idx >= 0 && s[idx].k == k then Some(Val(s[idx])) else None
  {
    var u := s[..len];
    if idx >= 0 && s[idx].k == k {
      assert u[idx] == s[idx];
      ValueOfSorted(u, idx);
    } else {
      forall j | 0 <= j < |u| ensures u[j].k != k {
        assert u[j] == s[j];
        if j < idx {
          assert u[j].k < u[idx].k;
        }
      }
    }
  }

  /** In a sound, ordered tree, the search answer `idx` in a leaf whose
      interval holds `k` settles the value the tree stores under `k`. */
  lemma LeafLookup(nodes: map<Page, Node>, degree: nat, b: Bounds, height: map<Page, nat>,
                   root: Page, leaves: seq<Page>, leaf: Page, k: Key, idx: int)
    requires TreeSound(nodes, degree, height, root, leaves) && TreeOrdered(nodes, b, height, root, leaves)
    requires Covers(leaf, k, b, height, leaves) && leaf in leaves && leaf in nodes
    requires -1 <= idx < nodes[leaf].len <= |nodes[leaf].s| && SearchAnswer(nodes[leaf].s, nodes[leaf].len, k, idx)
    ensures Listed(nodes, leaves)
    ensures ValueOf(Items(nodes, leaves), k) ==
      if idx >= 0 && nodes[leaf].s[idx].k == k then Some(Val(nodes[leaf].s[idx])) else None
  {
    var a :| 0 <= a < |leaves| && leaves[a] == leaf;
    Covering(nodes, degree, b, height, root, leaves, a, k);
    assert NodeOrdered(leaf, nodes[leaf], b, height, leaves);
    LeafAnswer(nodes[leaf].s, nodes[leaf].len, k, idx);
  }

  /** An ordered tree whose root holds no slot stores nothing. */
  lemma EmptyRoot(nodes: map<Page, Node>, degree: nat, b: Bounds, height: map<Page, nat>,
                  root: Page, leaves: seq<Page>, k: Key)
    requires TreeSound(nodes, degree, height, root, leaves) && TreeOrdered(nodes, b, height, root, leaves)
    requires root in nodes && nodes[root].len == 0
    ensures Listed(nodes, leaves) && ValueOf(Items(nodes, leaves), k) == None
  {
    assert NodeOrdered(root, nodes[root], b, height, leaves);
    assert PageSound(root, nodes, degree, height, root);
    LeafLookup(nodes, degree, b, height, root, leaves, root, k, -1);
  }

  /** `path` starts at `root` and goes down one level per step. */
  ghost predicate Descent(path: seq<Page>, root: Page, nodes: map<Page, Node>, height: map<Page, nat>)
  {
    |path| >= 1 && path[0] == root &&
    (forall j :: 0 <= j < |path| ==> path[j] in nodes && path[j] in height) &&
    forall j :: 0 < j < |path| ==> height[path[j]] + 1 == height[path[j - 1]]
  }

  /** A descent extended by a page one level below its last page is one
      too. */
  lemma DescentExtend(path: seq<Page>, c: Page, root: Page, nodes: map<Page, Node>, height: map<Page, nat>)
    requires Descent(path, root, nodes, height)
    requires c in nodes && c in height && height[c] + 1 == height[path[|path| - 1]]
    ensures Descent(path + [c], root, nodes, height)
  {
    var path' := path + [c];
    forall j | 0 <= j < |path'| ensures path'[j] in nodes && path'[j] in height {
      if j < |path| {
        assert path'[j] == path[j];
      }
    }
    forall j | 0 < j < |path'| ensures height[path'[j]] + 1 == height[path'[j - 1]] {
      assert path'[j - 1] == path[j - 1];
      if j < |path| {
        assert path'[j] == path[j];
      }
    }
  }

  /** `path[j + 1]` is the child in slot `at[j]` of `path[j]`. */
  ghost predicate Linked(nodes: map<Page, Node>, path: seq<Page>, at: seq<int>)
  {
    |at| == |path| - 1 &&
    forall j :: 0 <= j < |at| ==>
      path[j] in nodes && 0 <= at[j] < nodes[path[j]].len <= |nodes[path[j]].s| &&
      nodes[path[j]].s[at[j]].v == Child(path[j + 1])
  }

  /** A path extended by the child in slot `idx` of its last page stays
      linked. */
  lemma LinkedExtend(nodes: map<Page, Node>, path: seq<Page>, at: seq<int>, idx: int, c: Page)
    requires Linked(nodes, path, at) && |path| >= 1 && path[|path| - 1] in nodes
    requires 0 <= idx < nodes[path[|path| - 1]].len <= |nodes[path[|path| - 1]].s|
    requires nodes[path[|path| - 1]].s[idx].v == Child(c)
    ensures Linked(nodes, path + [c], at + [idx])
  {
    var path', at' := path + [c], at + [idx];
    forall j | 0 <= j < |at'|
      ensures path'[j] in nodes && 0 <= at'[j] < nodes[path'[j]].len <= |nodes[path'[j]].s|
      ensures nodes[path'[j]].s[at'[j]].v == Child(path'[j + 1])
    {
      assert path'[j] == path[j];
      if j < |at| {
        assert path'[j + 1] == path[j + 1] && at'[j] == at[j];
      }
    }
  }

  /** One step of `find` (bptree.c:196-201) from the last page of a
      descent, an internal page, given the search answer `idx` there: the
      slot taken leads one level down, and in an ordered tree it is live
      and its child's interval holds `k`. */
  lemma DescendStep(nodes: map<Page, Node>, degree: nat, b: Bounds, height: map<Page, nat>,
                    root: Page, leaves: seq<Page>, path: seq<Page>, at: seq<int>, k: Key, ord: bool, idx: int)
    requires TreeSound(nodes, degree, height, root, leaves)
    requires ord ==> TreeOrdered(nodes, b, height, root, leaves)
    requires Descent(path, root, nodes, height)
    requires ord ==> Linked(nodes, path, at) && Covers(path[|path| - 1], k, b, height, leaves)
    requires nodes[path[|path| - 1]].kind == Inter
    requires -1 <= idx < nodes[path[|path| - 1]].len <= |nodes[path[|path| - 1]].s|
    requires SearchAnswer(nodes[path[|path| - 1]].s, nodes[path[|path| - 1]].len, k, idx)
    ensures ord ==> 0 <= idx && nodes[path[|path| - 1]].s[idx].v.Child?
    ensures 0 <= idx && nodes[path[|path| - 1]].s[idx].v.Child? ==>
      var c := nodes[path[|path| - 1]].s[idx].v.page;
      c in height && height[c] < height[path[|path| - 1]] && Descent(path + [c], root, nodes, height) &&
      (ord ==> Linked(nodes, path + [c], at + [idx]) && Covers(c, k, b, height, leaves))
  {
    var p := path[|path| - 1];
    var n := nodes[p];
    assert PageSound(p, nodes, degree, height, root);
    if ord {
      assert NodeOrdered(p, n, b, height, leaves);
      ChildCovering(p, n, b, height, leaves, k, idx);
    }
    if 0 <= idx && n.s[idx].v.Child? {
      var c := n.s[idx].v.page;
      assert ChildSound(c, height[p], nodes, height, root);
      DescentExtend(path, c, root, nodes, height);
      if ord {
        LinkedExtend(nodes, path, at, idx, c);
      }
    }
  }

  /** The tree `bp_create` builds: one empty leaf owning every key, alone
      on the leaf list, holding nothing. */
  lemma OneLeaf(r: Page, n: Node, degree: nat)
    requires n.kind == Leaf && n.len == 0 && |n.s| >= degree >= 2 && n.s[0].k == 0
    ensures TreeSound(map[r := n], degree, map[r := 0], r, [r])
    ensures TreeOrdered(map[r := n], Bounds(map[r := 0], map[r := U64_LIMIT], map[]), map[r := 0], r, [r])
    ensures Listed(map[r := n], [r]) && Items(map[r := n], [r]) == []
  {
    var nodes, height, b := map[r := n], map[r := 0], Bounds(map[r := 0], map[r := U64_LIMIT], map[]);
    assert PageSound(r, nodes, degree, height, r);
    assert NodeOrdered(r, n, b, height, [r]) by {
      assert n.s[..0] == [];
    }
    assert Items(nodes, [r]) == Used(n) + Items(nodes, []);
  }
}
