/** What `bp_insert` and `split` (bptree/bptree.c:230-308) do to the tree,
    stated on the value view of bpshape.dfy: where a split leaves the
    separator, which half `split` and `bp_insert` pick afterwards, and what
    entering an entry into a leaf with room does to the tree's contents. */
module BPlusInsert {
  import opened Keys
  import opened BPlusPage
  import opened BPlusContents
  import opened BPlusShape
  import opened BPlusSplit

  /** A full page of a sound, ordered tree keeps at least one entry (two
      when internal), moves at least one, and the separator lies strictly
      inside its interval. */
  lemma SepInside(nodes: map<Page, Node>, degree: nat, b: Bounds, height: map<Page, nat>,
                  root: Page, leaves: seq<Page>, c: Page)
    requires TreeSound(nodes, degree, height, root, leaves) && TreeOrdered(nodes, b, height, root, leaves)
    requires degree >= 2 && c in nodes && nodes[c].len == degree + FirstOf(nodes[c].kind)
    ensures c in b.lo && c in b.hi && c in height && nodes[c].len <= |nodes[c].s|
    ensures 1 + FirstOf(nodes[c].kind) <= Keep(nodes[c]) < nodes[c].len
    ensures b.lo[c] < Sep(nodes[c]) < b.hi[c]
  {
    assert PageSound(c, nodes, degree, height, root);
    assert NodeOrdered(c, nodes[c], b, height, leaves);
    var n := nodes[c];
    var keep := Keep(n);
    var u := n.s[..n.len];
    assert u[keep] == n.s[keep] && u[0] == n.s[0];
    if n.kind == Leaf {
      assert LeafKeysOk(n.s, n.len, b.lo[c], b.hi[c]);
      assert u[0].k < u[keep].k;
    } else {
      assert u[1] == n.s[1] && u[n.len - 1] == n.s[n.len - 1];
      assert u[1].k < u[keep].k;
      if keep < n.len - 1 {
        assert u[keep].k < u[n.len - 1].k;
      }
    }
  }

  /** The pages of a descent lie on distinct levels, so a page of it does
      not occur earlier on it; below the root, the page before it is an
      internal page holding it in slot `at[i - 1]`. */
  lemma PathFacts(nodes: map<Page, Node>, degree: nat, height: map<Page, nat>, root: Page,
                  leaves: seq<Page>, path: seq<Page>, at: seq<int>, i: int)
    requires TreeSound(nodes, degree, height, root, leaves)
    requires Descent(path, root, nodes, height) && Linked(nodes, path, at) && 0 <= i < |path|
    ensures path[i] !in path[..i]
    ensures i > 0 ==> path[i] != root && nodes[path[i - 1]].kind == Inter
  {
    HeightsFall(path, root, nodes, height, i);
    forall j | 0 <= j < i ensures path[j] != path[i] {
      HeightsFall(path, root, nodes, height, j);
    }
    if i > 0 {
      HeightsFall(path, root, nodes, height, i - 1);
      assert PageSound(path[i - 1], nodes, degree, height, root);
    }
  }

  /** Along a descent each page sits `j` levels below the root. */
  lemma {:induction false} HeightsFall(path: seq<Page>, root: Page, nodes: map<Page, Node>,
                                       height: map<Page, nat>, j: int)
    requires Descent(path, root, nodes, height) && 0 <= j < |path|
    ensures height[path[j]] + j == height[root]
  {
    if j > 0 {
      HeightsFall(path, root, nodes, height, j - 1);
    }
  }

  /** A full page below the root whose parent is not full can be split
      into that parent (bptree.c:252-261 with no split of the parent). */
  lemma FatherRoom(nodes: map<Page, Node>, degree: nat, b: Bounds, height: map<Page, nat>,
                   root: Page, leaves: seq<Page>, path: seq<Page>, at: seq<int>, i: int)
    requires degree >= 2
    requires TreeSound(nodes, degree, height, root, leaves) && TreeOrdered(nodes, b, height, root, leaves)
    requires Descent(path, root, nodes, height) && Linked(nodes, path, at) && 0 < i < |path|
    requires nodes[path[i]].len == degree + FirstOf(nodes[path[i]].kind)
    requires nodes[path[i - 1]].len != degree + 1
    ensures StepPre(nodes, degree, b, height, root, leaves, path[i], path[i - 1], at[i - 1])
  {
    PathFacts(nodes, degree, height, root, leaves, path, at, i);
    assert PageSound(path[i - 1], nodes, degree, height, root);
    assert NodeOrdered(path[i - 1], nodes[path[i - 1]], b, height, leaves);
    assert NodeOrdered(path[i], nodes[path[i]], b, height, leaves);
  }

  /** After the root grew a level (bptree.c:263-266), the old root, when
      full, can be split into the new root. */
  lemma GrowStep(nodes: map<Page, Node>, degree: nat, b: Bounds, height: map<Page, nat>,
                 root: Page, leaves: seq<Page>, r: Page, rs: seq<Slot>)
    requires GrowPre(nodes, degree, b, height, root, leaves, r, rs)
    requires nodes[root].len == degree + FirstOf(nodes[root].kind)
    ensures root in height
    ensures StepPre(nodes[r := Node(Inter, rs, 1)], degree, GrowBounds(b, root, r),
                    height[r := height[root] + 1], r, leaves, root, r, 0)
  {
    GrowRoot(nodes, degree, b, height, root, leaves, r, rs);
    assert NodeOrdered(root, nodes[root], b, height, leaves);
  }

  /** After the full parent `np` of `c` was split into `p`, keeping its
      lower half, and the fresh page `q`, the comparison `split` makes
      (bptree.c:256-258) picks the half holding `c`'s slot, and the split
      of `c` can go ahead there. */
  lemma ChosenFather(nodes: map<Page, Node>, degree: nat, b: Bounds, height: map<Page, nat>,
                     root: Page, leaves: seq<Page>, p: Page, q: Page, np: Node, ip: int, c: Page)
    returns (f: Page, ip': int)
    requires TreeSound(nodes, degree, height, root, leaves) && TreeOrdered(nodes, b, height, root, leaves)
    requires degree >= 2 && np.kind == Inter && np.len == degree + 1 <= |np.s|
    requires 0 <= ip < np.len && np.s[ip].v == Child(c)
    requires p in nodes && nodes[p] == Node(Inter, np.s, Keep(np))
    requires q in nodes && UpperHalf(nodes[q], np, degree)
    requires p in b.hi && b.hi[p] == Sep(np)
    requires c in nodes && nodes[c].len == degree + FirstOf(nodes[c].kind)
    ensures 2 <= nodes[q].len <= |nodes[q].s| && 0 <= Keep(nodes[c]) < |nodes[c].s|
    ensures f == if KCmp(nodes[q].s[1].k, Sep(nodes[c])) <= 0 then q else p
    ensures StepPre(nodes, degree, b, height, root, leaves, c, f, ip')
  {
    SepInside(nodes, degree, b, height, root, leaves, c);
    var keep, qn := Keep(np), nodes[q];
    UpperHalfAt(qn, np, degree);
    assert PageSound(p, nodes, degree, height, root) && PageSound(q, nodes, degree, height, root);
    assert NodeOrdered(p, nodes[p], b, height, leaves);
    assert NodeOrdered(q, qn, b, height, leaves);
    var sep := Sep(nodes[c]);
    if ip < keep {
      assert SlotOk(p, np.s, keep, ip, b, height, leaves);
      if ip + 1 < keep {
        assert np.s[..keep][ip + 1].k <= np.s[..keep][keep - 1].k;
      }
      assert KCmp(qn.s[1].k, sep) > 0;
      f, ip' := p, ip;
    } else {
      var j := ip - keep + 1;
      assert qn.s[j] == np.s[ip];
      assert SlotOk(q, qn.s, qn.len, j, b, height, leaves);
      if j > 1 {
        assert qn.s[..qn.len][1].k < qn.s[..qn.len][j].k;
      }
      assert KCmp(qn.s[1].k, sep) <= 0;
      f, ip' := q, j;
    }
  }

  /** After the full leaf `np` was split into `p`, keeping its lower half,
      and `q`, the comparison `bp_insert` makes (bptree.c:292-296) picks
      the half whose interval holds `k`. The search answer from before the
      split stays right in `p`, and neither half holds `k` when `np` did
      not. */
  lemma LeafChoice(nodes: map<Page, Node>, b: Bounds, height: map<Page, nat>, leaves: seq<Page>,
                   p: Page, q: Page, np: Node, degree: nat, k: Key, idx: int)
    requires degree >= 2 && np.kind == Leaf && np.len == degree <= |np.s| && SortedKeys(np.s[..np.len])
    requires -1 <= idx < np.len && SearchAnswer(np.s, np.len, k, idx)
    requires forall j :: 0 <= j < np.len ==> np.s[j].k != k
    requires p in nodes && nodes[p] == Node(Leaf, np.s, Keep(np))
    requires q in nodes && UpperHalf(nodes[q], np, degree)
    requires p in b.lo && p in b.hi && q in b.lo && q in b.hi && p in height && q in height
    requires p in leaves && q in leaves && b.lo[p] <= k < b.hi[q]
    requires 0 <= Keep(np) < |np.s| && b.hi[p] == Sep(np) && b.lo[q] == Sep(np)
    ensures 1 <= nodes[q].len <= |nodes[q].s|
    ensures forall j :: 0 <= j < nodes[q].len ==> nodes[q].s[j].k != k
    ensures KCmp(nodes[q].s[0].k, k) <= 0 ==> Covers(q, k, b, height, leaves)
    ensures KCmp(nodes[q].s[0].k, k) > 0 ==>
      Covers(p, k, b, height, leaves) && idx < Keep(np) && SearchAnswer(np.s, Keep(np), k, idx)
  {
    var keep, qn := Keep(np), nodes[q];
    UpperHalfAt(qn, np, degree);
    assert qn.s[0] == np.s[keep];
    if KCmp(qn.s[0].k, k) > 0 {
      assert k < np.s[keep].k;
    }
    SortedPrefix(np.s[..np.len], keep);
    assert np.s[..np.len][..keep] == np.s[..keep];
  }

  /** The nodes after entry `x` went in right after slot `idx` of `leaf`
      (bptree.c:297-303). */
  ghost function LeafAdded(nodes: map<Page, Node>, leaf: Page, idx: int, x: Slot): map<Page, Node>
    requires leaf in nodes && -1 <= idx < nodes[leaf].len < |nodes[leaf].s|
  {
    var n := nodes[leaf];
    nodes[leaf := Node(n.kind, Inserted(n.s, n.len, idx, x), n.len + 1)]
  }

  /** What `bp_insert` has before it enters `x` into `leaf`: a sound,
      ordered tree, a leaf with room whose interval holds the key, the
      search answer there, and no entry with the key at that answer. */
  ghost predicate AddPre(nodes: map<Page, Node>, degree: nat, b: Bounds, height: map<Page, nat>,
                         root: Page, leaves: seq<Page>, leaf: Page, idx: int, x: Slot)
  {
    TreeSound(nodes, degree, height, root, leaves) && TreeOrdered(nodes, b, height, root, leaves) &&
    leaf in nodes && nodes[leaf].kind == Leaf && Covers(leaf, x.k, b, height, leaves) && x.v.Value? &&
    -1 <= idx < nodes[leaf].len < |nodes[leaf].s| && nodes[leaf].len < degree &&
    SearchAnswer(nodes[leaf].s, nodes[leaf].len, x.k, idx) &&
    (idx < 0 || nodes[leaf].s[idx].k != x.k)
  }

  /** The used slots of the leaf up to `idx` hold keys below `x`'s, the
      rest keys above it. */
  lemma AddFacts(nodes: map<Page, Node>, degree: nat, b: Bounds, height: map<Page, nat>,
                 root: Page, leaves: seq<Page>, leaf: Page, idx: int, x: Slot)
    requires AddPre(nodes, degree, b, height, root, leaves, leaf, idx, x)
    ensures PageSound(leaf, nodes, degree, height, root) && NodeOrdered(leaf, nodes[leaf], b, height, leaves)
    ensures LeafKeysOk(nodes[leaf].s, nodes[leaf].len, b.lo[leaf], b.hi[leaf])
    ensures forall j :: 0 <= j <= idx ==> nodes[leaf].s[j].k < x.k
    ensures forall j :: idx < j < nodes[leaf].len ==> x.k < nodes[leaf].s[j].k
  {
    var n := nodes[leaf];
    assert PageSound(leaf, nodes, degree, height, root);
    assert NodeOrdered(leaf, n, b, height, leaves);
    forall j | 0 <= j <= idx ensures n.s[j].k < x.k {
      if j < idx {
        assert n.s[..n.len][j].k < n.s[..n.len][idx].k;
      }
    }
  }

  /** Entering the entry keeps the tree sound. */
  lemma AddSound(nodes: map<Page, Node>, degree: nat, b: Bounds, height: map<Page, nat>,
                 root: Page, leaves: seq<Page>, leaf: Page, idx: int, x: Slot)
    requires AddPre(nodes, degree, b, height, root, leaves, leaf, idx, x)
    ensures TreeSound(LeafAdded(nodes, leaf, idx, x), degree, height, root, leaves)
  {
    AddFacts(nodes, degree, b, height, root, leaves, leaf, idx, x);
    var n := nodes[leaf];
    var nodes' := LeafAdded(nodes, leaf, idx, x);
    var t := nodes'[leaf].s;
    forall p | p in nodes' ensures PageSound(p, nodes', degree, height, root) {
      assert PageSound(p, nodes, degree, height, root);
      if p != leaf {
        NodeSoundGrow(nodes[p], height[p], degree, nodes, height, nodes', height, root);
      } else {
        forall j | 0 <= j < n.len + 1 ensures t[j].v.Value? {
          if j > idx + 1 {
            assert t[j] == n.s[j - 1];
          }
        }
      }
    }
  }

  /** Entering the entry keeps the tree ordered: it goes between the keys
      below and above it, inside the leaf's interval. */
  lemma AddOrdered(nodes: map<Page, Node>, degree: nat, b: Bounds, height: map<Page, nat>,
                   root: Page, leaves: seq<Page>, leaf: Page, idx: int, x: Slot)
    requires AddPre(nodes, degree, b, height, root, leaves, leaf, idx, x)
    ensures TreeOrdered(LeafAdded(nodes, leaf, idx, x), b, height, root, leaves)
  {
    AddFacts(nodes, degree, b, height, root, leaves, leaf, idx, x);
    var n := nodes[leaf];
    var nodes' := LeafAdded(nodes, leaf, idx, x);
    var t := nodes'[leaf].s;
    InsertedSorted(n.s, n.len, idx, x);
    forall j | 0 <= j < n.len + 1 ensures b.lo[leaf] <= t[j].k < b.hi[leaf] {
      if j > idx + 1 {
        assert t[j] == n.s[j - 1];
      }
    }
    assert NodeOrdered(leaf, nodes'[leaf], b, height, leaves);
    OrderedUpdate(nodes, b, height, root, leaves, leaf, nodes'[leaf]);
  }

  /** Entering the entry changes the contents as sorted insertion does,
      and the contents did not hold its key. */
  lemma AddItems(nodes: map<Page, Node>, degree: nat, b: Bounds, height: map<Page, nat>,
                 root: Page, leaves: seq<Page>, leaf: Page, idx: int, x: Slot)
    requires AddPre(nodes, degree, b, height, root, leaves, leaf, idx, x)
    ensures Listed(nodes, leaves) && Listed(LeafAdded(nodes, leaf, idx, x), leaves)
    ensures ValueOf(Items(nodes, leaves), x.k).None?
    ensures Items(LeafAdded(nodes, leaf, idx, x), leaves) == InsertSorted(Items(nodes, leaves), x)
  {
    AddFacts(nodes, degree, b, height, root, leaves, leaf, idx, x);
    OrderedSegment(nodes, degree, b, height, root, leaves);
    var a :| 0 <= a < |leaves| && leaves[a] == leaf;
    SegmentAdd(nodes, leaves, b, a, idx, x);
  }

  /** The same on a run of consecutive sorted leaves. */
  lemma SegmentAdd(nodes: map<Page, Node>, leaves: seq<Page>, b: Bounds, a: int, idx: int, x: Slot)
    requires Segment(nodes, leaves, b) && 0 <= a < |leaves|
    requires forall i, j | 0 <= i < j < |leaves| :: leaves[i] != leaves[j]
    requires b.lo[leaves[a]] <= x.k < b.hi[leaves[a]]
    requires -1 <= idx < nodes[leaves[a]].len < |nodes[leaves[a]].s|
    requires forall j :: 0 <= j <= idx ==> nodes[leaves[a]].s[j].k < x.k
    requires forall j :: idx < j < nodes[leaves[a]].len ==> x.k < nodes[leaves[a]].s[j].k
    ensures Listed(nodes, leaves) && Listed(LeafAdded(nodes, leaves[a], idx, x), leaves)
    ensures ValueOf(Items(nodes, leaves), x.k).None?
    ensures Items(LeafAdded(nodes, leaves[a], idx, x), leaves) == InsertSorted(Items(nodes, leaves), x)
  {
    var leaf := leaves[a];
    var n := nodes[leaf];
    var nodes' := LeafAdded(nodes, leaf, idx, x);
    SegmentAround(nodes, leaves, b, a);
    forall i | 0 <= i < |leaves| ensures leaves[i] in nodes' && 0 <= nodes'[leaves[i]].len <= |nodes'[leaves[i]].s| {
    }
    forall i | 0 <= i < |leaves| && i != a ensures nodes'[leaves[i]] == nodes[leaves[i]] {
    }
    var u := Used(n);
    forall j | 0 <= j <= idx ensures u[j].k < x.k {
    }
    forall j | idx < j < |u| ensures x.k < u[j].k {
    }
    assert Used(nodes'[leaf]) == u[..idx + 1] + [x] + u[idx + 1..];
    OneLeafGrows(nodes, nodes', leaves, a, x, idx, b.lo[leaf], b.hi[leaf]);
  }

  /** When only leaf `a` of the list changes, and `x` goes into it between
      its keys below and above `x`'s, with the leaves before it below its
      interval and those after it above, the contents change as sorted
      insertion of `x` does. */
  lemma OneLeafGrows(nodes: map<Page, Node>, nodes': map<Page, Node>, leaves: seq<Page>, a: int,
                     x: Slot, idx: int, lo: int, hi: int)
    requires Listed(nodes, leaves) && Listed(nodes', leaves) && 0 <= a < |leaves|
    requires forall i, j | 0 <= i < j < |leaves| :: leaves[i] != leaves[j]
    requires forall i | 0 <= i < |leaves| && i != a :: nodes'[leaves[i]] == nodes[leaves[i]]
    requires Listed(nodes, leaves[..a]) && Listed(nodes, leaves[a + 1..])
    requires KeysBelow(Items(nodes, leaves[..a]), lo) && KeysFrom(Items(nodes, leaves[a + 1..]), hi)
    requires lo <= x.k < hi && -1 <= idx < |Used(nodes[leaves[a]])|
    requires forall j :: 0 <= j <= idx ==> Used(nodes[leaves[a]])[j].k < x.k
    requires forall j :: idx < j < |Used(nodes[leaves[a]])| ==> x.k < Used(nodes[leaves[a]])[j].k
    requires Used(nodes'[leaves[a]]) ==
      Used(nodes[leaves[a]])[..idx + 1] + [x] + Used(nodes[leaves[a]])[idx + 1..]
    ensures ValueOf(Items(nodes, leaves), x.k).None?
    ensures Items(nodes', leaves) == InsertSorted(Items(nodes, leaves), x)
  {
    ItemsAround(nodes, leaves, a);
    ItemsAround(nodes', leaves, a);
    var before, after := leaves[..a], leaves[a + 1..];
    forall i | 0 <= i < |before| ensures before[i] in nodes' && nodes'[before[i]] == nodes[before[i]] {
      assert before[i] == leaves[i];
    }
    forall i | 0 <= i < |after| ensures after[i] in nodes' && nodes'[after[i]] == nodes[after[i]] {
      assert after[i] == leaves[a + 1 + i];
    }
    ItemsSame(nodes, nodes', before);
    ItemsSame(nodes, nodes', after);
    InsertAmid(Items(nodes, before), Used(nodes[leaves[a]]), Items(nodes, after), x, idx, lo, hi);
  }

  /** Sorted insertion of `x` into `a + u + c`, where `a` lies below `lo`,
      `c` from `hi` on, and `u` holds keys below `x`'s up to `idx` and above
      it after, puts `x` right after slot `idx` of `u`. */
  lemma InsertAmid(a: seq<Slot>, u: seq<Slot>, c: seq<Slot>, x: Slot, idx: int, lo: int, hi: int)
    requires KeysBelow(a, lo) && KeysFrom(c, hi) && lo <= x.k < hi && -1 <= idx < |u|
    requires forall j :: 0 <= j <= idx ==> u[j].k < x.k
    requires forall j :: idx < j < |u| ==> x.k < u[j].k
    ensures ValueOf(a + u + c, x.k).None?
    ensures InsertSorted(a + u + c, x) == a + (u[..idx + 1] + [x] + u[idx + 1..]) + c
  {
    var u1, u2 := u[..idx + 1], u[idx + 1..];
    var L, R := a + u1, u2 + c;
    AmidKeys(a, u, c, x, idx, lo, hi, L, R);
    assert u == u1 + u2;
    Regroup(a, u1, u2, c, x);
    InsertSortedBetween(L, R, x);
    Between(L, R, x);
  }

  /** Two ways of grouping the same concatenations. */
  lemma Regroup(a: seq<Slot>, u1: seq<Slot>, u2: seq<Slot>, c: seq<Slot>, x: Slot)
    ensures a + (u1 + u2) + c == (a + u1) + (u2 + c)
    ensures a + (u1 + [x] + u2) + c == (a + u1) + [x] + (u2 + c)
  {
  }

  /** The keys left of the insertion point lie below `x`'s, those right of
      it above. */
  lemma AmidKeys(a: seq<Slot>, u: seq<Slot>, c: seq<Slot>, x: Slot, idx: int, lo: int, hi: int,
                  L: seq<Slot>, R: seq<Slot>)
    requires KeysBelow(a, lo) && KeysFrom(c, hi) && lo <= x.k < hi && -1 <= idx < |u|
    requires forall j :: 0 <= j <= idx ==> u[j].k < x.k
    requires forall j :: idx < j < |u| ==> x.k < u[j].k
    requires L == a + u[..idx + 1] && R == u[idx + 1..] + c
    ensures forall i :: 0 <= i < |L| ==> L[i].k < x.k
    ensures forall i :: 0 <= i < |R| ==> x.k < R[i].k
  {
    forall i | 0 <= i < |L| ensures L[i].k < x.k {
      if i >= |a| {
        assert L[i] == u[i - |a|];
      }
    }
    forall i | 0 <= i < |R| ensures x.k < R[i].k {
      if i < |u| - idx - 1 {
        assert R[i] == u[idx + 1 + i];
      }
    }
  }

  /** No key between two runs that lie below and above it. */
  lemma Between(L: seq<Slot>, R: seq<Slot>, x: Slot)
    requires forall i :: 0 <= i < |L| ==> L[i].k < x.k
    requires forall i :: 0 <= i < |R| ==> x.k < R[i].k
    ensures ValueOf(L + R, x.k).None?
  {
    forall i | 0 <= i < |L + R| ensures (L + R)[i].k != x.k {
      if i < |L| {
        assert (L + R)[i] == L[i];
      } else {
        assert (L + R)[i] == R[i - |L|];
      }
    }
  }

  /** On a sorted page, a search answer whose slot does not hold `k` means
      no used slot holds `k`. */
  lemma NoKey(n: Node, k: Key, idx: int)
    requires 0 <= n.len <= |n.s| && SortedKeys(n.s[..n.len]) && -1 <= idx < n.len
    requires SearchAnswer(n.s, n.len, k, idx) && (idx < 0 || n.s[idx].k != k)
    ensures forall j :: 0 <= j < n.len ==> n.s[j].k != k
  {
    forall j | 0 <= j < n.len ensures n.s[j].k != k {
      if j < idx {
        assert n.s[..n.len][j].k < n.s[..n.len][idx].k;
      }
    }
  }
}
