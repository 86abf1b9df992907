/** The ghost view of a B+-tree (the pages allocated, the node each page
    holds, levels and key intervals), what a split leaves of it, and the
    lemmas that carry soundness, order and contents across the page work of
    `split` (bptree/bptree.c:230-272). */
module BPlusView {
  import opened Keys
  import opened BPlusPage
  import opened BPlusContents
  import opened BPlusShape
  import opened BPlusSplit
  import opened BPlusInsert

  /** The ghost view of a tree: every page allocated, the page owning each
      entry array, what each page holds, each page's level and the key
      intervals of an ordered tree. */
  datatype View = View(Repr: set<Page>, owner: map<array<Slot>, Page>, nodes: map<Page, Node>,
                       height: map<Page, nat>, bounds: Bounds)

  /** The entry arrays of the pages `repr`. */
  ghost function Arrays(repr: set<Page>): set<array<Slot>>
  {
    set p | p in repr :: p.kv
  }

  /** The view agrees with the pages in the heap. */
  ghost predicate Mirrored(g: View)
    reads g.Repr, Arrays(g.Repr)
  {
    Mirrors(g.Repr, g.owner, g.nodes)
  }

  /** Every map of the view speaks of allocated pages only. */
  ghost predicate Fits(g: View)
  {
    g.nodes.Keys <= g.Repr && g.height.Keys <= g.Repr &&
    g.bounds.lo.Keys <= g.Repr && g.bounds.hi.Keys <= g.Repr && g.bounds.parent.Keys <= g.Repr
  }

  /** A sound, ordered tree with root `root` and leaf list `leaves`. */
  ghost predicate Good(g: View, degree: nat, root: Page, leaves: seq<Page>)
  {
    degree >= 2 && Fits(g) &&
    TreeSound(g.nodes, degree, g.height, root, leaves) && TreeOrdered(g.nodes, g.bounds, g.height, root, leaves)
  }

  /** From `g` to `g'` the pages outside `t` kept their nodes and intervals,
      every page its level, and every leaf its place on the list. */
  ghost predicate Untouched(g: View, g': View, leaves: seq<Page>, leaves': seq<Page>, t: seq<Page>)
  {
    g.Repr <= g'.Repr &&
    (forall x | x in g.nodes && x !in t :: x in g'.nodes && g'.nodes[x] == g.nodes[x]) &&
    (forall x | x in g.bounds.lo && x !in t :: x in g'.bounds.lo && g'.bounds.lo[x] == g.bounds.lo[x]) &&
    (forall x | x in g.bounds.hi && x !in t :: x in g'.bounds.hi && g'.bounds.hi[x] == g.bounds.hi[x]) &&
    (forall x | x in g.height :: x in g'.height && g'.height[x] == g.height[x]) &&
    (forall x | x in leaves :: x in leaves')
  }

  /** From `g` to `g'` page `p` was split at its separator: it kept the lower
      entries and the lower part of its interval, and `q` holds the upper
      entries and owns the upper part; both are on the leaf list when they
      are leaves. */
  ghost predicate Halved(g: View, g': View, leaves': seq<Page>, degree: nat, p: Page, q: Page)
  {
    p in g.nodes && p in g.bounds.lo && p in g.bounds.hi &&
    p in g'.nodes && q in g'.nodes && p in g'.bounds.lo && p in g'.bounds.hi &&
    q in g'.bounds.lo && q in g'.bounds.hi &&
    var np := g.nodes[p];
    0 <= Keep(np) < |np.s| &&
    g'.nodes[p] == Node(np.kind, np.s, Keep(np)) && UpperHalf(g'.nodes[q], np, degree) &&
    g'.bounds.lo[p] == g.bounds.lo[p] && g'.bounds.hi[p] == Sep(np) &&
    g'.bounds.lo[q] == Sep(np) && g'.bounds.hi[q] == g.bounds.hi[p] &&
    (np.kind == Leaf ==> p in leaves' && q in leaves')
  }

  /** The split step on the view keeps the tree sound, ordered and its
      contents. */
  lemma StepKeeps(g: View, g': View, degree: nat, root: Page, leaves: seq<Page>, leaves': seq<Page>,
                  p: Page, f: Page, ip: int, q: Page, qn: Node)
    requires Good(g, degree, root, leaves) && q !in g.Repr
    requires StepPre(g.nodes, degree, g.bounds, g.height, root, leaves, p, f, ip)
    requires UpperHalf(qn, g.nodes[p], degree) && LeavesAfter(leaves, leaves', g.nodes[p].kind, p, q)
    requires 0 <= Keep(g.nodes[p]) < |g.nodes[p].s| && Fits(g')
    requires g'.nodes == SplitNodes(g.nodes, p, f, ip, q, qn) && g'.height == g.height[q := g.height[p]]
    requires g'.bounds == SplitBounds(g.bounds, p, q, Sep(g.nodes[p]), f)
    ensures Good(g', degree, root, leaves')
    ensures Listed(g.nodes, leaves) && Listed(g'.nodes, leaves') && Items(g'.nodes, leaves') == Items(g.nodes, leaves)
  {
    SplitKeepsAll(g.nodes, degree, g.bounds, g.height, root, leaves, p, f, ip, q, qn, leaves');
  }

  /** The split step on the view halves `p` into `q` and leaves every page
      but `p` and `f` as it was. */
  lemma StepShape(g: View, g': View, degree: nat, leaves: seq<Page>, leaves': seq<Page>,
                  p: Page, f: Page, ip: int, q: Page, qn: Node)
    requires Fits(g) && q !in g.Repr && p in g.nodes && f in g.nodes && p in g.height && p != f
    requires p in g.bounds.lo && p in g.bounds.hi && (g.nodes[p].kind == Leaf ==> p in leaves)
    requires 0 <= Keep(g.nodes[p]) < |g.nodes[p].s| && 0 <= ip < g.nodes[f].len < |g.nodes[f].s|
    requires UpperHalf(qn, g.nodes[p], degree) && LeavesAfter(leaves, leaves', g.nodes[p].kind, p, q)
    requires g' == View(g.Repr + {q}, g'.owner, SplitNodes(g.nodes, p, f, ip, q, qn),
                        g.height[q := g.height[p]], SplitBounds(g.bounds, p, q, Sep(g.nodes[p]), f))
    ensures Fits(g') && Halved(g, g', leaves', degree, p, q) && Untouched(g, g', leaves, leaves', [p, f])
  {
    LeavesAfterGrow(leaves, leaves', g.nodes[p].kind, p, q);
    assert q !in g.nodes && q != f;
  }

  /** What the split step leaves of the view: the tree stays sound,
      ordered and keeps its contents, `p` is halved into `q`, and every page
      but `p` and `f` is as it was. */
  lemma StepView(g: View, g': View, degree: nat, root: Page, leaves: seq<Page>, leaves': seq<Page>,
                 p: Page, f: Page, ip: int, at: int, q: Page)
    requires Good(g, degree, root, leaves) && q !in g.Repr
    requires StepPre(g.nodes, degree, g.bounds, g.height, root, leaves, p, f, ip)
    requires var np, nf := g.nodes[p], g.nodes[f];
      0 <= Keep(np) < |np.s| && -1 <= at < nf.len && SearchAnswer(nf.s, nf.len, Sep(np), at) &&
      q in g'.nodes && UpperHalf(g'.nodes[q], np, degree) &&
      leaves' == (if np.kind == Leaf then AddAfter(leaves, p, q) else leaves) &&
      g' == View(g.Repr + {q}, g'.owner,
                 g.nodes[p := Node(np.kind, np.s, Keep(np))][q := g'.nodes[q]][f := FatherAfter(nf, at, Sep(np), q)],
                 g.height[q := g.height[p]], SplitBounds(g.bounds, p, q, Sep(np), f))
    ensures Good(g', degree, root, leaves')
    ensures Listed(g.nodes, leaves) && Listed(g'.nodes, leaves') && Items(g'.nodes, leaves') == Items(g.nodes, leaves)
    ensures Halved(g, g', leaves', degree, p, q) && Untouched(g, g', leaves, leaves', [p, f])
  {
    StepFacts(g.nodes, degree, g.bounds, g.height, root, leaves, p, f, ip);
    SplitSlot(g.nodes, degree, g.bounds, g.height, root, leaves, p, f, ip, at);
    StepLeaves(g.nodes, degree, g.bounds, g.height, root, leaves, p, f, ip, q);
    var qn := g'.nodes[q];
    assert g'.nodes == SplitNodes(g.nodes, p, f, ip, q, qn);
    StepShape(g, g', degree, leaves, leaves', p, f, ip, q, qn);
    StepKeeps(g, g', degree, root, leaves, leaves', p, f, ip, q, qn);
  }

  /** Growing the root on the view keeps the tree sound, ordered and its
      contents, changes no page of the tree, and readies the old root, when
      full, for its split step under the new one. */
  lemma GrowKeepsView(g: View, g': View, degree: nat, root: Page, leaves: seq<Page>, r: Page, rs: seq<Slot>)
    requires Good(g, degree, root, leaves) && r !in g.Repr && |rs| == degree + 1 && rs[0] == Slot(0, Child(root))
    requires root in g.nodes && g.nodes[root].len == degree + FirstOf(g.nodes[root].kind) && root in g.height
    requires g' == View(g.Repr + {r}, g'.owner, g.nodes[r := Node(Inter, rs, 1)],
                        g.height[r := g.height[root] + 1], GrowBounds(g.bounds, root, r))
    ensures Good(g', degree, r, leaves) && Untouched(g, g', leaves, leaves, [])
    ensures Listed(g.nodes, leaves) && Listed(g'.nodes, leaves) && Items(g'.nodes, leaves) == Items(g.nodes, leaves)
    ensures StepPre(g'.nodes, degree, g'.bounds, g'.height, r, leaves, root, r, 0)
  {
    GrowRoot(g.nodes, degree, g.bounds, g.height, root, leaves, r, rs);
    GrowStep(g.nodes, degree, g.bounds, g.height, root, leaves, r, rs);
  }

  /** A split of `p` under `f`, after earlier work that left `p` alone,
      adds up to a split of `p` from the start. */
  lemma Compose(g: View, g1: View, g2: View, leaves: seq<Page>, leaves1: seq<Page>, leaves2: seq<Page>,
                degree: nat, t: seq<Page>, t1: seq<Page>, p: Page, f: Page, q: Page)
    requires Fits(g) && Untouched(g, g1, leaves, leaves1, t1) && Untouched(g1, g2, leaves1, leaves2, [p, f])
    requires Halved(g1, g2, leaves2, degree, p, q)
    requires p in g.nodes && p in g.bounds.lo && p in g.bounds.hi && p !in t1
    requires forall x | x in t1 :: x in t
    requires p in t && (f in t || f !in g.Repr)
    ensures Untouched(g, g2, leaves, leaves2, t) && Halved(g, g2, leaves2, degree, p, q)
  {
  }

  /** The view grows by the page `n` and follows the pages `page` and `f`,
      the only old pages that changed. */
  twostate lemma MirrorsSplit(new page: Page, new f: Page, new n: Page, new g: View, new g': View)
    requires old(allocated(g)) && old(Mirrored(g)) && page in g.Repr && f in g.Repr && page != f && fresh(n) && fresh(n.kv)
    requires forall x | x in g.Repr && x != page && x != f :: unchanged(x) && (x.kv != f.kv ==> unchanged(x.kv))
    requires g'.Repr == g.Repr + {n} && g'.owner == g.owner[n.kv := n]
    requires g'.nodes == g.nodes[page := NodeOf(page)][n := NodeOf(n)][f := NodeOf(f)]
    ensures Mirrored(g')
  {
    forall x | x in g'.Repr
      ensures x.kv in g'.owner && g'.owner[x.kv] == x && g'.nodes[x] == NodeOf(x)
    {
      if x != page && x != f && x != n {
        assert x.kv != f.kv by {
          assert g.owner[x.kv] == x && g.owner[f.kv] == f;
        }
      }
    }
  }

  /** The pages the first half of a split at `path[i]` touched lie on the
      path above `path[i]`, and the page taking the new entry is on the
      path up to `path[i]` or new. */
  ghost predicate Below(path: seq<Page>, i: int, t: seq<Page>, f: Page, repr: set<Page>)
    requires 0 <= i < |path|
  {
    path[i] !in t && (forall x | x in t :: x in path[..i + 1]) && (f in path[..i + 1] || f !in repr)
  }

  /** What the first half of a split needs to know of the path before the
      full parent `path[i - 1]` of the full page `path[i]` is split: the
      parent is an internal page whose slot `at[i - 1]` points at
      `path[i]`, and `path[i]` lies below every page before it. */
  lemma FatherFacts(g: View, degree: nat, root: Page, leaves: seq<Page>, path: seq<Page>, at: seq<int>, i: int)
    requires Good(g, degree, root, leaves) && Descent(path, root, g.nodes, g.height) && Linked(g.nodes, path, at)
    requires 0 < i < |path|
    ensures path[i] in g.nodes && path[i] !in path[..i] && path[i - 1] in g.nodes
    ensures var np := g.nodes[path[i - 1]];
      np.kind == Inter && np.len <= degree + 1 <= |np.s| && 0 <= at[i - 1] < np.len && np.s[at[i - 1]].v == Child(path[i])
  {
    PathFacts(g.nodes, degree, g.height, root, leaves, path, at, i);
    assert PageSound(path[i - 1], g.nodes, degree, g.height, root);
  }

  /** After the full parent `p` (node `np` before) of the full page `c`
      was split into itself and `q`, one of the two halves holds `c`'s slot
      and has room: the new half when its first real key is at most the
      separator of `c`, the old one otherwise. */
  lemma FatherSplit(g: View, g': View, degree: nat, root': Page, leaves': seq<Page>, p: Page, q: Page, ip: int, c: Page)
    returns (f: Page, ip': int)
    requires Good(g', degree, root', leaves') && Halved(g, g', leaves', degree, p, q)
    requires var np := g.nodes[p];
      np.kind == Inter && np.len == degree + 1 <= |np.s| && 0 <= ip < np.len && np.s[ip].v == Child(c)
    requires c in g'.nodes && g'.nodes[c].len == degree + FirstOf(g'.nodes[c].kind)
    ensures q in g'.nodes && 2 <= g'.nodes[q].len <= |g'.nodes[q].s| && 0 <= Keep(g'.nodes[c]) < |g'.nodes[c].s|
    ensures f == if KCmp(g'.nodes[q].s[1].k, Sep(g'.nodes[c])) <= 0 then q else p
    ensures StepPre(g'.nodes, degree, g'.bounds, g'.height, root', leaves', c, f, ip')
  {
    f, ip' := ChosenFather(g'.nodes, degree, g'.bounds, g'.height, root', leaves', p, q, g.nodes[p], ip, c);
  }

  /** The two halves of a split add up: the first half changed only pages
      above `path[i]`, the step halved `path[i]`. */
  lemma SplitView(g: View, g1: View, g2: View, degree: nat, root: Page, leaves: seq<Page>, leaves1: seq<Page>,
                  leaves2: seq<Page>, path: seq<Page>, at: seq<int>, i: int, t1: seq<Page>, f: Page, n: Page)
    requires Good(g, degree, root, leaves) && Descent(path, root, g.nodes, g.height) && 0 <= i < |path|
    requires Untouched(g, g1, leaves, leaves1, t1) && Below(path, i, t1, f, g.Repr)
    requires Untouched(g1, g2, leaves1, leaves2, [path[i], f]) && Halved(g1, g2, leaves2, degree, path[i], n)
    ensures Halved(g, g2, leaves2, degree, path[i], n) && Untouched(g, g2, leaves, leaves2, path[..i + 1])
  {
    var p := path[i];
    assert p in g.nodes;
    assert NodeOrdered(p, g.nodes[p], g.bounds, g.height, leaves);
    assert p in path[..i + 1];
    Compose(g, g1, g2, leaves, leaves1, leaves2, degree, path[..i + 1], t1, p, f, n);
  }

  /** The view follows a change to the one page `p`. */
  twostate lemma MirrorsOne(new p: Page, new g: View, new g': View)
    requires old(allocated(g)) && old(Mirrored(g)) && p in g.Repr
    requires forall x | x in g.Repr && x != p :: unchanged(x) && (x.kv != p.kv ==> unchanged(x.kv))
    requires g'.Repr == g.Repr && g'.owner == g.owner && g'.nodes == g.nodes[p := NodeOf(p)]
    ensures Mirrored(g')
  {
    forall x | x in g'.Repr
      ensures x.kv in g'.owner && g'.owner[x.kv] == x && g'.nodes[x] == NodeOf(x)
    {
      if x != p {
        assert g.owner[x.kv] == x && g.owner[p.kv] == p;
      }
    }
  }

  /** The view stays mirrored across a change that leaves every page and
      every entry array alone. */
  twostate lemma MirrorsKept(new g: View)
    requires old(allocated(g)) && old(Mirrored(g))
    requires forall x | x in g.Repr :: unchanged(x) && unchanged(x.kv)
    ensures Mirrored(g)
  {
  }

  /** A leaf with room takes `x` right after the slot the search answered. */
  lemma RoomReady(g: View, degree: nat, root: Page, leaves: seq<Page>, leaf: Page, idx: int, x: Slot)
    requires Good(g, degree, root, leaves) && leaf in g.nodes && g.nodes[leaf].kind == Leaf
    requires Covers(leaf, x.k, g.bounds, g.height, leaves) && x.v.Value?
    requires -1 <= idx < g.nodes[leaf].len <= |g.nodes[leaf].s| && g.nodes[leaf].len < degree
    requires SearchAnswer(g.nodes[leaf].s, g.nodes[leaf].len, x.k, idx)
    requires idx < 0 || g.nodes[leaf].s[idx].k != x.k
    ensures AddPre(g.nodes, degree, g.bounds, g.height, root, leaves, leaf, idx, x)
  {
    assert PageSound(leaf, g.nodes, degree, g.height, root);
  }

  /** The full leaf whose interval holds `k` is sorted and holds no key
      `k`. */
  lemma FullLeaf(g: View, degree: nat, root: Page, leaves: seq<Page>, leaf: Page, k: Key, idx: int)
    requires Good(g, degree, root, leaves) && leaf in g.nodes && g.nodes[leaf].kind == Leaf
    requires g.nodes[leaf].len == degree <= |g.nodes[leaf].s|
    requires -1 <= idx < degree && SearchAnswer(g.nodes[leaf].s, degree, k, idx)
    requires idx < 0 || g.nodes[leaf].s[idx].k != k
    ensures SortedKeys(g.nodes[leaf].s[..degree])
    ensures forall j :: 0 <= j < degree ==> g.nodes[leaf].s[j].k != k
  {
    assert PageSound(leaf, g.nodes, degree, g.height, root);
    assert NodeOrdered(leaf, g.nodes[leaf], g.bounds, g.height, leaves);
    NoKey(g.nodes[leaf], k, idx);
  }

  /** After the full leaf `leaf` was split into itself and `n`, the new
      leaf is not empty, and `x` goes into `n` at its own search answer when
      `n`'s first key is at most `x`'s, and into `leaf` at the old answer
      otherwise (bptree.c:289-295). */
  lemma SplitChoice(g: View, g': View, degree: nat, root: Page, leaves: seq<Page>, root': Page, leaves': seq<Page>,
                    leaf: Page, n: Page, idx: int, x: Slot)
    requires Good(g, degree, root, leaves) && leaf in g.nodes && g.nodes[leaf].kind == Leaf
    requires Covers(leaf, x.k, g.bounds, g.height, leaves) && x.v.Value?
    requires g.nodes[leaf].len == degree <= |g.nodes[leaf].s| && SortedKeys(g.nodes[leaf].s[..degree])
    requires -1 <= idx < degree && SearchAnswer(g.nodes[leaf].s, degree, x.k, idx)
    requires forall j :: 0 <= j < degree ==> g.nodes[leaf].s[j].k != x.k
    requires Good(g', degree, root', leaves') && Halved(g, g', leaves', degree, leaf, n)
    ensures n in g'.nodes && 1 <= g'.nodes[n].len <= |g'.nodes[n].s|
    ensures KCmp(g'.nodes[n].s[0].k, x.k) <= 0 ==>
      forall i | -1 <= i < g'.nodes[n].len && SearchAnswer(g'.nodes[n].s, g'.nodes[n].len, x.k, i) ::
        AddPre(g'.nodes, degree, g'.bounds, g'.height, root', leaves', n, i, x)
    ensures KCmp(g'.nodes[n].s[0].k, x.k) > 0 ==> AddPre(g'.nodes, degree, g'.bounds, g'.height, root', leaves', leaf, idx, x)
  {
    var np := g.nodes[leaf];
    assert PageSound(leaf, g.nodes, degree, g.height, root);
    assert PageSound(n, g'.nodes, degree, g'.height, root');
    assert PageSound(leaf, g'.nodes, degree, g'.height, root');
    LeafChoice(g'.nodes, g'.bounds, g'.height, leaves', leaf, n, np, degree, x.k, idx);
    UpperHalfAt(g'.nodes[n], np, degree);
  }

  /** Putting `x` into a leaf ready for it keeps the tree sound and
      ordered and turns its contents into their sorted insertion of `x`. */
  lemma PlaceView(g: View, g': View, degree: nat, root: Page, leaves: seq<Page>, leaf: Page, idx: int, x: Slot)
    requires degree >= 2 && Fits(g) && AddPre(g.nodes, degree, g.bounds, g.height, root, leaves, leaf, idx, x)
    requires g' == View(g.Repr, g.owner, LeafAdded(g.nodes, leaf, idx, x), g.height, g.bounds)
    ensures Good(g', degree, root, leaves) && Listed(g.nodes, leaves) && Listed(g'.nodes, leaves)
    ensures ValueOf(Items(g.nodes, leaves), x.k).None?
    ensures Items(g'.nodes, leaves) == InsertSorted(Items(g.nodes, leaves), x)
  {
    AddSound(g.nodes, degree, g.bounds, g.height, root, leaves, leaf, idx, x);
    AddOrdered(g.nodes, degree, g.bounds, g.height, root, leaves, leaf, idx, x);
    AddItems(g.nodes, degree, g.bounds, g.height, root, leaves, leaf, idx, x);
  }
}
