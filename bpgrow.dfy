/** The page work of `split` (bptree/bptree.c:230-272): the cascade that
    splits a full page, splitting its full parent first or growing the tree
    by a new root, over the pages themselves.

    The methods here change pages but not the tree object: they take the
    root, the leaf list and the ghost view of the tree as values and hand
    back the new ones, which `bp_insert` stores. The order of the steps
    differs from the source's in one way that does not change the result:
    the parent is split (or the root grown) before the upper half of the
    page is copied. Neither step reads or writes what the other touches, and
    the comparison that picks the parent reads the key that the copy would
    have put at the head of the new page. */
module BPlusGrow {
  import opened Keys
  import opened BPlusPage
  import opened BPlusContents
  import opened BPlusShape
  import opened BPlusSplit
  import opened BPlusInsert
  import opened BPlusView

  /** The split step (bptree.c:231-246, 248, 261): the upper half of the
      full page `page` goes to a fresh page `n`, entered into `f` right
      after the slot `at` that the binary search for the separator answers,
      and a split leaf's new sibling goes onto the leaf list right after
      it. The view follows the pages. */
  method Step(degree: nat, page: Page, f: Page, leaves: seq<Page>, ghost g: View)
    returns (n: Page, ghost at: int, leaves': seq<Page>, ghost g': View)
    requires Mirrored(g) && page in g.Repr && f in g.Repr && page != f && degree >= 2
    requires page in g.height && page in g.bounds.hi
    requires g.nodes[page].len == degree + FirstOf(g.nodes[page].kind) <= |g.nodes[page].s|
    requires 0 < g.nodes[f].len < |g.nodes[f].s| && g.nodes[f].kind == Inter
    modifies page, f, f.kv
    ensures fresh(n) && fresh(n.kv) && n !in g.Repr && Mirrored(g')
    ensures var np, nf := g.nodes[page], g.nodes[f];
      0 <= Keep(np) < |np.s| && -1 <= at < nf.len && SearchAnswer(nf.s, nf.len, Sep(np), at) &&
      n in g'.nodes && UpperHalf(g'.nodes[n], np, degree) &&
      leaves' == (if np.kind == Leaf then AddAfter(leaves, page, n) else leaves) &&
      g' == View(g.Repr + {n}, g.owner[n.kv := n],
                 g.nodes[page := Node(np.kind, np.s, Keep(np))][n := g'.nodes[n]][f := FatherAfter(nf, at, Sep(np), n)],
                 g.height[n := g.height[page]], SplitBounds(g.bounds, page, n, Sep(np), f))
  {
    assert g.nodes[page] == NodeOf(page) && g.nodes[f] == NodeOf(f);
    assert page.kv != f.kv by {
      assert g.owner[page.kv] == page && g.owner[f.kv] == f;
    }
    ghost var np := g.nodes[page];
    n, at := SplitPages(page, f, degree);
    leaves' := if page.kind == Leaf then AddAfter(leaves, page, n) else leaves;
    g' := View(g.Repr + {n}, g.owner[n.kv := n], g.nodes[page := NodeOf(page)][n := NodeOf(n)][f := NodeOf(f)],
               g.height[n := g.height[page]], SplitBounds(g.bounds, page, n, Sep(np), f));
    MirrorsSplit(page, f, n, g, g');
  }

  /** The root split (bptree.c:263-266): a fresh internal page whose
      sentinel slot points at the old root. The split step then enters the
      old root's new sibling into it. */
  method Grow(degree: nat, root: Page, ghost g: View) returns (r: Page, ghost rs: seq<Slot>, ghost g': View)
    requires Mirrored(g) && root in g.Repr && root in g.height
    requires FirstOf(g.nodes[root].kind) < |g.nodes[root].s|
    ensures fresh(r) && fresh(r.kv) && r !in g.Repr
    ensures Mirrored(g') && |rs| == degree + 1 && rs[0] == Slot(0, Child(root))
    ensures g' == View(g.Repr + {r}, g.owner[r.kv := r], g.nodes[r := Node(Inter, rs, 1)],
                       g.height[r := g.height[root] + 1], GrowBounds(g.bounds, root, r))
  {
    assert g.nodes[root] == NodeOf(root);
    r := new Page(Inter, degree);
    ghost var at := r.InsertChild(root);
    rs := r.kv[..];
    g' := View(g.Repr + {r}, g.owner[r.kv := r], g.nodes[r := Node(Inter, rs, 1)],
               g.height[r := g.height[root] + 1], GrowBounds(g.bounds, root, r));
    forall x | x in g'.Repr
      ensures x.kv in g'.owner && g'.owner[x.kv] == x && g'.nodes[x] == NodeOf(x)
    {
      if x != r {
        assert g.owner[x.kv] == x;
      }
    }
  }

  /** The first half of `split` (bptree.c:230-272) for the full page
      `path[i]` of the path `find` took: the page that will take the new
      sibling's entry. At the root that is a fresh root (bptree.c:263-266);
      below it, the parent when it has room, and otherwise the half of the
      parent, split first, that now holds `path[i]`'s slot (bptree.c:253-260).
      The tree stays sound and ordered with the same contents, and only
      pages on `path[..i]` changed. */
  method Father(degree: nat, path: seq<Page>, ghost at: seq<int>, i: int, root: Page, leaves: seq<Page>, ghost g: View)
    returns (f: Page, ghost ip: int, root': Page, leaves': seq<Page>, ghost g': View, ghost t: seq<Page>)
    requires Mirrored(g) && Good(g, degree, root, leaves)
    requires Descent(path, root, g.nodes, g.height) && Linked(g.nodes, path, at) && 0 <= i < |path|
    requires g.nodes[path[i]].len == degree + FirstOf(g.nodes[path[i]].kind)
    modifies g.Repr, Arrays(g.Repr)
    decreases i, 1
    ensures f in g.Repr || (fresh(f) && fresh(f.kv))
    ensures Mirrored(g') && Good(g', degree, root', leaves')
    ensures Listed(g.nodes, leaves) && Listed(g'.nodes, leaves') && Items(g'.nodes, leaves') == Items(g.nodes, leaves)
    ensures StepPre(g'.nodes, degree, g'.bounds, g'.height, root', leaves', path[i], f, ip)
    ensures Untouched(g, g', leaves, leaves', t) && Below(path, i, t, f, g.Repr)
  {
    if path[i] == root {
      f, ip, g' := NewRoot(degree, root, leaves, g);
      root', leaves', t := f, leaves, [];
      assert Below(path, i, t, f, g.Repr);
      return;
    }
    PathFacts(g.nodes, degree, g.height, root, leaves, path, at, i);
    var father := path[i - 1];
    assert NodeOf(father) == g.nodes[father];
    if father.length == degree + 1 {
      f, ip, root', leaves', g' := FullFather(degree, path, at, i, root, leaves, g);
      t := path[..i];
    } else {
      FatherRoom(g.nodes, degree, g.bounds, g.height, root, leaves, path, at, i);
      SoundListed(g.nodes, degree, g.height, root, leaves);
      f, ip, root', leaves', g', t := father, at[i - 1], root, leaves, g, [];
    }
  }

  /** The root split (bptree.c:263-266) as the first half of the split of
      the full root. */
  method NewRoot(degree: nat, root: Page, leaves: seq<Page>, ghost g: View) returns (r: Page, ghost ip: int, ghost g': View)
    requires Mirrored(g) && Good(g, degree, root, leaves)
    requires g.nodes[root].len == degree + FirstOf(g.nodes[root].kind)
    ensures fresh(r) && fresh(r.kv)
    ensures Mirrored(g') && Good(g', degree, r, leaves)
    ensures Listed(g.nodes, leaves) && Listed(g'.nodes, leaves) && Items(g'.nodes, leaves) == Items(g.nodes, leaves)
    ensures StepPre(g'.nodes, degree, g'.bounds, g'.height, r, leaves, root, r, ip)
    ensures Untouched(g, g', leaves, leaves, [])
  {
    assert PageSound(root, g.nodes, degree, g.height, root);
    ghost var rs;
    r, rs, g' := Grow(degree, root, g);
    GrowKeepsView(g, g', degree, root, leaves, r, rs);
    ip := 0;
  }

  /** The full parent `path[i - 1]` is split first (bptree.c:253-260); the
      half now holding `path[i]`'s slot is the new half when its first real
      key is at most the separator of `path[i]`. */
  method FullFather(degree: nat, path: seq<Page>, ghost at: seq<int>, i: int, root: Page, leaves: seq<Page>, ghost g: View)
    returns (f: Page, ghost ip: int, root': Page, leaves': seq<Page>, ghost g': View)
    requires Mirrored(g) && Good(g, degree, root, leaves)
    requires Descent(path, root, g.nodes, g.height) && Linked(g.nodes, path, at) && 0 < i < |path|
    requires g.nodes[path[i]].len == degree + FirstOf(g.nodes[path[i]].kind)
    requires g.nodes[path[i - 1]].kind == Inter && g.nodes[path[i - 1]].len == degree + 1
    modifies g.Repr, Arrays(g.Repr)
    decreases i, 0
    ensures f == path[i - 1] || (fresh(f) && fresh(f.kv))
    ensures Mirrored(g') && Good(g', degree, root', leaves')
    ensures Listed(g.nodes, leaves) && Listed(g'.nodes, leaves') && Items(g'.nodes, leaves') == Items(g.nodes, leaves)
    ensures StepPre(g'.nodes, degree, g'.bounds, g'.height, root', leaves', path[i], f, ip)
    ensures Untouched(g, g', leaves, leaves', path[..i])
  {
    var page, father := path[i], path[i - 1];
    FatherFacts(g, degree, root, leaves, path, at, i);
    var nf;
    nf, root', leaves', g' := Split(degree, path, at, i - 1, root, leaves, g);
    assert g'.nodes[page] == g.nodes[page];
    ghost var fc;
    fc, ip := FatherSplit(g, g', degree, root', leaves', father, nf, at[i - 1], page);
    f := Choose(page, nf, father, g'.nodes[page], g'.nodes[nf]);
  }

  /** The comparison of bptree.c:255-259: the new half `nf` of the split
      parent takes the entry of `page`'s new sibling when its first real
      key is at most the key the sibling starts with, the old half `father`
      otherwise. */
  method Choose(page: Page, nf: Page, father: Page, ghost n: Node, ghost qn: Node) returns (f: Page)
    requires NodeOf(page) == n && NodeOf(nf) == qn && 2 <= qn.len <= |qn.s| && 0 <= Keep(n) < |n.s|
    ensures f == if KCmp(qn.s[1].k, Sep(n)) <= 0 then nf else father
  {
    var first := page.First();
    if KCmp(nf.kv[1].k, page.kv[page.length - (page.length - first) / 2].k) <= 0 {
      f := nf;
    } else {
      f := father;
    }
  }

  /** `split` (bptree.c:230-272) of the full page `path[i]` of the path
      `find` took: it answers the fresh sibling `n` that holds the upper
      half of `path[i]`. The tree stays sound and ordered with the same
      contents, `path[i]` is halved into `n`, and the pages off
      `path[..i + 1]` keep their nodes. */
  method Split(degree: nat, path: seq<Page>, ghost at: seq<int>, i: int, root: Page, leaves: seq<Page>, ghost g: View)
    returns (n: Page, root': Page, leaves': seq<Page>, ghost g': View)
    requires Mirrored(g) && Good(g, degree, root, leaves)
    requires Descent(path, root, g.nodes, g.height) && Linked(g.nodes, path, at) && 0 <= i < |path|
    requires g.nodes[path[i]].len == degree + FirstOf(g.nodes[path[i]].kind)
    modifies g.Repr, Arrays(g.Repr)
    decreases i, 2
    ensures fresh(n) && fresh(n.kv) && n in g'.Repr && n !in g.Repr
    ensures Mirrored(g') && Good(g', degree, root', leaves')
    ensures Listed(g.nodes, leaves) && Listed(g'.nodes, leaves') && Items(g'.nodes, leaves') == Items(g.nodes, leaves)
    ensures Halved(g, g', leaves', degree, path[i], n) && Untouched(g, g', leaves, leaves', path[..i + 1])
  {
    var f, leaves1;
    ghost var ip, g1, t1;
    f, ip, root', leaves1, g1, t1 := Father(degree, path, at, i, root, leaves, g);
    ghost var at';
    n, at', leaves', g' := Step(degree, path[i], f, leaves1, g1);
    StepView(g1, g', degree, root', leaves1, leaves', path[i], f, ip, at', n);
    SplitView(g, g1, g', degree, root, leaves, leaves1, leaves', path, at, i, t1, f, n);
  }

  /** The leaf choice after a leaf split (bptree.c:289-295): the entry for
      `k` goes into the new leaf `n`, at the answer of a search there, when
      `n`'s first key is at most `k`, and stays at `idx` in `leaf`
      otherwise. */
  method PickLeaf(leaf: Page, n: Page, k: Key, idx: int) returns (leaf': Page, idx': int)
    requires 1 <= n.length <= n.kv.Length
    ensures KCmp(n.kv[0].k, k) <= 0 ==>
      leaf' == n && -1 <= idx' < n.length && SearchAnswer(n.kv[..], n.length, k, idx')
    ensures KCmp(n.kv[0].k, k) > 0 ==> leaf' == leaf && idx' == idx
  {
    leaf', idx' := leaf, idx;
    if KCmp(n.kv[0].k, k) <= 0 {
      leaf' := n;
      idx' := n.Search(k);
    }
  }

  /** Shifting the used slots after `idx` up by one and writing `x` right
      after `idx` (bptree.c:298-304): the view's node for `leaf` becomes the
      sorted insertion, nothing else changes. */
  method Place(leaf: Page, idx: int, x: Slot, ghost g: View) returns (ghost g': View)
    requires Mirrored(g) && leaf in g.Repr && -1 <= idx < g.nodes[leaf].len < |g.nodes[leaf].s|
    modifies leaf, leaf.kv
    ensures Mirrored(g') && g' == View(g.Repr, g.owner, LeafAdded(g.nodes, leaf, idx, x), g.height, g.bounds)
  {
    assert NodeOf(leaf) == g.nodes[leaf];
    leaf.InsertAt(idx, x);
    g' := View(g.Repr, g.owner, LeafAdded(g.nodes, leaf, idx, x), g.height, g.bounds);
    MirrorsOne(leaf, g, g');
  }

  /** Making room for `x` in its leaf (bptree.c:288-296): a full leaf
      is split first, growing the tree as far up as needed, and the half
      whose interval holds `x`'s key is chosen; `i` is then the search
      answer for the key in the chosen leaf. */
  method Room(degree: nat, path: seq<Page>, ghost at: seq<int>, idx: int, x: Slot,
              root: Page, leaves: seq<Page>, ghost g: View)
    returns (leaf: Page, i: int, root': Page, leaves': seq<Page>, ghost g': View)
    requires Mirrored(g) && Good(g, degree, root, leaves)
    requires Descent(path, root, g.nodes, g.height) && Linked(g.nodes, path, at)
    requires g.nodes[path[|path| - 1]].kind == Leaf && x.v.Value?
    requires Covers(path[|path| - 1], x.k, g.bounds, g.height, leaves)
    requires -1 <= idx < g.nodes[path[|path| - 1]].len <= |g.nodes[path[|path| - 1]].s|
    requires SearchAnswer(g.nodes[path[|path| - 1]].s, g.nodes[path[|path| - 1]].len, x.k, idx)
    requires idx < 0 || g.nodes[path[|path| - 1]].s[idx].k != x.k
    modifies g.Repr, Arrays(g.Repr)
    ensures Mirrored(g') && Fits(g') && g.Repr <= g'.Repr && leaf in g'.Repr
    ensures leaf in g.Repr || (fresh(leaf) && fresh(leaf.kv))
    ensures AddPre(g'.nodes, degree, g'.bounds, g'.height, root', leaves', leaf, i, x)
    ensures Listed(g.nodes, leaves) && Listed(g'.nodes, leaves') && Items(g'.nodes, leaves') == Items(g.nodes, leaves)
  {
    leaf := path[|path| - 1];
    assert NodeOf(leaf) == g.nodes[leaf];
    assert PageSound(leaf, g.nodes, degree, g.height, root);
    if leaf.length < degree {
      RoomReady(g, degree, root, leaves, leaf, idx, x);
      SoundListed(g.nodes, degree, g.height, root, leaves);
      return leaf, idx, root, leaves, g;
    }
    FullLeaf(g, degree, root, leaves, leaf, x.k, idx);
    var n;
    n, root', leaves', g' := Split(degree, path, at, |path| - 1, root, leaves, g);
    SplitChoice(g, g', degree, root, leaves, root', leaves', leaf, n, idx, x);
    assert NodeOf(n) == g'.nodes[n];
    leaf, i := PickLeaf(leaf, n, x.k, idx);
  }

  /** `bp_insert` from the leaf on (bptree.c:288-305), for a key the leaf
      does not hold: room is made and the entry put in place. The tree
      stays sound and ordered, and its contents become the sorted insertion
      of `x`. */
  method AddEntry(degree: nat, path: seq<Page>, ghost at: seq<int>, idx: int, x: Slot,
             root: Page, leaves: seq<Page>, ghost g: View)
    returns (root': Page, leaves': seq<Page>, ghost g': View)
    requires Mirrored(g) && Good(g, degree, root, leaves)
    requires Descent(path, root, g.nodes, g.height) && Linked(g.nodes, path, at)
    requires g.nodes[path[|path| - 1]].kind == Leaf && x.v.Value?
    requires Covers(path[|path| - 1], x.k, g.bounds, g.height, leaves)
    requires -1 <= idx < g.nodes[path[|path| - 1]].len <= |g.nodes[path[|path| - 1]].s|
    requires SearchAnswer(g.nodes[path[|path| - 1]].s, g.nodes[path[|path| - 1]].len, x.k, idx)
    requires idx < 0 || g.nodes[path[|path| - 1]].s[idx].k != x.k
    modifies g.Repr, Arrays(g.Repr)
    ensures Mirrored(g') && Good(g', degree, root', leaves') && g.Repr <= g'.Repr
    ensures Listed(g.nodes, leaves) && Listed(g'.nodes, leaves')
    ensures ValueOf(Items(g.nodes, leaves), x.k).None?
    ensures Items(g'.nodes, leaves') == InsertSorted(Items(g.nodes, leaves), x)
  {
    var leaf, i;
    ghost var g1;
    leaf, i, root', leaves', g1 := Room(degree, path, at, idx, x, root, leaves, g);
    g' := Place(leaf, i, x, g1);
    PlaceView(g1, g', degree, root', leaves', leaf, i, x);
  }
}
