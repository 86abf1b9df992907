/** The page work of `merge` (bptree/bptree.c:332-428): after a removal
    leaves a page below half full, the page takes in its right sibling or
    borrows the sibling's first entry, or, with no right sibling and no
    entries left, is unlinked from its parent; a parent left below half full
    is treated the same way, up to the root.

    As in the split cascade, the methods take the root, the leaf list and
    the ghost view as values and hand back the new ones. They keep the
    structural invariant and the contents of the leaf list. The search-tree
    invariant `TreeOrdered` is not carried through them: it does not record
    that slot 0 of a page made by `split` was never written, so it cannot
    tell that a merge or borrow, which skips the sibling's slot 0
    (bptree.c:380-384, 406), loses no child. */
module BPlusRemove {
  import opened Keys
  import opened BPlusPage
  import opened BPlusContents
  import opened BPlusShape
  import opened BPlusSplit
  import opened BPlusInsert
  import opened BPlusView
  import opened BPlusMerge

  /** The shift loops of `bp_remove` (bptree.c:447-451) and `merge`
      (bptree.c:388-392, 405-409) on page `p`. */
  method Shift(p: Page, idx: int, ghost g: View) returns (ghost g': View)
    requires Mirrored(g) && p in g.Repr && 0 <= idx < g.nodes[p].len <= |g.nodes[p].s|
    modifies p, p.kv
    ensures Mirrored(g') && g' == g.(nodes := g.nodes[p := Cut(g.nodes[p], idx)])
  {
    assert NodeOf(p) == g.nodes[p];
    p.RemoveAt(idx);
    g' := g.(nodes := g.nodes[p := NodeOf(p)]);
    MirrorsOne(p, g, g');
  }

  /** The copy of a full merge (bptree.c:380-385): `p` takes the used
      slots of its sibling `q` from `first` on. */
  method Absorb(p: Page, q: Page, first: int, ghost g: View) returns (ghost g': View)
    requires Mirrored(g) && p in g.Repr && q in g.Repr && p != q
    requires 0 <= first <= g.nodes[q].len <= |g.nodes[q].s| && 0 <= g.nodes[p].len
    requires g.nodes[p].len + g.nodes[q].len - first <= |g.nodes[p].s|
    modifies p, p.kv
    ensures Mirrored(g') && g' == g.(nodes := g.nodes[p := Absorbed(g.nodes[p], g.nodes[q], first)])
  {
    assert NodeOf(p) == g.nodes[p] && NodeOf(q) == g.nodes[q];
    assert p.kv != q.kv by {
      assert g.owner[p.kv] == p && g.owner[q.kv] == q;
    }
    p.AppendFrom(q, first);
    g' := g.(nodes := g.nodes[p := NodeOf(p)]);
    MirrorsOne(p, g, g');
  }

  /** The first half of a borrow (bptree.c:404, 408): `p` takes slot
      `first` of its sibling `q` as its new last slot. */
  method Take(p: Page, q: Page, first: int, ghost g: View) returns (ghost g': View)
    requires Mirrored(g) && p in g.Repr && q in g.Repr
    requires 0 <= first < |g.nodes[q].s| && 0 <= g.nodes[p].len < |g.nodes[p].s|
    modifies p, p.kv
    ensures Mirrored(g') && g' == g.(nodes := g.nodes[p := Pushed(g.nodes[p], g.nodes[q].s[first])])
  {
    assert NodeOf(p) == g.nodes[p] && NodeOf(q) == g.nodes[q];
    p.Push(q.kv[first]);
    g' := g.(nodes := g.nodes[p := NodeOf(p)]);
    MirrorsOne(p, g, g');
  }

  /** The new separator of a borrow (bptree.c:415): slot `idx` of `f`
      takes key `key`. */
  method RekeyAt(f: Page, idx: int, key: Key, ghost g: View) returns (ghost g': View)
    requires Mirrored(g) && f in g.Repr && 0 <= idx < |g.nodes[f].s|
    modifies f.kv
    ensures Mirrored(g') && g' == g.(nodes := g.nodes[f := Rekeyed(g.nodes[f], idx, key)])
  {
    assert NodeOf(f) == g.nodes[f];
    f.Rekey(idx, key);
    g' := g.(nodes := g.nodes[f := NodeOf(f)]);
    MirrorsOne(f, g, g');
  }

  /** The removal of the last used slot of `f` (bptree.c:353-356, where
      the shift loop never runs). */
  method Shorten(f: Page, ghost g: View) returns (ghost g': View)
    requires Mirrored(g) && f in g.Repr && 0 < g.nodes[f].len <= |g.nodes[f].s|
    modifies f
    ensures Mirrored(g') && g' == g.(nodes := g.nodes[f := Cut(g.nodes[f], g.nodes[f].len - 1)])
  {
    assert NodeOf(f) == g.nodes[f];
    ShortenCut(g.nodes[f]);
    f.length := f.length - 1;
    g' := g.(nodes := g.nodes[f := NodeOf(f)]);
    MirrorsOne(f, g, g');
  }

  /** An empty root becomes a leaf (bptree.c:335-338). */
  method Retype(r: Page, ghost g: View) returns (ghost g': View)
    requires Mirrored(g) && r in g.Repr
    modifies r
    ensures Mirrored(g')
    ensures g' == g.(nodes := g.nodes[r := Node(Leaf, g.nodes[r].s, g.nodes[r].len)], height := g.height[r := 0])
  {
    assert NodeOf(r) == g.nodes[r];
    r.kind := Leaf;
    g' := g.(nodes := g.nodes[r := NodeOf(r)], height := g.height[r := 0]);
    MirrorsOne(r, g, g');
  }

  /** The root step of `merge` (bptree.c:335-340) as evidently intended:
      an internal root that has lost its last child becomes a leaf and,
      like the first root `bp_create` makes (bptree.c:52), goes on the
      leaf list; any other root is left alone. It keeps the root on the
      list whenever the root is a leaf, which the step as written breaks
      (`RetypedRootOffList`), and keeps the contents. */
  method RootStep(degree: nat, root: Page, leaves: seq<Page>, ghost g: View)
    returns (leaves': seq<Page>, ghost g': View)
    requires Mirrored(g) && Firm(g, degree, root, leaves) && root in g.Repr
    modifies root
    ensures Mirrored(g') && Firm(g', degree, root, leaves') && g'.Repr == g.Repr
    ensures g.nodes[root].kind == Inter && g.nodes[root].len == 0 ==>
      g'.nodes[root].kind == Leaf && root !in leaves && leaves' == [root] + leaves
    ensures !(g.nodes[root].kind == Inter && g.nodes[root].len == 0) ==> g' == g && leaves' == leaves
    ensures RootListed(g'.nodes, root, leaves')
      || (g.nodes[root].kind == Leaf && !RootListed(g.nodes, root, leaves))
    ensures Listed(g.nodes, leaves) && Listed(g'.nodes, leaves') && Items(g'.nodes, leaves') == Items(g.nodes, leaves)
  {
    SoundListed(g.nodes, degree, g.height, root, leaves);
    leaves', g' := leaves, g;
    if root.kind == Inter && root.length == 0 {
      assert NodeOf(root) == g.nodes[root];
      g' := Retype(root, g);
      RetypedRootOffList(g.nodes, degree, g.height, root, leaves, g.bounds, g'.nodes[root]);
      RetypeTree(g.nodes, degree, g.height, root, leaves);
      PrependRoot(g'.nodes, degree, g'.height, root, leaves);
      leaves' := [root] + leaves;
      assert Used(g'.nodes[root]) == [] by {
        assert PageSound(root, g.nodes, degree, g.height, root);
      }
      RootSeen(g'.nodes, root, leaves, g'.nodes[root]);
      assert g'.nodes[root := g'.nodes[root]] == g'.nodes;
    } else {
      assert NodeOf(root) == g.nodes[root];
    }
  }

  /** A full merge keeps the tree sound and the contents of the leaf list
      the same: between internal pages no leaf changes, and between
      neighbouring leaves `page` and `sib` (at `a` and `a + 1`) the
      sibling's entries follow the page's and the sibling leaves the list. */
  lemma FoldKeeps(nodes: map<Page, Node>, nodes1: map<Page, Node>, nodes': map<Page, Node>, degree: nat, height: map<Page, nat>,
                  root: Page, leaves: seq<Page>, page: Page, sib: Page, fa: Page, idx: int, a: int)
    requires TreeSound(nodes, degree, height, root, leaves)
    requires page in nodes && sib in nodes && fa in nodes && page != sib
    requires page in height && sib in height && fa in height
    requires height[page] == height[sib] && height[fa] == height[page] + 1
    requires FirstOf(nodes[page].kind) <= nodes[sib].len <= |nodes[sib].s| && 0 <= nodes[page].len
    requires nodes[page].len + nodes[sib].len - FirstOf(nodes[page].kind) <= degree <= |nodes[page].s|
    requires 0 <= idx < nodes[fa].len <= |nodes[fa].s|
    requires nodes1 == nodes[page := Absorbed(nodes[page], nodes[sib], FirstOf(nodes[page].kind))]
    requires nodes' == nodes1[fa := Cut(nodes1[fa], idx)]
    requires a >= 0 ==> a + 1 < |leaves| && leaves[a] == page && leaves[a + 1] == sib
    ensures nodes[sib].kind == nodes[page].kind && nodes[fa].kind == Inter
    ensures var leaves' := if nodes[sib].kind == Leaf then Without(leaves, sib) else leaves;
      TreeSound(nodes', degree, height, root, leaves') && Listed(nodes, leaves) && Listed(nodes', leaves') &&
      (height[page] > 0 || a >= 0 ==> Items(nodes', leaves') == Items(nodes, leaves))
  {
    assert PageSound(page, nodes, degree, height, root) && PageSound(sib, nodes, degree, height, root);
    assert PageSound(fa, nodes, degree, height, root);
    var first := FirstOf(nodes[page].kind);
    AbsorbTree(nodes, degree, height, root, leaves, page, sib, first);
    CutTree(nodes1, degree, height, root, leaves, fa, idx);
    SoundListed(nodes, degree, height, root, leaves);
    SoundListed(nodes', degree, height, root, leaves);
    if nodes[sib].kind == Leaf {
      WithoutSound(nodes', degree, height, root, leaves, sib);
      SoundListed(nodes', degree, height, root, Without(leaves, sib));
      if a >= 0 {
        FoldLeafItems(nodes, nodes', leaves, page, sib, a);
      }
    } else {
      InnerOff(nodes, nodes', degree, height, root, leaves);
    }
  }

  /** Between neighbouring leaves `page` and `sib` at `a` and `a + 1` of a
      list of distinct pages, a full merge keeps the contents. */
  lemma FoldLeafItems(nodes: map<Page, Node>, nodes': map<Page, Node>, leaves: seq<Page>,
                      page: Page, sib: Page, a: int)
    requires Listed(nodes, leaves) && forall i, j | 0 <= i < j < |leaves| :: leaves[i] != leaves[j]
    requires 0 <= a && a + 1 < |leaves| && leaves[a] == page && leaves[a + 1] == sib
    requires nodes[page].len + nodes[sib].len <= |nodes[page].s|
    requires forall i | 0 <= i < |leaves| && i != a && i != a + 1 ::
      leaves[i] in nodes' && nodes'[leaves[i]] == nodes[leaves[i]]
    requires page in nodes' && nodes'[page] == Absorbed(nodes[page], nodes[sib], 0)
    ensures Listed(nodes', Without(leaves, sib)) && Items(nodes', Without(leaves, sib)) == Items(nodes, leaves)
  {
    AbsorbedUsed(nodes[page], nodes[sib], 0);
    assert nodes[sib].s[0..nodes[sib].len] == Used(nodes[sib]);
    DistinctAt(leaves, a + 1);
    WithoutAt(leaves, sib, a + 1);
    AbsorbItems(nodes, nodes', leaves, a);
  }

  /** A borrow keeps the tree sound and the contents of the leaf list the
      same: between internal pages no leaf changes, and between
      neighbouring leaves `page` and `sib` (at `a` and `a + 1`) the entry
      moves from the head of the one to the end of the other. */
  lemma LendKeeps(nodes: map<Page, Node>, nodes1: map<Page, Node>, nodes': map<Page, Node>, degree: nat, height: map<Page, nat>,
                  root: Page, leaves: seq<Page>, page: Page, sib: Page, a: int)
    requires TreeSound(nodes, degree, height, root, leaves)
    requires page in nodes && sib in nodes && page != sib
    requires page in height && sib in height && height[page] == height[sib]
    requires Underfull(nodes[page].kind, nodes[page].len, degree)
    requires nodes[page].len + nodes[sib].len - FirstOf(nodes[page].kind) > degree
    requires var first := FirstOf(nodes[page].kind);
      0 <= first < nodes[sib].len <= |nodes[sib].s| && 0 <= nodes[page].len < |nodes[page].s| &&
      nodes1 == nodes[page := Pushed(nodes[page], nodes[sib].s[first])] &&
      nodes' == nodes1[sib := Cut(nodes1[sib], first)]
    requires a >= 0 ==> a + 1 < |leaves| && leaves[a] == page && leaves[a + 1] == sib
    ensures TreeSound(nodes', degree, height, root, leaves) && Listed(nodes, leaves) && Listed(nodes', leaves)
    ensures height[page] > 0 || a >= 0 ==> Items(nodes', leaves) == Items(nodes, leaves)
  {
    assert PageSound(page, nodes, degree, height, root) && PageSound(sib, nodes, degree, height, root);
    var first := FirstOf(nodes[page].kind);
    UnderfullRoom(nodes[page].kind, nodes[page].len, degree);
    PushTree(nodes, degree, height, root, leaves, page, sib, first);
    CutTree(nodes1, degree, height, root, leaves, sib, first);
    SoundListed(nodes, degree, height, root, leaves);
    SoundListed(nodes', degree, height, root, leaves);
    if a >= 0 {
      BorrowUsed(nodes[page], nodes[sib], 0);
      BorrowItems(nodes, nodes', leaves, a, nodes[sib].s[0]);
    } else if height[page] > 0 {
      InnerOff(nodes, nodes', degree, height, root, leaves);
    }
  }

  /** Rewriting a key in an internal page keeps the tree sound and the
      contents of the leaf list the same. */
  lemma RekeyKeeps(nodes: map<Page, Node>, degree: nat, height: map<Page, nat>,
                   root: Page, leaves: seq<Page>, f: Page, idx: int, key: Key)
    requires TreeSound(nodes, degree, height, root, leaves)
    requires f in nodes && nodes[f].kind == Inter && 0 <= idx < |nodes[f].s|
    ensures var nodes' := nodes[f := Rekeyed(nodes[f], idx, key)];
      TreeSound(nodes', degree, height, root, leaves) && Listed(nodes, leaves) && Listed(nodes', leaves) &&
      Items(nodes', leaves) == Items(nodes, leaves)
  {
    RekeyTree(nodes, degree, height, root, leaves, f, idx, key);
    InnerOff(nodes, nodes[f := Rekeyed(nodes[f], idx, key)], degree, height, root, leaves);
  }

  /** A full merge (bptree.c:374-399): `page` takes in its right sibling
      `sib`, whose slot in the parent `fa` goes, and a leaf sibling leaves
      the leaf list. The slot is found by searching `fa` for the sibling's
      first key before the copy rather than after it; the copy changes
      neither. When that search answers -1, where the source would shift
      from slot -1, nothing changes. `up` tells whether `fa` is left below
      half full (bptree.c:422). When `a` is not negative, the leaf list
      holds `page` at `a` and `sib` right after it. */
  method Fold(degree: nat, page: Page, sib: Page, fa: Page, root: Page, leaves: seq<Page>,
              ghost g: View, ghost a: int)
    returns (up: bool, leaves': seq<Page>, ghost g': View)
    requires Mirrored(g) && Firm(g, degree, root, leaves)
    requires page in g.Repr && sib in g.Repr && fa in g.Repr && page != sib
    requires page in g.height && sib in g.height && fa in g.height
    requires g.height[page] == g.height[sib] && g.height[fa] == g.height[page] + 1
    requires FirstOf(g.nodes[page].kind) <= g.nodes[sib].len
    requires g.nodes[page].len + g.nodes[sib].len - FirstOf(g.nodes[page].kind) <= degree
    requires a >= 0 ==> a + 1 < |leaves| && leaves[a] == page && leaves[a + 1] == sib
    modifies page, page.kv, fa, fa.kv
    ensures Mirrored(g') && Firm(g', degree, root, leaves') && Same(g, g')
    ensures up ==> Underfull(g'.nodes[fa].kind, g'.nodes[fa].len, degree)
    ensures Listed(g.nodes, leaves) && Listed(g'.nodes, leaves')
    ensures g.height[page] > 0 || a >= 0 ==> Items(g'.nodes, leaves') == Items(g.nodes, leaves)
  {
    SoundListed(g.nodes, degree, g.height, root, leaves);
    assert PageSound(page, g.nodes, degree, g.height, root) && PageSound(fa, g.nodes, degree, g.height, root);
    assert PageSound(sib, g.nodes, degree, g.height, root);
    assert NodeOf(page) == g.nodes[page] && NodeOf(sib) == g.nodes[sib] && NodeOf(fa) == g.nodes[fa];
    var first := page.First();
    var idx := fa.Search(sib.kv[first].k);
    if idx < 0 {
      return false, leaves, g;
    }
    assert g.nodes[fa].kind == Inter && fa != page;
    leaves' := if sib.kind == Leaf then Without(leaves, sib) else leaves;
    ghost var g1 := Absorb(page, sib, first, g);
    assert g1.nodes[fa] == g.nodes[fa];
    g' := Shift(fa, idx, g1);
    FoldKeeps(g.nodes, g1.nodes, g'.nodes, degree, g.height, root, leaves, page, sib, fa, idx, a);
    assert NodeOf(fa) == g'.nodes[fa] && g'.nodes[fa].kind == Inter;
    up := Underfull(Inter, fa.length, degree);
  }

  /** A borrow (bptree.c:400-418): `page` takes the first entry of its
      right sibling `sib`, and the parent `fa` takes the sibling's new
      first key. When `a` is not negative, the leaf list holds `page` at
      `a` and `sib` right after it. */
  method Lend(degree: nat, page: Page, sib: Page, fa: Page, root: Page, leaves: seq<Page>,
              ghost g: View, ghost a: int)
    returns (ghost g': View)
    requires Mirrored(g) && Firm(g, degree, root, leaves)
    requires page in g.Repr && sib in g.Repr && fa in g.Repr && page != sib
    requires page in g.height && sib in g.height && fa in g.height
    requires g.height[page] == g.height[sib] && g.height[fa] == g.height[page] + 1
    requires Underfull(g.nodes[page].kind, g.nodes[page].len, degree)
    requires g.nodes[page].len + g.nodes[sib].len - FirstOf(g.nodes[page].kind) > degree
    requires a >= 0 ==> a + 1 < |leaves| && leaves[a] == page && leaves[a + 1] == sib
    modifies page, page.kv, sib, sib.kv, fa.kv
    ensures Mirrored(g') && Firm(g', degree, root, leaves) && Same(g, g')
    ensures Listed(g.nodes, leaves) && Listed(g'.nodes, leaves)
    ensures g.height[page] > 0 || a >= 0 ==> Items(g'.nodes, leaves) == Items(g.nodes, leaves)
  {
    assert PageSound(page, g.nodes, degree, g.height, root) && PageSound(sib, g.nodes, degree, g.height, root);
    assert PageSound(fa, g.nodes, degree, g.height, root);
    assert NodeOf(page) == g.nodes[page] && NodeOf(sib) == g.nodes[sib];
    UnderfullRoom(g.nodes[page].kind, g.nodes[page].len, degree);
    var first := page.First();
    ghost var g1 := Take(page, sib, first, g);
    ghost var g2 := Shift(sib, first, g1);
    LendKeeps(g.nodes, g1.nodes, g2.nodes, degree, g.height, root, leaves, page, sib, a);
    g' := Resep(degree, sib, fa, first, root, leaves, g2);
  }

  /** The new separator of a borrow (bptree.c:414-415): the slot of `fa`
      that the search for the first key of `sib` answers takes that key.
      When the search answers -1, where the source would write slot -1,
      nothing changes. */
  method Resep(degree: nat, sib: Page, fa: Page, first: int, root: Page, leaves: seq<Page>, ghost g: View)
    returns (ghost g': View)
    requires Mirrored(g) && Firm(g, degree, root, leaves) && sib in g.Repr && fa in g.Repr
    requires fa in g.height && g.height[fa] > 0 && 0 <= first < |g.nodes[sib].s|
    modifies fa.kv
    ensures Mirrored(g') && Firm(g', degree, root, leaves) && Same(g, g')
    ensures Listed(g.nodes, leaves) && Listed(g'.nodes, leaves) && Items(g'.nodes, leaves) == Items(g.nodes, leaves)
  {
    SoundListed(g.nodes, degree, g.height, root, leaves);
    assert PageSound(fa, g.nodes, degree, g.height, root);
    assert NodeOf(fa) == g.nodes[fa] && NodeOf(sib) == g.nodes[sib];
    g' := g;
    var idx := fa.Search(sib.kv[first].k);
    if idx >= 0 {
      var key := sib.kv[first].k;
      g' := RekeyAt(fa, idx, key, g);
      RekeyKeeps(g.nodes, degree, g.height, root, leaves, fa, idx, key);
    }
  }

  /** The unlink of an empty page with no right sibling (bptree.c:352-369):
      the last used slot of its parent `fa` goes, and an empty leaf leaves
      the leaf list. `up` tells whether `fa` is left below half full
      (bptree.c:422). */
  method Unlink(degree: nat, page: Page, fa: Page, root: Page, leaves: seq<Page>, ghost g: View)
    returns (up: bool, leaves': seq<Page>, ghost g': View)
    requires Mirrored(g) && Firm(g, degree, root, leaves)
    requires page in g.Repr && fa in g.Repr && page != fa && g.nodes[fa].kind == Inter
    requires g.nodes[page].len == 0 && 0 < g.nodes[fa].len
    modifies fa
    ensures Mirrored(g') && Firm(g', degree, root, leaves') && Same(g, g')
    ensures up ==> Underfull(g'.nodes[fa].kind, g'.nodes[fa].len, degree)
    ensures Listed(g.nodes, leaves) && Listed(g'.nodes, leaves')
    ensures Items(g'.nodes, leaves') == Items(g.nodes, leaves)
  {
    assert PageSound(fa, g.nodes, degree, g.height, root) && PageSound(page, g.nodes, degree, g.height, root);
    assert NodeOf(page) == g.nodes[page] && NodeOf(fa) == g.nodes[fa];
    g' := Shorten(fa, g);
    CutTree(g.nodes, degree, g.height, root, leaves, fa, g.nodes[fa].len - 1);
    InnerOff(g.nodes, g'.nodes, degree, g.height, root, leaves);
    leaves' := leaves;
    if page.kind == Leaf {
      leaves' := Without(leaves, page);
      WithoutSound(g'.nodes, degree, g.height, root, leaves, page);
      ItemsWithoutEmpty(g'.nodes, leaves, page);
    }
    up := Underfull(Inter, fa.length, degree);
  }

  /** Where the path to the leaf `path[i]` of an ordered tree was found by
      the slots `at`, the parent's slot `idx + 1` after the page's holds
      the page that follows it on the leaf list, at `a + 1`; `a` is -1
      when this is not known. */
  lemma SiblingOnList(nodes: map<Page, Node>, degree: nat, b: Bounds, height: map<Page, nat>, root: Page,
                      leaves: seq<Page>, path: seq<Page>, at: seq<int>, i: int, idx: int) returns (a: int)
    requires TreeSound(nodes, degree, height, root, leaves) && Descent(path, root, nodes, height) && 0 < i < |path|
    requires height[path[i - 1]] == height[path[i]] + 1 && 1 <= |nodes[path[i]].s|
    requires -1 <= idx && idx + 1 < nodes[path[i - 1]].len <= |nodes[path[i - 1]].s|
    requires height[path[i]] == 0 ==> SearchAnswer(nodes[path[i - 1]].s, nodes[path[i - 1]].len, nodes[path[i]].s[0].k, idx)
    ensures a >= 0 ==> a + 1 < |leaves| && leaves[a] == path[i] && nodes[path[i - 1]].s[idx + 1].v == Child(leaves[a + 1])
    ensures height[path[i]] == 0 && TreeOrdered(nodes, b, height, root, leaves) && Linked(nodes, path, at) ==> a >= 0
  {
    a := -1;
    var page, fa := path[i], path[i - 1];
    if height[page] == 0 && TreeOrdered(nodes, b, height, root, leaves) && Linked(nodes, path, at) {
      assert PageSound(page, nodes, degree, height, root) && PageSound(fa, nodes, degree, height, root);
      assert nodes[fa].s[at[i - 1]].v == Child(page);
      a := LeafSibling(nodes, degree, b, height, root, leaves, fa, at[i - 1], page, idx);
      assert nodes[fa].s[idx + 1].v == Child(leaves[a + 1]);
    }
  }

  /** One level of `merge` (bptree.c:342-424) for the page `path[i]` below
      the root, which is below half full, under its parent `path[i - 1]`.
      The sibling is the child in the parent's slot after the one the
      search for the page's first key answers. Nothing changes when that
      slot holds no child or the page itself, when the sibling has fewer
      used slots than the sentinel (the source would count a negative
      length), or when there is no sibling and the parent has no used slot
      (it would count -1). `up` tells whether the parent is left below half
      full. The contents of the leaf list stay the same; at the leaf level
      this takes an ordered tree and the slots `at` the path was found by. */
  method Level(degree: nat, path: seq<Page>, ghost at: seq<int>, i: int, root: Page, leaves: seq<Page>, ghost g: View)
    returns (up: bool, leaves': seq<Page>, ghost g': View)
    requires Mirrored(g) && Firm(g, degree, root, leaves)
    requires Descent(path, root, g.nodes, g.height) && 0 < i < |path|
    requires Underfull(g.nodes[path[i]].kind, g.nodes[path[i]].len, degree)
    modifies g.Repr, Arrays(g.Repr)
    ensures Mirrored(g') && Firm(g', degree, root, leaves') && Same(g, g')
    ensures up ==> Underfull(g'.nodes[path[i - 1]].kind, g'.nodes[path[i - 1]].len, degree)
    ensures Listed(g.nodes, leaves) && Listed(g'.nodes, leaves')
    ensures g.height[path[i]] > 0 || (TreeOrdered(g.nodes, g.bounds, g.height, root, leaves) && Linked(g.nodes, path, at)) ==>
      Items(g'.nodes, leaves') == Items(g.nodes, leaves)
  {
    SoundListed(g.nodes, degree, g.height, root, leaves);
    var page, fa := path[i], path[i - 1];
    HeightsFall(path, root, g.nodes, g.height, i);
    HeightsFall(path, root, g.nodes, g.height, i - 1);
    assert PageSound(page, g.nodes, degree, g.height, root) && PageSound(fa, g.nodes, degree, g.height, root);
    assert NodeOf(page) == g.nodes[page] && NodeOf(fa) == g.nodes[fa];
    var first := page.First();
    var idx := fa.Search(page.kv[first].k);
    if idx + 1 < fa.length {
      ghost var a := SiblingOnList(g.nodes, degree, g.bounds, g.height, root, leaves, path, at, i, idx);
      up, leaves', g' := Right(degree, page, fa, idx, root, leaves, g, a);
    } else if page.length == 0 && fa.length > 0 {
      up, leaves', g' := Unlink(degree, page, fa, root, leaves, g);
    } else {
      return false, leaves, g;
    }
  }

  /** The case of `merge` where the parent `fa` has a slot after the
      page's slot `idx` (bptree.c:348-352, 375-419): the child there is the
      right sibling, which the page takes in or borrows from. Nothing
      changes when that slot holds no child or the page itself, or a
      sibling with fewer used slots than the sentinel. */
  method Right(degree: nat, page: Page, fa: Page, idx: int, root: Page, leaves: seq<Page>,
               ghost g: View, ghost a: int)
    returns (up: bool, leaves': seq<Page>, ghost g': View)
    requires Mirrored(g) && Firm(g, degree, root, leaves)
    requires page in g.Repr && fa in g.Repr && page in g.height && fa in g.height
    requires g.height[fa] == g.height[page] + 1 && g.nodes[fa].kind == Inter
    requires -1 <= idx && idx + 1 < g.nodes[fa].len <= |g.nodes[fa].s|
    requires Underfull(g.nodes[page].kind, g.nodes[page].len, degree)
    requires a >= 0 ==> a + 1 < |leaves| && leaves[a] == page && g.nodes[fa].s[idx + 1].v == Child(leaves[a + 1])
    modifies g.Repr, Arrays(g.Repr)
    ensures Mirrored(g') && Firm(g', degree, root, leaves') && Same(g, g')
    ensures up ==> Underfull(g'.nodes[fa].kind, g'.nodes[fa].len, degree)
    ensures Listed(g.nodes, leaves) && Listed(g'.nodes, leaves')
    ensures g.height[page] > 0 || a >= 0 ==> Items(g'.nodes, leaves') == Items(g.nodes, leaves)
  {
    SoundListed(g.nodes, degree, g.height, root, leaves);
    assert NodeOf(page) == g.nodes[page] && NodeOf(fa) == g.nodes[fa];
    var v := fa.kv[idx + 1].v;
    if !v.Child? || v.page == page || v.page.length < page.First() {
      return false, leaves, g;
    }
    var sib := v.page;
    assert PageSound(fa, g.nodes, degree, g.height, root);
    assert ChildSound(sib, g.height[fa], g.nodes, g.height, root);
    assert NodeOf(sib) == g.nodes[sib];
    up, leaves', g' := Pair(degree, page, sib, fa, root, leaves, g, a);
  }

  /** The choice of `merge` (bptree.c:374, 400) between folding the right
      sibling into the page, when both fit one page, and borrowing its
      first entry otherwise. */
  method Pair(degree: nat, page: Page, sib: Page, fa: Page, root: Page, leaves: seq<Page>,
              ghost g: View, ghost a: int)
    returns (up: bool, leaves': seq<Page>, ghost g': View)
    requires Mirrored(g) && Firm(g, degree, root, leaves)
    requires page in g.Repr && sib in g.Repr && fa in g.Repr && page != sib
    requires page in g.height && sib in g.height && fa in g.height
    requires g.height[page] == g.height[sib] && g.height[fa] == g.height[page] + 1
    requires FirstOf(g.nodes[page].kind) <= g.nodes[sib].len
    requires Underfull(g.nodes[page].kind, g.nodes[page].len, degree)
    requires a >= 0 ==> a + 1 < |leaves| && leaves[a] == page && leaves[a + 1] == sib
    modifies page, page.kv, sib, sib.kv, fa, fa.kv
    ensures Mirrored(g') && Firm(g', degree, root, leaves') && Same(g, g')
    ensures up ==> Underfull(g'.nodes[fa].kind, g'.nodes[fa].len, degree)
    ensures Listed(g.nodes, leaves) && Listed(g'.nodes, leaves')
    ensures g.height[page] > 0 || a >= 0 ==> Items(g'.nodes, leaves') == Items(g.nodes, leaves)
  {
    assert NodeOf(page) == g.nodes[page] && NodeOf(sib) == g.nodes[sib];
    if page.length + sib.length - page.First() <= degree {
      up, leaves', g' := Fold(degree, page, sib, fa, root, leaves, g, a);
    } else {
      g' := Lend(degree, page, sib, fa, root, leaves, g, a);
      up, leaves' := false, leaves;
    }
  }

  /** `merge` (bptree.c:332-428) from the page `path[i]` up: the root,
      once it has no used slot left, becomes a leaf; a page below it is
      merged at its level and, while that leaves the parent below half
      full, the parent in turn. The tree stays sound and the contents of
      the leaf list stay the same; from the leaf level this takes an ordered
      tree and the slots `at` the path was found by. */
  method Merge(degree: nat, path: seq<Page>, ghost at: seq<int>, i: int, root: Page, leaves: seq<Page>, ghost g: View)
    returns (leaves': seq<Page>, ghost g': View)
    requires Mirrored(g) && Firm(g, degree, root, leaves)
    requires Descent(path, root, g.nodes, g.height) && 0 <= i < |path|
    requires Underfull(g.nodes[path[i]].kind, g.nodes[path[i]].len, degree)
    modifies g.Repr, Arrays(g.Repr)
    ensures Mirrored(g') && Firm(g', degree, root, leaves') && g'.Repr == g.Repr
    ensures Listed(g.nodes, leaves) && Listed(g'.nodes, leaves')
    ensures g.height[path[i]] > 0 || (TreeOrdered(g.nodes, g.bounds, g.height, root, leaves) && Linked(g.nodes, path, at)) ==>
      Items(g'.nodes, leaves') == Items(g.nodes, leaves)
    decreases i
  {
    SoundListed(g.nodes, degree, g.height, root, leaves);
    var page := path[i];
    if page == root {
      leaves', g' := leaves, g;
      if page.length == 0 {
        g' := Retype(root, g);
        RetypeTree(g.nodes, degree, g.height, root, leaves);
        InnerOff(g.nodes, g'.nodes, degree, g.height, root, leaves);
        SoundListed(g'.nodes, degree, g'.height, root, leaves);
      }
      return;
    }
    var up;
    up, leaves', g' := Level(degree, path, at, i, root, leaves, g);
    if up {
      ghost var g1 := g';
      HeightsFall(path, root, g.nodes, g.height, i - 1);
      leaves', g' := Merge(degree, path, at, i - 1, root, leaves', g1);
    }
  }
}
