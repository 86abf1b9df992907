/** The B+-tree of bptree/bptree.c, run by one thread: its latches and the
    lock trace are left out, and the pages `find` passes through are kept as
    a path from the root down instead.

    Every operation needs and keeps only the structural invariant `Valid`.
    Each operation's correctness is stated for trees that also satisfy the
    search-tree invariant `Ordered`: lookups and range scans then answer
    from the tree's contents, and inserts keep `Ordered` while changing the
    contents exactly as sorted insertion does. Where the source would read
    or write through a pointer that is not there (index -1, a slot that was
    never written), the model stops and answers `-EFAULT`; those places are
    proved unreachable from ordered trees. */
module BPlusTree {
  import opened Keys
  import opened BPlusPage
  import opened BPlusContents
  import opened BPlusShape
  import opened BPlusSplit
  import opened BPlusInsert
  import opened BPlusView
  import opened BPlusGrow
  import opened BPlusRange
  import opened BPlusMerge
  import opened BPlusRemove

  const ENOENT: int := 2
  const EEXIST: int := 17
  /** The model's answer where the source dereferences a pointer that is
      not there. */
  const EFAULT: int := 14

  /** `find` (bptree.c:190-204): the descent from the root to a leaf,
      taking at each internal page the slot `binary_search_in_page`
      answers. It records the pages passed (`path`) and, as ghost, the
      slot taken in each (`at`); `idx` is the search answer in the leaf.
      `ok` is false where the source would follow slot -1 or a slot that
      was never written; in an ordered tree that does not happen, and the
      leaf reached is the one on the leaf list whose interval holds
      `k`. */
  method Find(degree: nat, root: Page, leaves: seq<Page>, ghost g: View, k: Key)
    returns (ok: bool, path: seq<Page>, ghost at: seq<int>, idx: int)
    requires Mirrored(g) && TreeSound(g.nodes, degree, g.height, root, leaves)
    ensures ok ==> Descent(path, root, g.nodes, g.height) && path[|path| - 1].kind == Leaf
    ensures ok ==> -1 <= idx < path[|path| - 1].length <= path[|path| - 1].kv.Length
    ensures ok ==> SearchAnswer(path[|path| - 1].kv[..], path[|path| - 1].length, k, idx)
    ensures TreeOrdered(g.nodes, g.bounds, g.height, root, leaves) ==>
      ok && Linked(g.nodes, path, at) && Covers(path[|path| - 1], k, g.bounds, g.height, leaves) &&
      path[|path| - 1] in leaves
  {
    ghost var ord := TreeOrdered(g.nodes, g.bounds, g.height, root, leaves);
    var page := root;
    path := [root];
    at := [];
    assert PageSound(root, g.nodes, degree, g.height, root);
    while true
      invariant Descent(path, root, g.nodes, g.height) && page == path[|path| - 1]
      invariant ord ==> Linked(g.nodes, path, at) && Covers(page, k, g.bounds, g.height, leaves)
      decreases g.height[page]
    {
      assert PageSound(page, g.nodes, degree, g.height, root);
      idx := page.Search(k);
      if page.kind == Leaf {
        return true, path, at, idx;
      }
      DescendStep(g.nodes, degree, g.bounds, g.height, root, leaves, path, at, k, ord, idx);
      if idx < 0 || !page.kv[idx].v.Child? {
        return false, path, at, idx;
      }
      var c := page.kv[idx].v.page;
      at := at + [idx];
      path := path + [c];
      page := c;
    }
  }

  /** `bp_insert` (bptree.c:274-308) on the tree with root `root`, leaf
      list `leaves` and view `g`, sound and ordered: -EEXIST and no change
      when the contents hold `x`'s key; otherwise 0, and the contents become
      their sorted insertion of `x`. The tree stays sound and ordered. The
      source reads slot -1 of the leaf when the key is below all its keys;
      the model takes that as no match. */
  method Put(degree: nat, root: Page, leaves: seq<Page>, ghost g: View, x: Slot)
    returns (r: int, root': Page, leaves': seq<Page>, ghost g': View)
    requires Mirrored(g) && Good(g, degree, root, leaves) && x.v.Value?
    modifies g.Repr, Arrays(g.Repr)
    ensures Mirrored(g') && Good(g', degree, root', leaves') && g.Repr <= g'.Repr
    ensures Listed(g.nodes, leaves) && Listed(g'.nodes, leaves')
    ensures r == 0 || r == -EEXIST
    ensures r == -EEXIST <==> ValueOf(Items(g.nodes, leaves), x.k).Some?
    ensures r == -EEXIST ==> g' == g && root' == root && leaves' == leaves
    ensures r == 0 ==> Items(g'.nodes, leaves') == InsertSorted(Items(g.nodes, leaves), x)
  {
    var ok, path, at, idx := Find(degree, root, leaves, g, x.k);
    var leaf := path[|path| - 1];
    assert NodeOf(leaf) == g.nodes[leaf];
    LeafLookup(g.nodes, degree, g.bounds, g.height, root, leaves, leaf, x.k, idx);
    if idx >= 0 && KCmp(leaf.kv[idx].k, x.k) == 0 {
      return -EEXIST, root, leaves, g;
    }
    r := 0;
    root', leaves', g' := AddEntry(degree, path, at, idx, x, root, leaves, g);
  }

  /** `bp_remove` (bptree.c:430-459) on the sound tree with root `root`,
      leaf list `leaves` and view `g`: -ENOENT and no change when the root
      has no used slot or the leaf `find` reaches holds no entry with key
      `k`; otherwise the entry goes, a leaf left below half full is merged
      (`Merge`), and the answer is 0. The tree stays sound. In an ordered
      tree the answer is 0 exactly when the contents hold `k`, and the
      contents lose that entry. Where the search answer in the leaf is -1
      the source reads slot -1; the model takes that as no match. */
  method Delete(degree: nat, root: Page, leaves: seq<Page>, ghost g: View, k: Key)
    returns (r: int, leaves': seq<Page>, ghost g': View)
    requires Sound(g, degree, root, leaves)
    modifies g.Repr, Arrays(g.Repr)
    ensures Sound(g', degree, root, leaves') && g'.Repr == g.Repr
    ensures r == 0 || r == -ENOENT || r == -EFAULT
    ensures r != 0 ==> g' == g && leaves' == leaves
    ensures TreeOrdered(g.nodes, g.bounds, g.height, root, leaves) ==>
      r != -EFAULT && (r == 0 <==> ValueOf(Items(g.nodes, leaves), k).Some?) &&
      Items(g'.nodes, leaves') == RemoveKey(Items(g.nodes, leaves), k)
  {
    ghost var ord := TreeOrdered(g.nodes, g.bounds, g.height, root, leaves);
    assert PageSound(root, g.nodes, degree, g.height, root);
    assert NodeOf(root) == g.nodes[root];
    if root.length == 0 {
      if ord {
        EmptyRoot(g.nodes, degree, g.bounds, g.height, root, leaves, k);
        RemoveKeyAbsent(Items(g.nodes, leaves), k);
      }
      return -ENOENT, leaves, g;
    }
    var ok, path, at, idx := Find(degree, root, leaves, g, k);
    if !ok {
      return -EFAULT, leaves, g;
    }
    var leaf := path[|path| - 1];
    assert NodeOf(leaf) == g.nodes[leaf];
    if ord {
      LeafLookup(g.nodes, degree, g.bounds, g.height, root, leaves, leaf, k, idx);
    }
    if idx < 0 || KCmp(leaf.kv[idx].k, k) < 0 {
      if ord {
        RemoveKeyAbsent(Items(g.nodes, leaves), k);
      }
      return -ENOENT, leaves, g;
    }
    r := 0;
    leaves', g' := Erase(degree, path, at, idx, root, leaves, g, k, ord);
  }

  /** The removal of slot `idx` from the leaf `find` reached, the last page
      of `path` (bptree.c:447-455): the later slots move down, and a leaf
      left below half full is merged. The tree stays sound; in an ordered
      tree whose path was found by the slots `at`, where the slot's key is
      not below `k`, the slot holds `k` and the contents lose it, and when
      no merge follows the tree stays ordered. */
  method Erase(degree: nat, path: seq<Page>, ghost at: seq<int>, idx: int, root: Page, leaves: seq<Page>,
               ghost g: View, ghost k: Key, ghost ord: bool)
    returns (leaves': seq<Page>, ghost g': View)
    requires Sound(g, degree, root, leaves) && Descent(path, root, g.nodes, g.height)
    requires g.nodes[path[|path| - 1]].kind == Leaf
    requires 0 <= idx < g.nodes[path[|path| - 1]].len <= |g.nodes[path[|path| - 1]].s|
    requires SearchAnswer(g.nodes[path[|path| - 1]].s, g.nodes[path[|path| - 1]].len, k, idx)
    requires k <= g.nodes[path[|path| - 1]].s[idx].k
    requires ord ==> (TreeOrdered(g.nodes, g.bounds, g.height, root, leaves) && Linked(g.nodes, path, at) &&
                      path[|path| - 1] in leaves)
    modifies g.Repr, Arrays(g.Repr)
    ensures Sound(g', degree, root, leaves') && g'.Repr == g.Repr
    ensures ord ==> (g.nodes[path[|path| - 1]].s[idx].k == k &&
                     Items(g'.nodes, leaves') == RemoveKey(Items(g.nodes, leaves), k))
    ensures ord && g.nodes[path[|path| - 1]].len > (degree - 1) / 2 + 1 ==>
      leaves' == leaves && TreeOrdered(g'.nodes, g'.bounds, g'.height, root, leaves')
  {
    var leaf := path[|path| - 1];
    Removal(g.nodes, degree, g.bounds, g.height, root, leaves, path, at, idx, k, ord);
    ghost var g1 := Shift(leaf, idx, g);
    assert NodeOf(leaf) == g1.nodes[leaf];
    if leaf.length < (degree - 1) / 2 + 1 {
      leaves', g' := Merge(degree, path, at, |path| - 1, root, leaves, g1);
    } else {
      leaves', g' := leaves, g1;
    }
  }

  /** Removing slot `idx` of the last page of a descent, a leaf, keeps the
      tree sound and the descent one; in an ordered tree whose path was
      found by the slots `at`, where the slot holds `k`, it keeps the tree
      ordered and the path linked and takes `k` out of the contents. */
  lemma Removal(nodes: map<Page, Node>, degree: nat, b: Bounds, height: map<Page, nat>, root: Page,
                leaves: seq<Page>, path: seq<Page>, at: seq<int>, idx: int, k: Key, ord: bool)
    requires TreeSound(nodes, degree, height, root, leaves) && Descent(path, root, nodes, height)
    requires nodes[path[|path| - 1]].kind == Leaf
    requires 0 <= idx < nodes[path[|path| - 1]].len <= |nodes[path[|path| - 1]].s|
    requires SearchAnswer(nodes[path[|path| - 1]].s, nodes[path[|path| - 1]].len, k, idx)
    requires k <= nodes[path[|path| - 1]].s[idx].k
    requires ord ==> (TreeOrdered(nodes, b, height, root, leaves) && Linked(nodes, path, at) &&
                      path[|path| - 1] in leaves)
    ensures var leaf := path[|path| - 1];
      var nodes' := nodes[leaf := Cut(nodes[leaf], idx)];
      TreeSound(nodes', degree, height, root, leaves) && Descent(path, root, nodes', height) &&
      Listed(nodes, leaves) && Listed(nodes', leaves) && (ord ==> nodes[leaf].s[idx].k == k) &&
      (ord ==> TreeOrdered(nodes', b, height, root, leaves) && Linked(nodes', path, at) &&
               Items(nodes', leaves) == RemoveKey(Items(nodes, leaves), k))
  {
    var leaf := path[|path| - 1];
    var nodes' := nodes[leaf := Cut(nodes[leaf], idx)];
    CutTree(nodes, degree, height, root, leaves, leaf, idx);
    SoundListed(nodes, degree, height, root, leaves);
    SoundListed(nodes', degree, height, root, leaves);
    if ord {
      assert NodeOrdered(leaf, nodes[leaf], b, height, leaves);
      CutOrdered(nodes, degree, b, height, root, leaves, leaf, idx);
      CutItems(nodes, degree, b, height, root, leaves, leaf, idx);
      PathFacts(nodes, degree, height, root, leaves, path, at, |path| - 1);
      LinkedOff(nodes, path, at, leaf, Cut(nodes[leaf], idx));
    }
  }

  /** A structurally sound tree: degree at least 2, the view fits its
      pages and mirrors them, every page is sound and the leaf list is made
      of distinct leaves. */
  ghost predicate Sound(g: View, degree: nat, root: Page, leaves: seq<Page>)
    reads g.Repr, Arrays(g.Repr)
  {
    degree >= 2 && Fits(g) && Mirrored(g) &&
    TreeSound(g.nodes, degree, g.height, root, leaves) && Listed(g.nodes, leaves)
  }

  /** A sound tree that is also a search tree. */
  ghost predicate Healthy(g: View, degree: nat, root: Page, leaves: seq<Page>)
    reads g.Repr, Arrays(g.Repr)
  {
    Sound(g, degree, root, leaves) && TreeOrdered(g.nodes, g.bounds, g.height, root, leaves)
  }

  /** `struct bp`: the degree, the root page and the leaf list. The ghost
      view `g` holds every page ever allocated (freed pages stay in it,
      unreachable), what each page holds, each page's level above the
      leaves, and the key intervals and parents of an ordered tree. */
  class Tree {
    const degree: nat
    var root: Page
    var leaves: seq<Page>
    ghost var g: View

    /** The structural invariant. */
    ghost predicate Valid()
      reads this, g.Repr, Arrays(g.Repr)
    {
      Sound(g, degree, root, leaves)
    }

    /** The search-tree invariant. */
    ghost predicate Ordered()
      reads this, g.Repr, Arrays(g.Repr)
    {
      Healthy(g, degree, root, leaves)
    }

    /** The tree's contents: the used slots of the leaves in list order. */
    ghost function Contents(): seq<Slot>
      reads this
      requires Listed(g.nodes, leaves)
    {
      Items(g.nodes, leaves)
    }

    /** `bp_create` (bptree.c:44-55): a tree whose root is an empty leaf,
        the only page on the leaf list. */
    constructor Create(degree: nat)
      requires degree >= 2
      ensures Ordered() && this.degree == degree && fresh(g.Repr)
      ensures root.kind == Leaf && leaves == [root] && Contents() == []
    {
      this.degree := degree;
      var r := new Page(Leaf, degree);
      root := r;
      leaves := [r];
      var n := Node(Leaf, r.kv[..], 0);
      g := View({r}, map[r.kv := r], map[r := n], map[r := 0], Bounds(map[r := 0], map[r := U64_LIMIT], map[]));
      new;
      OneLeaf(r, n, degree);
    }

    /** `bp_lookup` (bptree.c:310-330). In an ordered tree it answers 0 and
        the stored value exactly when the contents hold `k`, and -ENOENT
        otherwise. */
    method Lookup(k: Key) returns (r: int, v: Word)
      requires Valid()
      ensures r == 0 || r == -ENOENT || r == -EFAULT
      ensures old(Ordered()) ==> r != -EFAULT
      ensures old(Ordered()) ==> (r == 0 <==> old(ValueOf(Contents(), k)).Some?)
      ensures old(Ordered()) && r == 0 ==> old(ValueOf(Contents(), k)) == Some(v)
    {
      ghost var ord := TreeOrdered(g.nodes, g.bounds, g.height, root, leaves);
      v := 0;
      if root.length == 0 {
        if ord {
          EmptyRoot(g.nodes, degree, g.bounds, g.height, root, leaves, k);
        }
        return -ENOENT, 0;
      }
      var ok, path, at, idx := Find(degree, root, leaves, g, k);
      if !ok {
        return -EFAULT, 0;
      }
      var leaf := path[|path| - 1];
      if ord {
        LeafLookup(g.nodes, degree, g.bounds, g.height, root, leaves, leaf, k, idx);
      }
      if idx >= 0 && KCmp(leaf.kv[idx].k, k) == 0 {
        v := Val(leaf.kv[idx]);
        return 0, v;
      }
      return -ENOENT, 0;
    }

    /** `bp_range` (bptree.c:461-497): the words stored from key `k` on,
        in leaf-list order, at most `len` of them when `len` is not 0; the
        count the source returns is `|out|`. In an ordered tree they are
        the first `len` words of the contents from `k` on. */
    method Range(k: Key, len: nat) returns (out: seq<Word>)
      requires Valid()
      ensures len > 0 ==> |out| <= len
      ensures Ordered() ==> out == Capped(Vals(AtOrAbove(Contents(), k)), len)
    {
      if TreeOrdered(g.nodes, g.bounds, g.height, root, leaves) {
        OrderedLeavesSorted(g.nodes, g.bounds, g.height, root, leaves);
      }
      out := Scan(leaves, g, k, len);
    }

    /** `bp_insert` (bptree.c:274-308) on an ordered tree: -EEXIST and no
        change at all (same root, leaf list and pages) when the contents
        hold `k`; otherwise 0, and the contents
        become their sorted insertion of `(k, v)`. The tree stays
        ordered. */
    method Insert(k: Key, v: Word) returns (r: int)
      requires Ordered()
      modifies this, g.Repr, Arrays(g.Repr)
      ensures Ordered() && old(g.Repr) <= g.Repr
      ensures r == 0 || r == -EEXIST
      ensures r == -EEXIST <==> old(ValueOf(Contents(), k)).Some?
      ensures r == -EEXIST ==> Contents() == old(Contents())
      ensures r == -EEXIST ==> root == old(root) && leaves == old(leaves) && g == old(g)
      ensures r == 0 ==> Contents() == InsertSorted(old(Contents()), Slot(k, Value(v)))
    {
      var root', leaves';
      ghost var g';
      r, root', leaves', g' := Put(degree, root, leaves, g, Slot(k, Value(v)));
      Store(root', leaves', g');
    }

    /** `bp_remove` (bptree.c:430-459): -ENOENT and no change at all
        (same root, leaf list and pages, so an ordered tree stays ordered)
        when the leaf `find` reaches holds no entry with key `k`; otherwise 0, the
        entry goes and pages left below half full are merged. The tree
        stays sound. In an ordered tree the answer is 0 exactly when the
        contents hold `k`, and the contents lose that entry. */
    method Remove(k: Key) returns (r: int)
      requires Valid()
      modifies this, g.Repr, Arrays(g.Repr)
      ensures Valid() && g.Repr == old(g.Repr)
      ensures r == 0 || r == -ENOENT || r == -EFAULT
      ensures r != 0 ==> Contents() == old(Contents())
      ensures r != 0 ==> root == old(root) && leaves == old(leaves) && g == old(g)
      ensures r != 0 && old(Ordered()) ==> Ordered()
      ensures old(Ordered()) ==> r != -EFAULT && (r == 0 <==> old(ValueOf(Contents(), k)).Some?)
      ensures old(Ordered()) ==> Contents() == RemoveKey(old(Contents()), k)
    {
      var leaves';
      ghost var g';
      r, leaves', g' := Delete(degree, root, leaves, g, k);
      Store(root, leaves', g');
    }

    /** Points the tree at the root and leaf list an operation produced
        (the assignments to `bp->root` and the list head). */
    method Store(root': Page, leaves': seq<Page>, ghost g': View)
      requires Sound(g', degree, root', leaves')
      modifies this
      ensures Valid() && g.Repr == g'.Repr
      ensures root == root' && leaves == leaves' && g == g'
      ensures Contents() == Items(g'.nodes, leaves')
      ensures TreeOrdered(g'.nodes, g'.bounds, g'.height, root', leaves') ==> Ordered()
    {
      root, leaves, g := root', leaves', g';
      MirrorsKept(g');
    }
  }
}
