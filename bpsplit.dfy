/** What `split` (bptree.c:230-272) does to the tree, stated on values: a
    full page `p` gives the upper half of its entries to a fresh page `q`,
    and `p`'s parent `f` takes `q` right after `p` (`page_insert`,
    bptree.c:206-228). When `p` is the root, a fresh internal root holding
    only `p` is put above it first (bptree.c:264-268), and the same step
    follows. Both keep the tree sound and ordered and leave its contents
    alone. */
module BPlusSplit {
  import opened Keys
  import opened BPlusPage
  import opened BPlusContents
  import opened BPlusShape

  /** The first slot holding a real key in a page of this type. */
  function FirstOf(kind: Kind): int
  {
    if kind == Inter then 1 else 0
  }

  /** How many used slots the split page keeps. */
  function Keep(n: Node): int
  {
    n.len - MovedCount(n.len, FirstOf(n.kind))
  }

  /** The key at which a full page is split: the first key moved to the
      fresh page, which becomes that page's lower end. */
  function Sep(n: Node): Key
    requires 0 <= Keep(n) < |n.s|
  {
    n.s[Keep(n)].k
  }

  /** `list_add(&new_page->list, &page->list)` (bptree.c:248): `q` goes
      right after the first occurrence of `p`; a list without `p` is left
      alone. */
  function AddAfter(ls: seq<Page>, p: Page, q: Page): (r: seq<Page>)
    ensures p !in ls ==> r == ls
    ensures p in ls ==> |r| == |ls| + 1
  {
    if ls == [] then []
    else if ls[0] == p then [p, q] + ls[1..]
    else [ls[0]] + AddAfter(ls[1..], p, q)
  }

  /** In a list of distinct pages, `AddAfter` splices `q` in right after
      the position `a` of `p`. */
  lemma {:induction false} AddAfterAt(ls: seq<Page>, p: Page, q: Page, a: int)
    requires 0 <= a < |ls| && ls[a] == p
    requires forall i, j | 0 <= i < j < |ls| :: ls[i] != ls[j]
    ensures AddAfter(ls, p, q) == ls[..a + 1] + [q] + ls[a + 1..]
  {
    if a > 0 {
      assert ls[0] != p by {
        assert ls[0] != ls[a];
      }
      assert ls[1..][a - 1] == p;
      AddAfterAt(ls[1..], p, q, a - 1);
      assert ls[1..][..a] == ls[1..a + 1];
      assert ls[..a + 1] == [ls[0]] + ls[1..a + 1];
      assert ls[1..][a..] == ls[a + 1..];
    }
  }

  /** The bounds after the split of `p` at `sep` into `p` and `q`, with
      `q` under `f`: `p` now ends at `sep`, `q` owns the rest of `p`'s old
      interval, and the children of `p` from `sep` on now hang under
      `q`. */
  ghost function SplitBounds(b: Bounds, p: Page, q: Page, sep: int, f: Page): Bounds
    requires p in b.hi
  {
    Bounds(b.lo[q := sep], b.hi[p := sep][q := b.hi[p]],
           (map c | c in b.parent :: if b.parent[c] == p && c in b.lo && sep <= b.lo[c] then q else b.parent[c])[q := f])
  }

  /** The state a split step starts from: a sound, ordered tree and a full
      page `p` in slot `ip` of its parent `f`, which has room for one more
      entry. */
  ghost predicate StepPre(nodes: map<Page, Node>, degree: nat, b: Bounds, height: map<Page, nat>,
                          root: Page, leaves: seq<Page>, p: Page, f: Page, ip: int)
  {
    degree >= 2 &&
    TreeSound(nodes, degree, height, root, leaves) && TreeOrdered(nodes, b, height, root, leaves) &&
    p in nodes && p in b.hi && p in height && f in nodes && f in b.lo && f in b.hi && nodes[f].kind == Inter &&
    0 <= ip < nodes[f].len < |nodes[f].s| && nodes[f].s[ip].v == Child(p) &&
    nodes[p].len == degree + FirstOf(nodes[p].kind) <= |nodes[p].s| && nodes[f].len <= degree
  }

  /** The split step with `q` as the page new to the tree. */
  ghost predicate SplitPre(nodes: map<Page, Node>, degree: nat, b: Bounds, height: map<Page, nat>,
                           root: Page, leaves: seq<Page>, p: Page, f: Page, ip: int, q: Page)
  {
    StepPre(nodes, degree, b, height, root, leaves, p, f, ip) &&
    q !in nodes && q !in b.lo && q !in b.hi && q !in b.parent && q !in height
  }

  /** What the split step starts from, spelled out: `p` sits one level
      below `f` and owns exactly the interval of slot `ip`; it keeps at
      least one entry (two for an internal page) and moves at least one;
      `sep` lies strictly inside its interval. */
  lemma StepFacts(nodes: map<Page, Node>, degree: nat, b: Bounds, height: map<Page, nat>,
                  root: Page, leaves: seq<Page>, p: Page, f: Page, ip: int)
    requires StepPre(nodes, degree, b, height, root, leaves, p, f, ip)
    ensures p in height && f in height && height[p] + 1 == height[f] && p != f && p != root
    ensures PageSound(p, nodes, degree, height, root) && PageSound(f, nodes, degree, height, root)
    ensures NodeOrdered(p, nodes[p], b, height, leaves) && NodeOrdered(f, nodes[f], b, height, leaves)
    ensures ChildAt(p, SlotLo(nodes[f].s, ip, b.lo[f]), SlotHi(nodes[f].s, nodes[f].len, ip, b.hi[f]), f, b, height, leaves)
    ensures var n := nodes[p];
      1 <= MovedCount(n.len, FirstOf(n.kind)) && 1 + FirstOf(n.kind) <= Keep(n) < n.len <= |n.s| &&
      b.lo[p] < Sep(n) < b.hi[p] && 0 < Sep(n)
  {
    assert PageSound(f, nodes, degree, height, root);
    assert ChildSound(p, height[f], nodes, height, root);
    assert PageSound(p, nodes, degree, height, root);
    assert NodeOrdered(f, nodes[f], b, height, leaves);
    assert NodeOrdered(p, nodes[p], b, height, leaves);
    assert SlotOk(f, nodes[f].s, nodes[f].len, ip, b, height, leaves);
    var n := nodes[p];
    var keep := Keep(n);
    assert n.s[..n.len][keep] == n.s[keep];
    assert n.s[..n.len][0].k < n.s[..n.len][keep].k;
    if n.kind == Leaf {
      assert LeafKeysOk(n.s, n.len, b.lo[p], b.hi[p]);
      assert n.s[..n.len][0] == n.s[0];
    } else {
      assert n.s[..n.len][1] == n.s[1];
    }
  }

  /** The same with `q` the page new to the tree. */
  lemma SplitFacts(nodes: map<Page, Node>, degree: nat, b: Bounds, height: map<Page, nat>,
                   root: Page, leaves: seq<Page>, p: Page, f: Page, ip: int, q: Page)
    requires SplitPre(nodes, degree, b, height, root, leaves, p, f, ip, q)
    ensures p in height && f in height && height[p] + 1 == height[f] && p != f && p != root && q != p && q != f
    ensures PageSound(p, nodes, degree, height, root) && PageSound(f, nodes, degree, height, root)
    ensures NodeOrdered(p, nodes[p], b, height, leaves) && NodeOrdered(f, nodes[f], b, height, leaves)
    ensures ChildAt(p, SlotLo(nodes[f].s, ip, b.lo[f]), SlotHi(nodes[f].s, nodes[f].len, ip, b.hi[f]), f, b, height, leaves)
    ensures var n := nodes[p];
      1 <= MovedCount(n.len, FirstOf(n.kind)) && 1 + FirstOf(n.kind) <= Keep(n) < n.len <= |n.s| &&
      b.lo[p] < Sep(n) < b.hi[p] && 0 < Sep(n)
  {
    StepFacts(nodes, degree, b, height, root, leaves, p, f, ip);
  }

  /** A child `c` of `p` below `sep` keeps its interval, its parent and its
      level through the split. */
  lemma ChildStays(b: Bounds, height: map<Page, nat>, leaves: seq<Page>, leaves': seq<Page>,
                   p: Page, q: Page, sep: int, f: Page, c: Page, l: int, h: int)
    requires p in b.hi && p in height && ChildAt(c, l, h, p, b, height, leaves) && c != p && c != q && l < sep
    requires forall x | x in leaves :: x in leaves'
    ensures ChildAt(c, l, h, p, SplitBounds(b, p, q, sep, f), height[q := height[p]], leaves')
  {
  }

  /** A child `c` of a page `x` other than `p` keeps its interval, its
      parent and its level through the split. */
  lemma ChildElsewhere(b: Bounds, height: map<Page, nat>, leaves: seq<Page>, leaves': seq<Page>,
                       p: Page, q: Page, sep: int, f: Page, x: Page, c: Page, l: int, h: int)
    requires p in b.hi && p in height && ChildAt(c, l, h, x, b, height, leaves) && c != p && c != q && x != p
    requires forall y | y in leaves :: y in leaves'
    ensures ChildAt(c, l, h, x, SplitBounds(b, p, q, sep, f), height[q := height[p]], leaves')
  {
  }

  /** A child `c` of `p` from `sep` on keeps its interval and its level
      through the split and now hangs under `q`. */
  lemma ChildMoves(b: Bounds, height: map<Page, nat>, leaves: seq<Page>, leaves': seq<Page>,
                   p: Page, q: Page, sep: int, f: Page, c: Page, l: int, h: int)
    requires p in b.hi && p in height && ChildAt(c, l, h, p, b, height, leaves) && c != p && c != q && sep <= l
    requires forall x | x in leaves :: x in leaves'
    ensures ChildAt(c, l, h, q, SplitBounds(b, p, q, sep, f), height[q := height[p]], leaves')
  {
  }

  /** The split page keeps its entries below `sep`, ordered inside its
      shrunk interval [lo, sep). */
  lemma SplitKeepsP(nodes: map<Page, Node>, degree: nat, b: Bounds, height: map<Page, nat>,
                    root: Page, leaves: seq<Page>, p: Page, f: Page, ip: int, q: Page, leaves': seq<Page>)
    requires SplitPre(nodes, degree, b, height, root, leaves, p, f, ip, q)
    requires forall x | x in leaves :: x in leaves'
    ensures NodeOrdered(p, Node(nodes[p].kind, nodes[p].s, Keep(nodes[p])),
                        SplitBounds(b, p, q, Sep(nodes[p]), f), height[q := height[p]], leaves')
  {
    SplitFacts(nodes, degree, b, height, root, leaves, p, f, ip, q);
    var n := nodes[p];
    var keep, sep := Keep(n), Sep(n);
    var b', h' := SplitBounds(b, p, q, sep, f), height[q := height[p]];
    var pn := Node(n.kind, n.s, keep);
    assert n.s[..keep] == n.s[..n.len][..keep];
    assert forall j :: 0 <= j < keep ==> n.s[j].k < sep by {
      forall j | 0 <= j < keep ensures n.s[j].k < sep {
        assert n.s[..n.len][j].k < n.s[..n.len][keep].k;
      }
    }
    if n.kind == Leaf {
      assert LeafKeysOk(n.s, n.len, b.lo[p], b.hi[p]);
      assert LeafKeysOk(n.s, keep, b.lo[p], sep);
    } else {
      assert n.s[..n.len][1] == n.s[1];
      forall j | 0 <= j < keep ensures SlotOk(p, n.s, keep, j, b', h', leaves') {
        assert SlotOk(p, n.s, n.len, j, b, height, leaves);
        var l, h := SlotLo(n.s, j, b.lo[p]), SlotHi(n.s, n.len, j, b.hi[p]);
        assert SlotHi(n.s, keep, j, sep) == h;
        if l < h {
          var c := n.s[j].v.page;
          assert ChildSound(c, height[p], nodes, height, root);
          ChildStays(b, height, leaves, leaves', p, q, sep, f, c, l, h);
        }
      }
    }
    assert NodeOrdered(p, pn, b', h', leaves');
  }

  /** `qn` is the fresh page after the copy loop of `split`
      (bptree.c:236-241): of `n`'s type, with room for `degree` entries
      (one more when internal), holding `n`'s moved entries from slot
      `FirstOf` on and, when internal, the unwritten sentinel slot 0. */
  ghost predicate UpperHalf(qn: Node, n: Node, degree: nat)
  {
    var first := FirstOf(n.kind);
    qn.kind == n.kind && qn.len == MovedCount(n.len, first) + first &&
    |qn.s| == degree + first && qn.len <= |qn.s| &&
    0 <= Keep(n) <= n.len <= |n.s| &&
    qn.s[first..qn.len] == n.s[Keep(n)..n.len] &&
    (first == 1 ==> qn.s[0] == Slot(0, Unwritten))
  }

  /** Slot `j` of the fresh page, from `FirstOf` on, is slot
      `Keep + j - FirstOf` of the split page. */
  lemma UpperHalfAt(qn: Node, n: Node, degree: nat)
    requires UpperHalf(qn, n, degree)
    ensures forall j :: FirstOf(n.kind) <= j < qn.len ==> qn.s[j] == n.s[Keep(n) + j - FirstOf(n.kind)]
  {
    var keep, first := Keep(n), FirstOf(n.kind);
    forall j | first <= j < qn.len ensures qn.s[j] == n.s[keep + j - first] {
      assert qn.s[first..qn.len][j - first] == n.s[keep..n.len][j - first];
    }
  }

  /** A fresh page of the split page's kind that took the upper half of
      the full page `n` holds that upper half, and its first moved key is
      the separator. */
  lemma UpperHalfOf(n: Node, degree: nat, blank: seq<Slot>, qs: seq<Slot>, qlen: int)
    requires degree >= 2 && n.len == degree + FirstOf(n.kind) <= |n.s|
    requires |blank| == degree + FirstOf(n.kind)
    requires forall j :: 0 <= j < |blank| ==> blank[j] == Slot(0, Unwritten)
    requires qlen == MovedCount(n.len, FirstOf(n.kind)) + FirstOf(n.kind)
    requires qs == Appended(blank, FirstOf(n.kind), n.s[Keep(n)..n.len])
    ensures UpperHalf(Node(n.kind, qs, qlen), n, degree)
    ensures FirstOf(n.kind) < qlen && 0 <= Keep(n) < |n.s| && qs[FirstOf(n.kind)].k == Sep(n)
  {
    var first := FirstOf(n.kind);
    var more := n.s[Keep(n)..n.len];
    assert first + |more| == qlen;
    assert qs[first..qlen] == more;
    assert qs[first] == qs[first..qlen][0] == more[0];
    if first == 1 {
      assert qs[0] == qs[..first][0] == blank[..first][0];
    }
  }

  /** The moved entries are the tail of a sorted page: sorted, from `sep`
      on and below the page's upper end. */
  lemma UpperHalfKeys(qn: Node, n: Node, degree: nat, hi: int)
    requires UpperHalf(qn, n, degree) && SortedKeys(n.s[..n.len])
    requires 1 + FirstOf(n.kind) <= Keep(n) < n.len
    requires n.s[n.len - 1].k < hi
    ensures forall j :: FirstOf(n.kind) <= j < qn.len ==> qn.s[j] == n.s[Keep(n) + j - FirstOf(n.kind)]
    ensures forall j :: FirstOf(n.kind) <= j < qn.len ==> Sep(n) <= qn.s[j].k < hi
    ensures SortedKeys(qn.s[..qn.len])
  {
    UpperHalfAt(qn, n, degree);
    var keep, first := Keep(n), FirstOf(n.kind);
    var u := n.s[..n.len];
    assert forall j :: 0 <= j < n.len ==> u[j] == n.s[j];
    forall j | keep <= j < n.len ensures Sep(n) <= n.s[j].k < hi {
      if keep < j {
        assert u[keep].k < u[j].k;
      }
      if j < n.len - 1 {
        assert u[j].k < u[n.len - 1].k;
      }
    }
    forall i, j | 0 <= i < j < qn.len ensures qn.s[..qn.len][i].k < qn.s[..qn.len][j].k {
      var j' := keep + j - first;
      if first <= i {
        assert u[keep + i - first].k < u[j'].k;
      } else {
        assert u[1].k < u[j'].k;
      }
    }
  }

  /** Slot `j` (not the sentinel) of the fresh internal page is slot
      `Keep + j - 1` of the split page, with the same interval and, when
      live, the same child, now under `q`. */
  lemma SplitMovesSlot(nodes: map<Page, Node>, degree: nat, b: Bounds, height: map<Page, nat>,
                       root: Page, leaves: seq<Page>, p: Page, f: Page, ip: int, q: Page, qn: Node,
                       leaves': seq<Page>, j: int)
    requires SplitPre(nodes, degree, b, height, root, leaves, p, f, ip, q)
    requires UpperHalf(qn, nodes[p], degree) && nodes[p].kind == Inter && 1 <= j < qn.len
    requires forall x | x in leaves :: x in leaves'
    requires forall i :: 1 <= i < qn.len ==> qn.s[i] == nodes[p].s[Keep(nodes[p]) + i - 1]
    ensures SlotOk(q, qn.s, qn.len, j, SplitBounds(b, p, q, Sep(nodes[p]), f), height[q := height[p]], leaves')
  {
    SplitFacts(nodes, degree, b, height, root, leaves, p, f, ip, q);
    var n := nodes[p];
    var keep, sep, hi := Keep(n), Sep(n), b.hi[p];
    var j' := keep + j - 1;
    assert SlotOk(p, n.s, n.len, j', b, height, leaves);
    var l, h := SlotLo(n.s, j', b.lo[p]), SlotHi(n.s, n.len, j', hi);
    assert SlotLo(qn.s, j, sep) == l && SlotHi(qn.s, qn.len, j, hi) == h;
    if l < h {
      var c := n.s[j'].v.page;
      assert PageSound(p, nodes, degree, height, root);
      assert ChildSound(c, height[p], nodes, height, root);
      assert sep <= l by {
        if keep < j' {
          assert n.s[..n.len][keep].k < n.s[..n.len][j'].k;
        }
      }
      ChildMoves(b, height, leaves, leaves', p, q, sep, f, c, l, h);
    }
  }

  /** The fresh page holds the entries from `sep` on, ordered inside
      [sep, hi) where hi is the old upper end of the split page; its
      children are the moved ones. */
  lemma SplitFillsQ(nodes: map<Page, Node>, degree: nat, b: Bounds, height: map<Page, nat>,
                    root: Page, leaves: seq<Page>, p: Page, f: Page, ip: int, q: Page, qn: Node,
                    leaves': seq<Page>)
    requires SplitPre(nodes, degree, b, height, root, leaves, p, f, ip, q)
    requires UpperHalf(qn, nodes[p], degree)
    requires forall x | x in leaves :: x in leaves'
    ensures NodeOrdered(q, qn, SplitBounds(b, p, q, Sep(nodes[p]), f), height[q := height[p]], leaves')
  {
    SplitFacts(nodes, degree, b, height, root, leaves, p, f, ip, q);
    var n := nodes[p];
    var sep := Sep(n);
    var b', h' := SplitBounds(b, p, q, sep, f), height[q := height[p]];
    var hi := b.hi[p];
    if n.kind == Leaf {
      assert LeafKeysOk(n.s, n.len, b.lo[p], b.hi[p]);
      assert n.s[..n.len][n.len - 1] == n.s[n.len - 1];
      UpperHalfKeys(qn, n, degree, hi);
      assert LeafKeysOk(qn.s, qn.len, sep, hi);
    } else {
      UpperHalfKeys(qn, n, degree, hi);
      forall j | 0 <= j < qn.len ensures SlotOk(q, qn.s, qn.len, j, b', h', leaves') {
        if j > 0 {
          SplitMovesSlot(nodes, degree, b, height, root, leaves, p, f, ip, q, qn, leaves', j);
        }
      }
    }
  }

  /** The parent's entries after `page_insert` puts (`sep`, `q`) right
      after `p`'s slot `ip`. */
  function FatherAfter(nf: Node, ip: int, sep: Key, q: Page): Node
    requires -1 <= ip < nf.len < |nf.s|
  {
    Node(Inter, Inserted(nf.s, nf.len, ip, Slot(sep, Child(q))), nf.len + 1)
  }

  /** A slot of the parent before `p`'s keeps its interval and its child. */
  lemma SplitFatherBelow(nodes: map<Page, Node>, degree: nat, b: Bounds, height: map<Page, nat>,
                        root: Page, leaves: seq<Page>, p: Page, f: Page, ip: int, q: Page,
                        leaves': seq<Page>, j: int)
    requires SplitPre(nodes, degree, b, height, root, leaves, p, f, ip, q)
    requires forall x | x in leaves :: x in leaves'
    requires nodes[p].kind == Leaf ==> q in leaves'
    requires 0 <= j < ip
    ensures nodes[f].len < |nodes[f].s| && Keep(nodes[p]) < |nodes[p].s|
    ensures var fn := FatherAfter(nodes[f], ip, Sep(nodes[p]), q);
      SlotOk(f, fn.s, fn.len, j, SplitBounds(b, p, q, Sep(nodes[p]), f), height[q := height[p]], leaves')
  {
    SplitFacts(nodes, degree, b, height, root, leaves, p, f, ip, q);
    var nf, n := nodes[f], nodes[p];
    var sep := Sep(n);
    var fn := FatherAfter(nf, ip, sep, q);
    var t := fn.s;
    var b', h' := SplitBounds(b, p, q, sep, f), height[q := height[p]];
    var lp, hp := SlotLo(nf.s, ip, b.lo[f]), SlotHi(nf.s, nf.len, ip, b.hi[f]);
    assert t[j] == nf.s[j] && t[j + 1] == nf.s[j + 1];
    assert SlotOk(f, nf.s, nf.len, j, b, height, leaves);
    var l, h := SlotLo(nf.s, j, b.lo[f]), SlotHi(nf.s, nf.len, j, b.hi[f]);
    assert SlotLo(t, j, b.lo[f]) == l && SlotHi(t, fn.len, j, b.hi[f]) == h;
    if l < h {
      assert h <= lp by {
        if j + 1 < ip {
          assert nf.s[..nf.len][j + 1].k < nf.s[..nf.len][ip].k;
        }
      }
      var c := t[j].v.page;
      ChildElsewhere(b, height, leaves, leaves', p, q, sep, f, f, c, l, h);
    }
  }

  /** A slot of the parent after the new one is the old slot before it,
      with the same interval and child. */
  lemma SplitFatherAbove(nodes: map<Page, Node>, degree: nat, b: Bounds, height: map<Page, nat>,
                        root: Page, leaves: seq<Page>, p: Page, f: Page, ip: int, q: Page,
                        leaves': seq<Page>, j: int)
    requires SplitPre(nodes, degree, b, height, root, leaves, p, f, ip, q)
    requires forall x | x in leaves :: x in leaves'
    requires nodes[p].kind == Leaf ==> q in leaves'
    requires ip + 1 < j <= nodes[f].len
    ensures nodes[f].len < |nodes[f].s| && Keep(nodes[p]) < |nodes[p].s|
    ensures var fn := FatherAfter(nodes[f], ip, Sep(nodes[p]), q);
      SlotOk(f, fn.s, fn.len, j, SplitBounds(b, p, q, Sep(nodes[p]), f), height[q := height[p]], leaves')
  {
    SplitFacts(nodes, degree, b, height, root, leaves, p, f, ip, q);
    var nf, n := nodes[f], nodes[p];
    var sep := Sep(n);
    var fn := FatherAfter(nf, ip, sep, q);
    var t := fn.s;
    var b', h' := SplitBounds(b, p, q, sep, f), height[q := height[p]];
    var lp, hp := SlotLo(nf.s, ip, b.lo[f]), SlotHi(nf.s, nf.len, ip, b.hi[f]);
    assert t[j] == nf.s[j - 1];
    assert j + 1 <= nf.len ==> t[j + 1] == nf.s[j];
    assert SlotOk(f, nf.s, nf.len, j - 1, b, height, leaves);
    var l, h := SlotLo(nf.s, j - 1, b.lo[f]), SlotHi(nf.s, nf.len, j - 1, b.hi[f]);
    assert SlotLo(t, j, b.lo[f]) == l && SlotHi(t, fn.len, j, b.hi[f]) == h;
    if l < h {
      assert hp <= l by {
        if ip + 1 < j - 1 {
          assert nf.s[..nf.len][ip + 1].k < nf.s[..nf.len][j - 1].k;
        }
      }
      var c := t[j].v.page;
      ChildElsewhere(b, height, leaves, leaves', p, q, sep, f, f, c, l, h);
    }
  }

  /** `p`'s slot now ends at `sep`, and the new slot right after it owns
      the rest of `p`'s old interval and points at `q`. */
  lemma SplitFatherAt(nodes: map<Page, Node>, degree: nat, b: Bounds, height: map<Page, nat>,
                        root: Page, leaves: seq<Page>, p: Page, f: Page, ip: int, q: Page,
                        leaves': seq<Page>, j: int)
    requires SplitPre(nodes, degree, b, height, root, leaves, p, f, ip, q)
    requires forall x | x in leaves :: x in leaves'
    requires nodes[p].kind == Leaf ==> q in leaves'
    requires j == ip || j == ip + 1
    ensures nodes[f].len < |nodes[f].s| && Keep(nodes[p]) < |nodes[p].s|
    ensures var fn := FatherAfter(nodes[f], ip, Sep(nodes[p]), q);
      SlotOk(f, fn.s, fn.len, j, SplitBounds(b, p, q, Sep(nodes[p]), f), height[q := height[p]], leaves')
  {
    SplitFacts(nodes, degree, b, height, root, leaves, p, f, ip, q);
    var nf, n := nodes[f], nodes[p];
    var sep := Sep(n);
    var fn := FatherAfter(nf, ip, sep, q);
    var t := fn.s;
    var b', h' := SplitBounds(b, p, q, sep, f), height[q := height[p]];
    var lp, hp := SlotLo(nf.s, ip, b.lo[f]), SlotHi(nf.s, nf.len, ip, b.hi[f]);
    assert t[ip] == nf.s[ip] && t[ip + 1] == Slot(sep, Child(q));
    assert ip + 2 <= nf.len ==> t[ip + 2] == nf.s[ip + 1];
    assert SlotLo(t, ip, b.lo[f]) == lp && SlotHi(t, fn.len, ip, b.hi[f]) == sep;
    assert SlotLo(t, ip + 1, b.lo[f]) == sep && SlotHi(t, fn.len, ip + 1, b.hi[f]) == hp;
  }

  /** The parent's keys after the insertion: still sorted, still starting
      with the sentinel 0, the first real key not below `lo` and the last
      below `hi`. */
  lemma FatherAfterKeys(nf: Node, ip: int, sep: Key, q: Page, lo: int, hi: int)
    requires 0 <= ip < nf.len < |nf.s| && SortedKeys(nf.s[..nf.len])
    requires nf.s[0].k == 0 && (2 <= nf.len ==> lo <= nf.s[1].k) && nf.s[nf.len - 1].k < hi
    requires nf.s[ip].k < sep && (ip + 1 < nf.len ==> sep < nf.s[ip + 1].k)
    requires (ip == 0 ==> lo < sep) && (ip + 1 == nf.len ==> sep < hi)
    ensures var fn := FatherAfter(nf, ip, sep, q);
      SortedKeys(fn.s[..fn.len]) && fn.s[0].k == 0 && lo <= fn.s[1].k && fn.s[fn.len - 1].k < hi
  {
    var t := FatherAfter(nf, ip, sep, q).s;
    InsertedSorted(nf.s, nf.len, ip, Slot(sep, Child(q)));
    assert t[0] == nf.s[0];
    assert ip >= 1 ==> t[1] == nf.s[1];
    assert ip + 1 < nf.len ==> t[nf.len] == nf.s[nf.len - 1];
  }

  /** The parent, with (`sep`, `q`) put right after `p`'s slot, is
      ordered. */
  lemma SplitGrowsF(nodes: map<Page, Node>, degree: nat, b: Bounds, height: map<Page, nat>,
                    root: Page, leaves: seq<Page>, p: Page, f: Page, ip: int, q: Page, leaves': seq<Page>)
    requires SplitPre(nodes, degree, b, height, root, leaves, p, f, ip, q)
    requires forall x | x in leaves :: x in leaves'
    requires nodes[p].kind == Leaf ==> q in leaves'
    ensures nodes[f].len < |nodes[f].s| && Keep(nodes[p]) < |nodes[p].s|
    ensures NodeOrdered(f, FatherAfter(nodes[f], ip, Sep(nodes[p]), q),
                        SplitBounds(b, p, q, Sep(nodes[p]), f), height[q := height[p]], leaves')
  {
    SplitFacts(nodes, degree, b, height, root, leaves, p, f, ip, q);
    var nf, n := nodes[f], nodes[p];
    var sep := Sep(n);
    var fn := FatherAfter(nf, ip, sep, q);
    var t := fn.s;
    var b', h' := SplitBounds(b, p, q, sep, f), height[q := height[p]];
    var lp, hp := SlotLo(nf.s, ip, b.lo[f]), SlotHi(nf.s, nf.len, ip, b.hi[f]);
    var u := nf.s[..nf.len];
    assert u[0] == nf.s[0] && u[ip] == nf.s[ip] && u[nf.len - 1] == nf.s[nf.len - 1];
    assert 2 <= nf.len ==> u[1] == nf.s[1];
    assert nf.s[ip].k < sep by {
      if ip > 0 {
        assert nf.s[ip].k == lp;
      }
    }
    FatherAfterKeys(nf, ip, sep, q, b.lo[f], b.hi[f]);
    forall j | 0 <= j < fn.len ensures SlotOk(f, t, fn.len, j, b', h', leaves') {
      if j < ip {
        SplitFatherBelow(nodes, degree, b, height, root, leaves, p, f, ip, q, leaves', j);
      } else if j <= ip + 1 {
        SplitFatherAt(nodes, degree, b, height, root, leaves, p, f, ip, q, leaves', j);
      } else {
        SplitFatherAbove(nodes, degree, b, height, root, leaves, p, f, ip, q, leaves', j);
      }
    }
  }

  /** Every other page keeps its interval and its children, so it stays
      ordered. */
  lemma SplitKeepsOther(nodes: map<Page, Node>, degree: nat, b: Bounds, height: map<Page, nat>,
                        root: Page, leaves: seq<Page>, p: Page, f: Page, ip: int, q: Page,
                        leaves': seq<Page>, x: Page)
    requires SplitPre(nodes, degree, b, height, root, leaves, p, f, ip, q)
    requires forall y | y in leaves :: y in leaves'
    requires x in nodes && x != p && x != f
    ensures NodeOrdered(x, nodes[x], SplitBounds(b, p, q, Sep(nodes[p]), f), height[q := height[p]], leaves')
  {
    SplitFacts(nodes, degree, b, height, root, leaves, p, f, ip, q);
    var n := nodes[x];
    var sep := Sep(nodes[p]);
    var b', h' := SplitBounds(b, p, q, sep, f), height[q := height[p]];
    assert NodeOrdered(x, n, b, height, leaves);
    if n.kind == Inter {
      forall j | 0 <= j < n.len ensures SlotOk(x, n.s, n.len, j, b', h', leaves') {
        assert SlotOk(x, n.s, n.len, j, b, height, leaves);
        var l, h := SlotLo(n.s, j, b.lo[x]), SlotHi(n.s, n.len, j, b.hi[x]);
        if l < h {
          ChildElsewhere(b, height, leaves, leaves', p, q, sep, f, x, n.s[j].v.page, l, h);
        }
      }
    }
  }

  /** A sound node stays sound when pages are only added to the tree and
      the old pages keep their levels. */
  lemma NodeSoundGrow(n: Node, hx: nat, degree: nat, nodes: map<Page, Node>, height: map<Page, nat>,
                      nodes': map<Page, Node>, height': map<Page, nat>, root: Page)
    requires NodeSound(n, hx, degree, nodes, height, root)
    requires forall c | c in nodes :: c in nodes'
    requires forall c | c in height :: c in height' && height'[c] == height[c]
    ensures NodeSound(n, hx, degree, nodes', height', root)
  {
    if n.kind == Inter {
      forall j | 0 <= j < n.len && n.s[j].v.Child? ensures ChildSound(n.s[j].v.page, hx, nodes', height', root) {
        assert ChildSound(n.s[j].v.page, hx, nodes, height, root);
      }
    }
  }

  /** The leaf list after the split: `q` right after `p` at position `a`
      when leaves are split, unchanged otherwise. */
  ghost predicate LeavesAfter(leaves: seq<Page>, leaves': seq<Page>, kind: Kind, p: Page, q: Page)
  {
    if kind == Inter then leaves' == leaves
    else exists a :: 0 <= a < |leaves| && leaves[a] == p && leaves' == leaves[..a + 1] + [q] + leaves[a + 1..]
  }

  /** The nodes of the tree after the split step of `p` under `f`, with
      `qn` the new right sibling `q`. */
  ghost function SplitNodes(nodes: map<Page, Node>, p: Page, f: Page, ip: int, q: Page, qn: Node): map<Page, Node>
    requires p in nodes && f in nodes && 0 <= Keep(nodes[p]) < |nodes[p].s|
    requires 0 <= ip < nodes[f].len < |nodes[f].s|
  {
    var n := nodes[p];
    nodes[p := Node(n.kind, n.s, Keep(n))][q := qn][f := FatherAfter(nodes[f], ip, Sep(n), q)]
  }

  lemma SplitSoundQ(nodes: map<Page, Node>, degree: nat, b: Bounds, height: map<Page, nat>,
                    root: Page, leaves: seq<Page>, p: Page, f: Page, ip: int, q: Page, qn: Node)
    requires SplitPre(nodes, degree, b, height, root, leaves, p, f, ip, q)
    requires UpperHalf(qn, nodes[p], degree)
    ensures Keep(nodes[p]) < |nodes[p].s| && nodes[f].len < |nodes[f].s|
    ensures var nodes' := SplitNodes(nodes, p, f, ip, q, qn);
      q in nodes' && nodes'[q] == qn && NodeSound(qn, height[p], degree, nodes', height[q := height[p]], root)
  {
    SplitFacts(nodes, degree, b, height, root, leaves, p, f, ip, q);
    var n := nodes[p];
    var keep := Keep(n);
    var nodes' := SplitNodes(nodes, p, f, ip, q, qn);
    var h' := height[q := height[p]];
    UpperHalfAt(qn, n, degree);
    assert NodeSound(n, height[p], degree, nodes, height, root);
    if n.kind == Inter {
      forall j | 0 <= j < qn.len && qn.s[j].v.Child? ensures ChildSound(qn.s[j].v.page, height[p], nodes', h', root) {
        assert ChildSound(n.s[keep + j - 1].v.page, height[p], nodes, height, root);
      }
    } else {
      forall j | 0 <= j < qn.len ensures qn.s[j].v.Value? {
        assert n.s[keep + j].v.Value?;
      }
    }
  }

  lemma SplitSoundF(nodes: map<Page, Node>, degree: nat, b: Bounds, height: map<Page, nat>,
                    root: Page, leaves: seq<Page>, p: Page, f: Page, ip: int, q: Page, qn: Node)
    requires SplitPre(nodes, degree, b, height, root, leaves, p, f, ip, q)
    requires UpperHalf(qn, nodes[p], degree)
    ensures Keep(nodes[p]) < |nodes[p].s| && nodes[f].len < |nodes[f].s| && f in height
    ensures var nodes' := SplitNodes(nodes, p, f, ip, q, qn);
      NodeSound(nodes'[f], height[f], degree, nodes', height[q := height[p]], root)
  {
    SplitFacts(nodes, degree, b, height, root, leaves, p, f, ip, q);
    var nf := nodes[f];
    var nodes' := SplitNodes(nodes, p, f, ip, q, qn);
    var fn := nodes'[f];
    var h' := height[q := height[p]];
    assert NodeSound(nf, height[f], degree, nodes, height, root);
    forall j | 0 <= j < fn.len && fn.s[j].v.Child? ensures ChildSound(fn.s[j].v.page, height[f], nodes', h', root) {
      if j <= ip {
        assert fn.s[j] == nf.s[j];
        assert ChildSound(nf.s[j].v.page, height[f], nodes, height, root);
      } else if j > ip + 1 {
        assert fn.s[j] == nf.s[j - 1];
        assert ChildSound(nf.s[j - 1].v.page, height[f], nodes, height, root);
      }
    }
  }

  /** Inserting a fresh page `q` right after position `a` keeps a list of
      pages distinct. */
  lemma {:induction false} InsertDistinct(ls: seq<Page>, a: int, q: Page)
    requires 0 <= a < |ls| && q !in ls
    requires forall i, j | 0 <= i < j < |ls| :: ls[i] != ls[j]
    ensures var ls' := ls[..a + 1] + [q] + ls[a + 1..];
      forall i, j | 0 <= i < j < |ls'| :: ls'[i] != ls'[j]
  {
    var ls' := ls[..a + 1] + [q] + ls[a + 1..];
    forall i, j | 0 <= i < j < |ls'| ensures ls'[i] != ls'[j] {
      assert i <= a ==> ls'[i] == ls[i];
      assert i > a + 1 ==> ls'[i] == ls[i - 1];
      assert j <= a ==> ls'[j] == ls[j];
      assert j > a + 1 ==> ls'[j] == ls[j - 1];
      assert ls'[a + 1] == q;
    }
  }

  /** Inserting a leaf `q` into a list of leaves keeps it a list of
      leaves, provided the old leaves remain leaves. */
  lemma InsertLeaf(ls: seq<Page>, a: int, nodes': map<Page, Node>, q: Page)
    requires 0 <= a < |ls|
    requires forall i | 0 <= i < |ls| :: ls[i] in nodes' && nodes'[ls[i]].kind == Leaf
    requires q in nodes' && nodes'[q].kind == Leaf
    ensures var ls' := ls[..a + 1] + [q] + ls[a + 1..];
      forall i | 0 <= i < |ls'| :: ls'[i] in nodes' && nodes'[ls'[i]].kind == Leaf
  {
    var ls' := ls[..a + 1] + [q] + ls[a + 1..];
    forall i | 0 <= i < |ls'| ensures ls'[i] in nodes' && nodes'[ls'[i]].kind == Leaf {
      if i <= a {
        assert ls'[i] == ls[i];
      } else if i > a + 1 {
        assert ls'[i] == ls[i - 1];
      }
    }
  }

  lemma SplitLeavesSound(nodes: map<Page, Node>, degree: nat, b: Bounds, height: map<Page, nat>,
                         root: Page, leaves: seq<Page>, p: Page, f: Page, ip: int, q: Page, qn: Node,
                         leaves': seq<Page>)
    requires SplitPre(nodes, degree, b, height, root, leaves, p, f, ip, q)
    requires UpperHalf(qn, nodes[p], degree)
    requires LeavesAfter(leaves, leaves', nodes[p].kind, p, q)
    ensures Keep(nodes[p]) < |nodes[p].s| && nodes[f].len < |nodes[f].s|
    ensures var nodes' := SplitNodes(nodes, p, f, ip, q, qn);
      (forall i | 0 <= i < |leaves'| :: leaves'[i] in nodes' && nodes'[leaves'[i]].kind == Leaf) &&
      (forall i, j | 0 <= i < j < |leaves'| :: leaves'[i] != leaves'[j])
  {
    SplitFacts(nodes, degree, b, height, root, leaves, p, f, ip, q);
    var n := nodes[p];
    var nodes' := SplitNodes(nodes, p, f, ip, q, qn);
    if n.kind == Leaf {
      var a :| 0 <= a < |leaves| && leaves[a] == p && leaves' == leaves[..a + 1] + [q] + leaves[a + 1..];
      assert q !in leaves;
      InsertDistinct(leaves, a, q);
      forall i | 0 <= i < |leaves| ensures leaves[i] in nodes' && nodes'[leaves[i]].kind == Leaf {
        assert leaves[i] != f;
      }
      InsertLeaf(leaves, a, nodes', q);
    } else {
      forall i | 0 <= i < |leaves'| ensures leaves'[i] in nodes' && nodes'[leaves'[i]].kind == Leaf {
        assert leaves[i] != p && leaves[i] != f;
      }
    }
  }

  /** After the split step every page is sound and the leaf list is made of
      distinct leaves of the tree. */
  lemma SplitSound(nodes: map<Page, Node>, degree: nat, b: Bounds, height: map<Page, nat>,
                   root: Page, leaves: seq<Page>, p: Page, f: Page, ip: int, q: Page, qn: Node,
                   leaves': seq<Page>)
    requires SplitPre(nodes, degree, b, height, root, leaves, p, f, ip, q)
    requires UpperHalf(qn, nodes[p], degree)
    requires LeavesAfter(leaves, leaves', nodes[p].kind, p, q)
    ensures Keep(nodes[p]) < |nodes[p].s| && nodes[f].len < |nodes[f].s|
    ensures TreeSound(SplitNodes(nodes, p, f, ip, q, qn), degree, height[q := height[p]], root, leaves')
  {
    SplitFacts(nodes, degree, b, height, root, leaves, p, f, ip, q);
    var n := nodes[p];
    var nodes' := SplitNodes(nodes, p, f, ip, q, qn);
    var h' := height[q := height[p]];
    SplitSoundQ(nodes, degree, b, height, root, leaves, p, f, ip, q, qn);
    SplitSoundF(nodes, degree, b, height, root, leaves, p, f, ip, q, qn);
    SplitLeavesSound(nodes, degree, b, height, root, leaves, p, f, ip, q, qn, leaves');
    forall x | x in nodes' ensures PageSound(x, nodes', degree, h', root) {
      if x != q && x != f {
        SplitSoundOld(nodes, degree, b, height, root, leaves, p, f, ip, q, qn, x);
      }
    }
  }

  lemma SplitSoundOld(nodes: map<Page, Node>, degree: nat, b: Bounds, height: map<Page, nat>,
                      root: Page, leaves: seq<Page>, p: Page, f: Page, ip: int, q: Page, qn: Node, x: Page)
    requires SplitPre(nodes, degree, b, height, root, leaves, p, f, ip, q)
    requires x in nodes && x != f
    ensures Keep(nodes[p]) < |nodes[p].s| && nodes[f].len < |nodes[f].s|
    ensures PageSound(x, SplitNodes(nodes, p, f, ip, q, qn), degree, height[q := height[p]], root)
  {
    SplitFacts(nodes, degree, b, height, root, leaves, p, f, ip, q);
    var nodes' := SplitNodes(nodes, p, f, ip, q, qn);
    var h' := height[q := height[p]];
    assert PageSound(x, nodes, degree, height, root);
    if x == p {
      assert NodeSound(nodes[p], height[p], degree, nodes, height, root);
    } else {
      NodeSoundGrow(nodes[x], height[x], degree, nodes, height, nodes', h', root);
    }
  }

  /** The new leaf list keeps every old leaf and holds `q` when leaves are
      split. */
  lemma LeavesAfterGrow(leaves: seq<Page>, leaves': seq<Page>, kind: Kind, p: Page, q: Page)
    requires LeavesAfter(leaves, leaves', kind, p, q)
    ensures forall x | x in leaves :: x in leaves'
    ensures kind == Leaf ==> q in leaves'
  {
    if kind == Leaf {
      var a :| 0 <= a < |leaves| && leaves[a] == p && leaves' == leaves[..a + 1] + [q] + leaves[a + 1..];
      assert leaves == leaves[..a + 1] + leaves[a + 1..];
      assert leaves'[a + 1] == q;
    }
  }

  /** A leaf chain stays one under bounds that agree with the old ones on
      its pages. */
  lemma ChainSame(ls: seq<Page>, b: Bounds, b': Bounds)
    requires LeafChain(ls, b)
    requires forall x | x in ls :: x in b'.lo && x in b'.hi && b'.lo[x] == b.lo[x] && b'.hi[x] == b.hi[x]
    ensures LeafChain(ls, b')
  {
    assert ls[0] in ls && ls[|ls| - 1] in ls;
    forall i | 0 <= i < |ls| - 1 ensures b'.hi[ls[i]] == b'.lo[ls[i + 1]] {
      assert ls[i] in ls && ls[i + 1] in ls;
    }
  }

  /** Splitting the interval of leaf `ls[a]` at the point where a new leaf
      `q` takes over keeps the chain when `q` is listed right after it. */
  lemma {:induction false} ChainInsert(ls: seq<Page>, a: int, q: Page, b: Bounds, b': Bounds)
    requires LeafChain(ls, b) && 0 <= a < |ls| && q !in ls
    requires forall i, j | 0 <= i < j < |ls| :: ls[i] != ls[j]
    requires forall x | x in ls && x != ls[a] :: x in b'.lo && x in b'.hi && b'.lo[x] == b.lo[x] && b'.hi[x] == b.hi[x]
    requires ls[a] in b'.lo && ls[a] in b'.hi && q in b'.lo && q in b'.hi
    requires b'.lo[ls[a]] == b.lo[ls[a]] && b'.hi[ls[a]] == b'.lo[q] && b'.hi[q] == b.hi[ls[a]]
    ensures LeafChain(ls[..a + 1] + [q] + ls[a + 1..], b')
  {
    var ls' := ls[..a + 1] + [q] + ls[a + 1..];
    var p := ls[a];
    assert forall i | 0 <= i <= a :: ls'[i] == ls[i];
    assert forall i | a + 1 < i < |ls'| :: ls'[i] == ls[i - 1];
    assert ls'[a + 1] == q;
    forall i | 0 <= i < |ls'| ensures ls'[i] in b'.lo && ls'[i] in b'.hi {
      if i <= a {
        assert ls[i] in ls;
      } else if i > a + 1 {
        assert ls[i - 1] in ls;
      }
    }
    forall i | 0 <= i < |ls'| - 1 ensures b'.hi[ls'[i]] == b'.lo[ls'[i + 1]] {
      if i < a {
        assert ls[i] in ls && ls[i + 1] in ls && ls[i] != p;
      } else if i == a + 1 {
        assert ls[a + 1] in ls && ls[a + 1] != p;
      } else if i > a + 1 {
        assert ls[i - 1] in ls && ls[i] in ls && ls[i - 1] != p && ls[i] != p;
      }
    }
    if a < |ls| - 1 {
      assert ls'[|ls'| - 1] == ls[|ls| - 1] && ls[|ls| - 1] in ls && ls[|ls| - 1] != p;
    }
    if a > 0 {
      assert ls[0] in ls && ls[0] != p;
    }
  }

  /** The leaf chain still runs through the key space after the split step:
      `p` ends at the separator, where `q` takes over up to `p`'s old end. */
  lemma SplitChain(nodes: map<Page, Node>, degree: nat, b: Bounds, height: map<Page, nat>,
                   root: Page, leaves: seq<Page>, p: Page, f: Page, ip: int, q: Page, leaves': seq<Page>)
    requires SplitPre(nodes, degree, b, height, root, leaves, p, f, ip, q)
    requires LeavesAfter(leaves, leaves', nodes[p].kind, p, q)
    ensures Keep(nodes[p]) < |nodes[p].s| && nodes[f].len < |nodes[f].s|
    ensures LeafChain(leaves', SplitBounds(b, p, q, Sep(nodes[p]), f))
  {
    SplitFacts(nodes, degree, b, height, root, leaves, p, f, ip, q);
    var b' := SplitBounds(b, p, q, Sep(nodes[p]), f);
    assert q !in leaves;
    if nodes[p].kind == Leaf {
      var a :| 0 <= a < |leaves| && leaves[a] == p && leaves' == leaves[..a + 1] + [q] + leaves[a + 1..];
      ChainInsert(leaves, a, q, b, b');
    } else {
      forall x | x in leaves ensures x != p {
        var i :| 0 <= i < |leaves| && leaves[i] == x;
        assert nodes[leaves[i]].kind == Leaf;
      }
      ChainSame(leaves, b, b');
    }
  }

  /** The split step keeps the search-tree invariant. */
  lemma SplitOrdered(nodes: map<Page, Node>, degree: nat, b: Bounds, height: map<Page, nat>,
                     root: Page, leaves: seq<Page>, p: Page, f: Page, ip: int, q: Page, qn: Node,
                     leaves': seq<Page>)
    requires SplitPre(nodes, degree, b, height, root, leaves, p, f, ip, q)
    requires UpperHalf(qn, nodes[p], degree)
    requires LeavesAfter(leaves, leaves', nodes[p].kind, p, q)
    ensures Keep(nodes[p]) < |nodes[p].s| && nodes[f].len < |nodes[f].s|
    ensures TreeOrdered(SplitNodes(nodes, p, f, ip, q, qn), SplitBounds(b, p, q, Sep(nodes[p]), f),
                        height[q := height[p]], root, leaves')
  {
    assert p != root && Keep(nodes[p]) < |nodes[p].s| && nodes[f].len < |nodes[f].s| by {
      SplitFacts(nodes, degree, b, height, root, leaves, p, f, ip, q);
    }
    var nodes' := SplitNodes(nodes, p, f, ip, q, qn);
    var b' := SplitBounds(b, p, q, Sep(nodes[p]), f);
    var h' := height[q := height[p]];
    LeavesAfterGrow(leaves, leaves', nodes[p].kind, p, q);
    SplitChain(nodes, degree, b, height, root, leaves, p, f, ip, q, leaves');
    SplitAllOrdered(nodes, degree, b, height, root, leaves, p, f, ip, q, qn, leaves');
    assert root != q && b'.lo[root] == b.lo[root] && b'.hi[root] == b.hi[root];
    if root != f && nodes'[root].kind == Leaf {
      assert nodes'[root] == nodes[root] && root in leaves;
    }
  }

  lemma SplitAllOrdered(nodes: map<Page, Node>, degree: nat, b: Bounds, height: map<Page, nat>,
                        root: Page, leaves: seq<Page>, p: Page, f: Page, ip: int, q: Page, qn: Node,
                        leaves': seq<Page>)
    requires SplitPre(nodes, degree, b, height, root, leaves, p, f, ip, q)
    requires UpperHalf(qn, nodes[p], degree)
    requires LeavesAfter(leaves, leaves', nodes[p].kind, p, q)
    requires Keep(nodes[p]) < |nodes[p].s| && nodes[f].len < |nodes[f].s|
    ensures var nodes' := SplitNodes(nodes, p, f, ip, q, qn);
      forall x {:trigger NodeOrdered(x, nodes'[x], SplitBounds(b, p, q, Sep(nodes[p]), f), height[q := height[p]], leaves')} | x in nodes' ::
        NodeOrdered(x, nodes'[x], SplitBounds(b, p, q, Sep(nodes[p]), f), height[q := height[p]], leaves')
  {
    var nodes' := SplitNodes(nodes, p, f, ip, q, qn);
    forall x | x in nodes' ensures NodeOrdered(x, nodes'[x], SplitBounds(b, p, q, Sep(nodes[p]), f), height[q := height[p]], leaves') {
      SplitNodeOrdered(nodes, degree, b, height, root, leaves, p, f, ip, q, qn, leaves', x);
    }
  }

  lemma SplitNodeOrdered(nodes: map<Page, Node>, degree: nat, b: Bounds, height: map<Page, nat>,
                         root: Page, leaves: seq<Page>, p: Page, f: Page, ip: int, q: Page, qn: Node,
                         leaves': seq<Page>, x: Page)
    requires SplitPre(nodes, degree, b, height, root, leaves, p, f, ip, q)
    requires UpperHalf(qn, nodes[p], degree)
    requires LeavesAfter(leaves, leaves', nodes[p].kind, p, q)
    requires Keep(nodes[p]) < |nodes[p].s| && nodes[f].len < |nodes[f].s|
    requires x in SplitNodes(nodes, p, f, ip, q, qn)
    ensures NodeOrdered(x, SplitNodes(nodes, p, f, ip, q, qn)[x], SplitBounds(b, p, q, Sep(nodes[p]), f),
                        height[q := height[p]], leaves')
  {
    LeavesAfterGrow(leaves, leaves', nodes[p].kind, p, q);
    SplitFacts(nodes, degree, b, height, root, leaves, p, f, ip, q);
    if x == f {
      SplitGrowsF(nodes, degree, b, height, root, leaves, p, f, ip, q, leaves');
    } else if x == q {
      SplitFillsQ(nodes, degree, b, height, root, leaves, p, f, ip, q, qn, leaves');
    } else if x == p {
      SplitKeepsP(nodes, degree, b, height, root, leaves, p, f, ip, q, leaves');
    } else {
      SplitKeepsOther(nodes, degree, b, height, root, leaves, p, f, ip, q, leaves', x);
    }
  }

  lemma ConcatAssoc(a: seq<Slot>, b: seq<Slot>, c: seq<Slot>, d: seq<Slot>)
    ensures a + b + (c + d) == a + (b + c) + d
  {
  }

  /** The two halves of a split leaf hold together what it held. */
  lemma UpperHalfUsed(qn: Node, n: Node, degree: nat)
    requires UpperHalf(qn, n, degree) && n.kind == Leaf
    ensures 0 <= Keep(n) <= |n.s|
    ensures Used(Node(n.kind, n.s, Keep(n))) + Used(qn) == Used(n)
  {
    UpperHalfAt(qn, n, degree);
    assert Used(qn) == n.s[Keep(n)..n.len];
  }

  /** The split step moves entries between pages but keeps the tree's
      contents. */
  lemma SplitItems(nodes: map<Page, Node>, degree: nat, b: Bounds, height: map<Page, nat>,
                   root: Page, leaves: seq<Page>, p: Page, f: Page, ip: int, q: Page, qn: Node,
                   leaves': seq<Page>)
    requires SplitPre(nodes, degree, b, height, root, leaves, p, f, ip, q)
    requires UpperHalf(qn, nodes[p], degree)
    requires LeavesAfter(leaves, leaves', nodes[p].kind, p, q)
    ensures Keep(nodes[p]) < |nodes[p].s| && nodes[f].len < |nodes[f].s|
    ensures Listed(nodes, leaves) && Listed(SplitNodes(nodes, p, f, ip, q, qn), leaves')
    ensures Items(SplitNodes(nodes, p, f, ip, q, qn), leaves') == Items(nodes, leaves)
  {
    SplitFacts(nodes, degree, b, height, root, leaves, p, f, ip, q);
    SoundListed(nodes, degree, height, root, leaves);
    var nodes' := SplitNodes(nodes, p, f, ip, q, qn);
    assert Listed(nodes', leaves') by {
      SplitSound(nodes, degree, b, height, root, leaves, p, f, ip, q, qn, leaves');
      SoundListed(nodes', degree, height[q := height[p]], root, leaves');
    }
    if nodes[p].kind == Leaf {
      forall i | 0 <= i < |leaves| ensures leaves[i] in nodes && nodes[leaves[i]].kind == Leaf {
      }
      SplitItemsLeaf(nodes, degree, leaves, p, f, ip, q, qn, leaves');
    } else {
      forall i | 0 <= i < |leaves| ensures leaves[i] in nodes' && nodes'[leaves[i]] == nodes[leaves[i]] {
        assert nodes[leaves[i]].kind == Leaf;
      }
      ItemsSame(nodes, nodes', leaves);
    }
  }

  lemma SplitItemsLeaf(nodes: map<Page, Node>, degree: nat, leaves: seq<Page>, p: Page, f: Page, ip: int,
                       q: Page, qn: Node, leaves': seq<Page>)
    requires p in nodes && f in nodes && q !in nodes && nodes[f].kind == Inter
    requires UpperHalf(qn, nodes[p], degree) && nodes[p].kind == Leaf
    requires forall i | 0 <= i < |leaves| :: leaves[i] in nodes && nodes[leaves[i]].kind == Leaf
    requires forall i, j | 0 <= i < j < |leaves| :: leaves[i] != leaves[j]
    requires LeavesAfter(leaves, leaves', nodes[p].kind, p, q)
    requires Keep(nodes[p]) < |nodes[p].s| && 0 <= ip < nodes[f].len < |nodes[f].s|
    requires Listed(nodes, leaves) && Listed(SplitNodes(nodes, p, f, ip, q, qn), leaves')
    ensures Items(SplitNodes(nodes, p, f, ip, q, qn), leaves') == Items(nodes, leaves)
  {
    var nodes' := SplitNodes(nodes, p, f, ip, q, qn);
    var a :| 0 <= a < |leaves| && leaves[a] == p && leaves' == leaves[..a + 1] + [q] + leaves[a + 1..];
    assert p != f && q != f && q != p && q !in nodes;
    forall i | 0 <= i < |leaves| && i != a ensures leaves[i] in nodes' && nodes'[leaves[i]] == nodes[leaves[i]] {
      assert nodes[leaves[i]].kind == Leaf && leaves[i] != p;
    }
    assert leaves'[a] == p && leaves'[a + 1] == q;
    UpperHalfUsed(qn, nodes[p], degree);
    assert nodes'[p] == Node(nodes[p].kind, nodes[p].s, Keep(nodes[p])) && nodes'[q] == qn;
    SplitLeafItems(nodes, leaves, p, q, nodes', leaves', a);
  }

  /** The contents around a leaf `p` that is followed by a new leaf `q`,
      when no other listed page changed. */
  lemma SplitLeafItems(nodes: map<Page, Node>, leaves: seq<Page>, p: Page, q: Page,
                       nodes': map<Page, Node>, leaves': seq<Page>, a: int)
    requires Listed(nodes, leaves) && Listed(nodes', leaves')
    requires forall i, j | 0 <= i < j < |leaves| :: leaves[i] != leaves[j]
    requires 0 <= a < |leaves| && leaves[a] == p && leaves' == leaves[..a + 1] + [q] + leaves[a + 1..]
    requires p in nodes && 0 <= nodes[p].len <= |nodes[p].s|
    requires p in nodes' && 0 <= nodes'[p].len <= |nodes'[p].s|
    requires q in nodes' && 0 <= nodes'[q].len <= |nodes'[q].s|
    requires Used(nodes'[p]) + Used(nodes'[q]) == Used(nodes[p])
    requires forall i | 0 <= i < |leaves| && i != a :: leaves[i] in nodes' && nodes'[leaves[i]] == nodes[leaves[i]]
    ensures Items(nodes', leaves') == Items(nodes, leaves)
  {
    ItemsAround(nodes, leaves, a);
    ItemsAround(nodes', leaves', a);
    assert leaves'[..a] == leaves[..a] && leaves'[a] == p;
    var rest := leaves[a + 1..];
    assert leaves'[a + 1..] == [q] + rest;
    assert ([q] + rest)[0] == q && ([q] + rest)[1..] == rest;
    forall i | 0 <= i < a ensures leaves[..a][i] in nodes' && nodes'[leaves[..a][i]] == nodes[leaves[..a][i]] {
      assert leaves[..a][i] == leaves[i];
    }
    forall i | 0 <= i < |rest| ensures rest[i] in nodes' && nodes'[rest[i]] == nodes[rest[i]] {
      assert rest[i] == leaves[a + 1 + i];
    }
    ItemsSame(nodes, nodes', leaves[..a]);
    ItemsSame(nodes, nodes', rest);
    var before, after := Items(nodes, leaves[..a]), Items(nodes, rest);
    var lower, upper := Used(nodes'[p]), Used(nodes'[q]);
    calc {
      Items(nodes', leaves');
      Items(nodes', leaves'[..a]) + lower + Items(nodes', leaves'[a + 1..]);
      before + lower + Items(nodes', [q] + rest);
      before + lower + (upper + after);
      { ConcatAssoc(before, lower, upper, after); }
      before + (lower + upper) + after;
      Items(nodes, leaves);
    }
  }

  /** The binary search for the separator in the parent answers the slot
      of `p`, so the new entry for `q` goes right after `p`'s. */
  lemma SplitSlot(nodes: map<Page, Node>, degree: nat, b: Bounds, height: map<Page, nat>,
                  root: Page, leaves: seq<Page>, p: Page, f: Page, ip: int, at: int)
    requires StepPre(nodes, degree, b, height, root, leaves, p, f, ip)
    requires -1 <= at < nodes[f].len
    requires SearchAnswer(nodes[f].s, nodes[f].len, Sep(nodes[p]), at)
    ensures at == ip
  {
    StepFacts(nodes, degree, b, height, root, leaves, p, f, ip);
    var nf := nodes[f];
    var u := nf.s[..nf.len];
    assert u[0] == nf.s[0] && u[ip] == nf.s[ip];
  }

  /** The tree grown by one level: a new root `r` whose only child is the
      old root, owning the whole key space. */
  ghost predicate GrowPre(nodes: map<Page, Node>, degree: nat, b: Bounds, height: map<Page, nat>,
                          root: Page, leaves: seq<Page>, r: Page, rs: seq<Slot>)
  {
    degree >= 2 &&
    TreeSound(nodes, degree, height, root, leaves) && TreeOrdered(nodes, b, height, root, leaves) &&
    r !in nodes && r !in b.lo && r !in b.hi && r !in b.parent && r !in height &&
    |rs| == degree + 1 && rs[0] == Slot(0, Child(root))
  }

  ghost function GrowBounds(b: Bounds, root: Page, r: Page): Bounds
  {
    Bounds(b.lo[r := 0], b.hi[r := U64_LIMIT], b.parent[root := r])
  }

  lemma GrowKeeps(nodes: map<Page, Node>, degree: nat, b: Bounds, height: map<Page, nat>,
                  root: Page, leaves: seq<Page>, r: Page, rs: seq<Slot>, x: Page)
    requires GrowPre(nodes, degree, b, height, root, leaves, r, rs) && x in nodes
    ensures root in height
    ensures PageSound(x, nodes[r := Node(Inter, rs, 1)], degree, height[r := height[root] + 1], r)
    ensures NodeOrdered(x, nodes[x], GrowBounds(b, root, r), height[r := height[root] + 1], leaves)
  {
    assert PageSound(root, nodes, degree, height, root);
    var nodes', h', b' := nodes[r := Node(Inter, rs, 1)], height[r := height[root] + 1], GrowBounds(b, root, r);
    assert PageSound(x, nodes, degree, height, root);
    assert NodeOrdered(x, nodes[x], b, height, leaves);
    var n := nodes[x];
    if n.kind == Inter {
      forall j | 0 <= j < n.len && n.s[j].v.Child? ensures ChildSound(n.s[j].v.page, height[x], nodes', h', r) {
        assert ChildSound(n.s[j].v.page, height[x], nodes, height, root);
      }
      forall j | 0 <= j < n.len ensures SlotOk(x, n.s, n.len, j, b', h', leaves) {
        assert SlotOk(x, n.s, n.len, j, b, height, leaves);
        if n.s[j].v.Child? {
          assert ChildSound(n.s[j].v.page, height[x], nodes, height, root);
        }
      }
    }
  }

  /** Growing the tree by a new root keeps it sound and ordered and keeps
      its contents. */
  lemma GrowRoot(nodes: map<Page, Node>, degree: nat, b: Bounds, height: map<Page, nat>,
                 root: Page, leaves: seq<Page>, r: Page, rs: seq<Slot>)
    requires GrowPre(nodes, degree, b, height, root, leaves, r, rs)
    ensures root in height
    ensures var nodes', h' := nodes[r := Node(Inter, rs, 1)], height[r := height[root] + 1];
      TreeSound(nodes', degree, h', r, leaves) && TreeOrdered(nodes', GrowBounds(b, root, r), h', r, leaves) &&
      Listed(nodes, leaves) && Listed(nodes', leaves) && Items(nodes', leaves) == Items(nodes, leaves)
  {
    assert PageSound(root, nodes, degree, height, root);
    var nodes', h', b' := nodes[r := Node(Inter, rs, 1)], height[r := height[root] + 1], GrowBounds(b, root, r);
    forall x | x in nodes' ensures PageSound(x, nodes', degree, h', r) && NodeOrdered(x, nodes'[x], b', h', leaves) {
      if x == r {
        assert NodeSound(nodes'[r], h'[r], degree, nodes', h', r) by {
          assert ChildSound(root, h'[r], nodes', h', r);
        }
        assert nodes'[r].s[..1] == [rs[0]];
        assert SlotOk(r, rs, 1, 0, b', h', leaves) by {
          assert nodes[root].kind == Leaf ==> root in leaves;
        }
      } else {
        GrowKeeps(nodes, degree, b, height, root, leaves, r, rs, x);
      }
    }
    forall i | 0 <= i < |leaves| ensures leaves[i] != r && leaves[i] in nodes {
    }
    ChainSame(leaves, b, b');
    SoundListed(nodes, degree, height, root, leaves);
    ItemsSame(nodes, nodes', leaves);
  }

  /** Everything the split step keeps: soundness, order and contents. */
  lemma SplitKeepsAll(nodes: map<Page, Node>, degree: nat, b: Bounds, height: map<Page, nat>,
                      root: Page, leaves: seq<Page>, p: Page, f: Page, ip: int, q: Page, qn: Node,
                      leaves': seq<Page>)
    requires SplitPre(nodes, degree, b, height, root, leaves, p, f, ip, q)
    requires UpperHalf(qn, nodes[p], degree)
    requires LeavesAfter(leaves, leaves', nodes[p].kind, p, q)
    ensures Keep(nodes[p]) < |nodes[p].s|
    ensures var nodes', b', h' := SplitNodes(nodes, p, f, ip, q, qn), SplitBounds(b, p, q, Sep(nodes[p]), f), height[q := height[p]];
      TreeSound(nodes', degree, h', root, leaves') && TreeOrdered(nodes', b', h', root, leaves') &&
      Listed(nodes, leaves) && Listed(nodes', leaves') && Items(nodes', leaves') == Items(nodes, leaves)
  {
    SplitSound(nodes, degree, b, height, root, leaves, p, f, ip, q, qn, leaves');
    SplitOrdered(nodes, degree, b, height, root, leaves, p, f, ip, q, qn, leaves');
    SplitItems(nodes, degree, b, height, root, leaves, p, f, ip, q, qn, leaves');
  }

  /** The page work of the split step (bptree.c:231-246, 261): the upper
      half of the full page `page` is copied to a fresh page `n`, and
      `page_insert` enters `n` into `f` right after the slot `at` that the
      binary search for `n`'s first key answers. */
  method SplitPages(page: Page, f: Page, degree: nat) returns (n: Page, ghost at: int)
    requires page != f && page.kv != f.kv && degree >= 2
    requires page.length == degree + page.First() <= page.kv.Length
    requires 0 < f.length < f.kv.Length && f.kind == Inter
    modifies page, f, f.kv
    ensures fresh(n) && fresh(n.kv) && n.kind == page.kind
    ensures 0 <= Keep(old(NodeOf(page))) < |old(NodeOf(page)).s|
    ensures page.kind == old(page.kind) && page.kv[..] == old(page.kv[..]) && page.length == Keep(old(NodeOf(page)))
    ensures UpperHalf(NodeOf(n), old(NodeOf(page)), degree)
    ensures -1 <= at < old(f.length) && SearchAnswer(old(f.kv[..]), old(f.length), Sep(old(NodeOf(page))), at)
    ensures NodeOf(f) == FatherAfter(old(NodeOf(f)), at, Sep(old(NodeOf(page))), n)
  {
    ghost var np, nf := NodeOf(page), NodeOf(f);
    n := Carve(page, degree);
    ghost var qn := NodeOf(n);
    ghost var key := n.kv[n.First()].k;
    at := f.InsertChild(n);
    assert NodeOf(n) == qn;
    assert f.kv[..] == Inserted(nf.s, nf.len, at, Slot(key, Child(n)));
  }

  /** The copy half of the split step (bptree.c:231-246): a fresh page `n`
      of the same kind takes the upper half of the full page `page`, whose
      first moved key is the separator. */
  method Carve(page: Page, degree: nat) returns (n: Page)
    requires degree >= 2 && page.length == degree + page.First() <= page.kv.Length
    modifies page
    ensures fresh(n) && fresh(n.kv) && n.kind == page.kind && page.kind == old(page.kind)
    ensures 0 <= Keep(old(NodeOf(page))) < |old(NodeOf(page)).s|
    ensures page.kv[..] == old(page.kv[..]) && page.length == Keep(old(NodeOf(page)))
    ensures UpperHalf(NodeOf(n), old(NodeOf(page)), degree)
    ensures n.First() < n.length <= n.kv.Length && n.kv[n.First()].k == Sep(old(NodeOf(page)))
  {
    ghost var np := NodeOf(page);
    var first := page.First();
    n := new Page(page.kind, degree);
    ghost var blank := n.kv[..];
    n.TakeUpperHalf(page, first);
    assert page.kv[..] == np.s && first == FirstOf(np.kind);
    assert page.length == Keep(np);
    assert page.kv[page.length..np.len] == np.s[Keep(np)..np.len];
    UpperHalfOf(np, degree, blank, n.kv[..], n.length);
  }

  /** `list_add` puts `q` right after `p` on the leaf list when leaves are
      split. */
  lemma StepLeaves(nodes: map<Page, Node>, degree: nat, b: Bounds, height: map<Page, nat>,
                   root: Page, leaves: seq<Page>, p: Page, f: Page, ip: int, q: Page)
    requires StepPre(nodes, degree, b, height, root, leaves, p, f, ip)
    ensures LeavesAfter(leaves, if nodes[p].kind == Leaf then AddAfter(leaves, p, q) else leaves, nodes[p].kind, p, q)
  {
    if nodes[p].kind == Leaf {
      StepFacts(nodes, degree, b, height, root, leaves, p, f, ip);
      var a :| 0 <= a < |leaves| && leaves[a] == p;
      AddAfterAt(leaves, p, q, a);
    }
  }
}
