/** What `bp_remove` and `merge` (bptree/bptree.c:332-459) do to the tree,
    stated on the value view: the node each page change leaves behind, why
    every change keeps the tree sound, and why the changes at the leaves of
    an ordered tree keep its contents apart from the removed entry.

    Only the structural invariant is carried through the whole cascade. At
    the leaves the search-tree invariant is what tells that the sibling
    `merge` picks is the next leaf on the list; above the leaves the
    cascade changes no leaf and leaves the list alone, so the contents stay
    as they are whatever the internal pages look like. */
module BPlusMerge {
  import opened Keys
  import opened BPlusPage
  import opened BPlusContents
  import opened BPlusShape
  import opened BPlusSplit
  import opened BPlusView

  /** A structurally sound tree: degree at least 2, the view's maps speak
      of allocated pages, every page is sound and the leaf list is made of
      distinct leaves. */
  ghost predicate Firm(g: View, degree: nat, root: Page, leaves: seq<Page>)
  {
    degree >= 2 && Fits(g) && TreeSound(g.nodes, degree, g.height, root, leaves)
  }

  /** From `g` to `g'` only what the pages hold changed: the same pages,
      entry arrays, levels and intervals. */
  ghost predicate Same(g: View, g': View)
  {
    g'.Repr == g.Repr && g'.owner == g.owner && g'.height == g.height && g'.bounds == g.bounds &&
    g'.nodes.Keys == g.nodes.Keys
  }

  /** The length below which `bp_remove` merges a leaf (bptree.c:452) and
      `merge` merges an internal page (bptree.c:423). */
  function Underfull(kind: Kind, length: int, degree: int): bool
  {
    length < (degree + FirstOf(kind) - 1) / 2 + 1
  }

  /** Below that length an access that removes an entry is not safe, and
      the page can take one more entry. */
  lemma UnderfullRoom(kind: Kind, length: int, degree: int)
    requires degree >= 2 && 0 <= length && Underfull(kind, length, degree)
    ensures !IsSafe(kind, length, degree, Del)
    ensures length + 1 <= degree
  {
  }

  /** The node after slot `idx` of its used slots is removed. */
  function Cut(n: Node, idx: int): Node
    requires 0 <= idx < n.len <= |n.s|
  {
    Node(n.kind, Removed(n.s, n.len, idx), n.len - 1)
  }

  /** The node after the used slots of `m` from `first` on are copied in
      after its own. */
  function Absorbed(n: Node, m: Node, first: int): Node
    requires 0 <= first <= m.len <= |m.s| && 0 <= n.len && n.len + m.len - first <= |n.s|
  {
    Node(n.kind, Appended(n.s, n.len, m.s[first..m.len]), n.len + m.len - first)
  }

  /** The node after `x` is written past its used slots and counted. */
  function Pushed(n: Node, x: Slot): Node
    requires 0 <= n.len < |n.s|
  {
    Node(n.kind, n.s[n.len := x], n.len + 1)
  }

  /** The node after the key of slot `idx` is overwritten. */
  function Rekeyed(n: Node, idx: int, key: Key): Node
    requires 0 <= idx < |n.s|
  {
    Node(n.kind, n.s[idx := Slot(key, n.s[idx].v)], n.len)
  }

  /** The used slots after a merge: this page's, then the sibling's from
      `first` on. */
  lemma AbsorbedUsed(n: Node, m: Node, first: int)
    requires 0 <= first <= m.len <= |m.s| && 0 <= n.len && n.len + m.len - first <= |n.s|
    ensures Used(Absorbed(n, m, first)) == Used(n) + m.s[first..m.len]
  {
    var t := Absorbed(n, m, first).s;
    assert t[..n.len + m.len - first] == t[..n.len] + t[n.len..n.len + m.len - first];
  }

  /** The used slots after a borrow: the page gains `x` at its end, the
      sibling loses its slot `first`. */
  lemma BorrowUsed(n: Node, m: Node, first: int)
    requires 0 <= n.len < |n.s| && 0 <= first < m.len <= |m.s|
    ensures Used(Pushed(n, m.s[first])) == Used(n) + [m.s[first]]
    ensures Used(m)[..first] + [m.s[first]] + Used(Cut(m, first))[first..] == Used(m)
    ensures Used(Cut(m, first))[..first] == Used(m)[..first]
    ensures first == 0 ==> [m.s[0]] + Used(Cut(m, 0)) == Used(m)
  {
    var t := Used(Cut(m, first));
    assert t[first..] == m.s[first + 1..m.len];
    assert Used(m) == Used(m)[..first] + [m.s[first]] + m.s[first + 1..m.len];
  }

  /** `list_del` (bptree.c:361, 396): the list without page `p`; a list
      without `p` is left alone. */
  function Without(ls: seq<Page>, p: Page): (r: seq<Page>)
    ensures |r| <= |ls|
  {
    if ls == [] then []
    else if ls[0] == p then Without(ls[1..], p)
    else [ls[0]] + Without(ls[1..], p)
  }

  /** Every page left by `Without` was on the list and is not `p`. */
  lemma {:induction false} WithoutMembers(ls: seq<Page>, p: Page)
    ensures forall i :: 0 <= i < |Without(ls, p)| ==> Without(ls, p)[i] in ls && Without(ls, p)[i] != p
  {
    if ls != [] {
      WithoutMembers(ls[1..], p);
      var w := Without(ls[1..], p);
      if ls[0] != p {
        forall i | 0 <= i < |[ls[0]] + w| ensures ([ls[0]] + w)[i] in ls && ([ls[0]] + w)[i] != p {
          if i > 0 {
            assert ([ls[0]] + w)[i] == w[i - 1];
          }
        }
      }
    }
  }

  /** A list without `p` is left alone. */
  lemma {:induction false} WithoutAbsent(ls: seq<Page>, p: Page)
    requires p !in ls
    ensures Without(ls, p) == ls
  {
    if ls != [] {
      assert ls[0] != p;
      WithoutAbsent(ls[1..], p);
      assert ls == [ls[0]] + ls[1..];
    }
  }

  /** When `p` sits only at position `a`, `Without` drops exactly that
      position. */
  lemma {:induction false} WithoutAt(ls: seq<Page>, p: Page, a: int)
    requires 0 <= a < |ls| && ls[a] == p && p !in ls[..a] && p !in ls[a + 1..]
    ensures Without(ls, p) == ls[..a] + ls[a + 1..]
  {
    if a == 0 {
      WithoutAbsent(ls[1..], p);
      assert ls[..0] + ls[1..] == ls[1..];
    } else {
      assert ls[0] == ls[..a][0];
      var t := ls[1..];
      assert t[..a - 1] == ls[1..a] && t[a..] == ls[a + 1..] && t[a - 1] == p;
      assert p !in ls[1..a] by {
        forall i | 0 <= i < a - 1 ensures ls[1..a][i] != p {
          assert ls[1..a][i] == ls[..a][i + 1];
        }
      }
      WithoutAt(t, p, a - 1);
      assert ls[..a] == [ls[0]] + ls[1..a];
    }
  }

  /** In a list of distinct pages, the page at `a` occurs nowhere else. */
  lemma DistinctAt(ls: seq<Page>, a: int)
    requires 0 <= a < |ls| && forall i, j | 0 <= i < j < |ls| :: ls[i] != ls[j]
    ensures ls[a] !in ls[..a] && ls[a] !in ls[a + 1..]
  {
    forall i | 0 <= i < a ensures ls[..a][i] != ls[a] {
      assert ls[..a][i] == ls[i];
    }
    var t := ls[a + 1..];
    forall i | 0 <= i < |t| ensures t[i] != ls[a] {
      assert t[i] == ls[a + 1 + i];
    }
  }

  /** Removing a used slot keeps a node sound. */
  lemma CutSound(n: Node, idx: int, h: nat, degree: nat, nodes: map<Page, Node>, height: map<Page, nat>, root: Page)
    requires NodeSound(n, h, degree, nodes, height, root) && 0 <= idx < n.len
    ensures NodeSound(Cut(n, idx), h, degree, nodes, height, root)
  {
    var t := Cut(n, idx).s;
    forall j | 0 <= j < n.len - 1 ensures t[j] == n.s[if j < idx then j else j + 1] {
    }
  }

  /** Copying in the used slots of a sound node of the same level and type
      keeps a node sound when the total fits `degree`. */
  lemma AbsorbedSound(n: Node, m: Node, first: int, h: nat, degree: nat,
                      nodes: map<Page, Node>, height: map<Page, nat>, root: Page)
    requires NodeSound(n, h, degree, nodes, height, root) && NodeSound(m, h, degree, nodes, height, root)
    requires n.kind == m.kind && 0 <= first <= m.len && n.len + m.len - first <= degree
    ensures NodeSound(Absorbed(n, m, first), h, degree, nodes, height, root)
  {
    var t := Absorbed(n, m, first).s;
    forall j | 0 <= j < n.len + m.len - first
      ensures t[j] == if j < n.len then n.s[j] else m.s[j - n.len + first]
    {
      if j < n.len {
        assert t[..n.len][j] == n.s[..n.len][j];
      } else {
        assert t[n.len..n.len + (m.len - first)][j - n.len] == m.s[first..m.len][j - n.len];
      }
    }
  }

  /** Writing a used slot of a sound node of the same level and type past
      the used slots keeps a node sound when it has room. */
  lemma PushedSound(n: Node, m: Node, first: int, h: nat, degree: nat,
                    nodes: map<Page, Node>, height: map<Page, nat>, root: Page)
    requires NodeSound(n, h, degree, nodes, height, root) && NodeSound(m, h, degree, nodes, height, root)
    requires n.kind == m.kind && 0 <= first < m.len && n.len + 1 <= degree
    ensures NodeSound(Pushed(n, m.s[first]), h, degree, nodes, height, root)
  {
  }

  /** Overwriting a key keeps a node sound. */
  lemma RekeyedSound(n: Node, idx: int, key: Key, h: nat, degree: nat,
                     nodes: map<Page, Node>, height: map<Page, nat>, root: Page)
    requires NodeSound(n, h, degree, nodes, height, root) && 0 <= idx < |n.s|
    ensures NodeSound(Rekeyed(n, idx, key), h, degree, nodes, height, root)
  {
    var t := Rekeyed(n, idx, key).s;
    assert forall j :: 0 <= j < |n.s| ==> t[j].v == n.s[j].v;
  }

  /** Giving a page of a sound tree a sound node of the same type at its
      level keeps the tree sound. */
  lemma Replace(nodes: map<Page, Node>, degree: nat, height: map<Page, nat>, root: Page, leaves: seq<Page>,
                p: Page, n': Node)
    requires TreeSound(nodes, degree, height, root, leaves) && p in nodes && p in height
    requires NodeSound(n', height[p], degree, nodes, height, root) && n'.kind == nodes[p].kind
    ensures TreeSound(nodes[p := n'], degree, height, root, leaves)
  {
    var nodes' := nodes[p := n'];
    forall x | x in nodes' ensures PageSound(x, nodes', degree, height, root) {
      if x == p {
        NodeSoundGrow(n', height[p], degree, nodes, height, nodes', height, root);
      } else {
        assert PageSound(x, nodes, degree, height, root);
        NodeSoundGrow(nodes[x], height[x], degree, nodes, height, nodes', height, root);
      }
    }
  }

  /** Dropping a page from the leaf list keeps a sound tree sound. */
  lemma WithoutSound(nodes: map<Page, Node>, degree: nat, height: map<Page, nat>, root: Page, leaves: seq<Page>, p: Page)
    requires TreeSound(nodes, degree, height, root, leaves)
    ensures TreeSound(nodes, degree, height, root, Without(leaves, p))
  {
    if p in leaves {
      var a :| 0 <= a < |leaves| && leaves[a] == p;
      DistinctAt(leaves, a);
      WithoutAt(leaves, p, a);
      var ls := Without(leaves, p);
      forall i | 0 <= i < |ls| ensures ls[i] == leaves[if i < a then i else i + 1] {
        if i < a {
          assert ls[i] == leaves[..a][i];
        } else {
          assert ls[i] == leaves[a + 1..][i - a];
        }
      }
      forall i, j | 0 <= i < j < |ls| ensures ls[i] != ls[j] {
        var i', j' := if i < a then i else i + 1, if j < a then j else j + 1;
        assert ls[i] == leaves[i'] && ls[j] == leaves[j'];
      }
    } else {
      WithoutAbsent(leaves, p);
    }
  }

  /** A list whose pages are all on a listed list is listed. */
  lemma ListedMembers(nodes: map<Page, Node>, ls: seq<Page>, r: seq<Page>)
    requires Listed(nodes, ls) && forall i :: 0 <= i < |r| ==> r[i] in ls
    ensures Listed(nodes, r)
  {
    forall i | 0 <= i < |r| ensures r[i] in nodes && 0 <= nodes[r[i]].len <= |nodes[r[i]].s| {
      assert r[i] in ls;
    }
  }

  /** Dropping a page with no used slots from a list keeps its contents. */
  lemma {:induction false} ItemsWithoutEmpty(nodes: map<Page, Node>, ls: seq<Page>, p: Page)
    requires Listed(nodes, ls) && p in nodes && 0 == nodes[p].len <= |nodes[p].s|
    ensures Listed(nodes, Without(ls, p)) && Items(nodes, Without(ls, p)) == Items(nodes, ls)
  {
    WithoutMembers(ls, p);
    ListedMembers(nodes, ls, Without(ls, p));
    if ls != [] {
      ListedParts(nodes, ls, 1, |ls|);
      assert ls[1..|ls|] == ls[1..];
      ItemsWithoutEmpty(nodes, ls[1..], p);
      var w := Without(ls[1..], p);
      if ls[0] == p {
        assert Without(ls, p) == w;
        assert Used(nodes[p]) == [];
      } else {
        var r := [ls[0]] + w;
        assert r[0] == ls[0] && r[1..] == w;
      }
    }
  }

  /** The contents of `ls` around its neighbouring pages `a` and `a + 1`. */
  lemma ItemsAroundTwo(nodes: map<Page, Node>, ls: seq<Page>, a: int)
    requires Listed(nodes, ls) && 0 <= a && a + 1 < |ls|
    ensures Listed(nodes, ls[..a]) && Listed(nodes, ls[a + 2..])
    ensures Items(nodes, ls) ==
      Items(nodes, ls[..a]) + Used(nodes[ls[a]]) + Used(nodes[ls[a + 1]]) + Items(nodes, ls[a + 2..])
  {
    ItemsAround(nodes, ls, a);
    var rest := ls[a + 1..];
    ItemsAround(nodes, rest, 0);
    assert rest[..0] == [] && rest[0] == ls[a + 1] && rest[1..] == ls[a + 2..];
  }

  /** Pages outside `a` and `a + 1` kept their nodes, so the contents
      before and after those two are the same. */
  lemma ItemsOutside(nodes: map<Page, Node>, nodes': map<Page, Node>, ls: seq<Page>, a: int)
    requires Listed(nodes, ls) && 0 <= a && a + 1 < |ls|
    requires forall i | 0 <= i < |ls| && i != a && i != a + 1 ::
      ls[i] in nodes' && nodes'[ls[i]] == nodes[ls[i]]
    ensures Listed(nodes, ls[..a]) && Listed(nodes, ls[a + 2..])
    ensures Listed(nodes', ls[..a]) && Items(nodes', ls[..a]) == Items(nodes, ls[..a])
    ensures Listed(nodes', ls[a + 2..]) && Items(nodes', ls[a + 2..]) == Items(nodes, ls[a + 2..])
  {
    var before, after := ls[..a], ls[a + 2..];
    ListedParts(nodes, ls, 0, a);
    ListedParts(nodes, ls, a + 2, |ls|);
    assert ls[0..a] == before && ls[a + 2..|ls|] == after;
    forall i | 0 <= i < |before| ensures before[i] in nodes' && nodes'[before[i]] == nodes[before[i]] {
      assert before[i] == ls[i];
    }
    forall i | 0 <= i < |after| ensures after[i] in nodes' && nodes'[after[i]] == nodes[after[i]] {
      assert after[i] == ls[a + 2 + i];
    }
    ItemsSame(nodes, nodes', before);
    ItemsSame(nodes, nodes', after);
  }

  /** The contents after leaf `a` took in every entry of the next leaf,
      which left the list: the same. */
  lemma AbsorbItems(nodes: map<Page, Node>, nodes': map<Page, Node>, leaves: seq<Page>, a: int)
    requires Listed(nodes, leaves) && 0 <= a && a + 1 < |leaves|
    requires forall i | 0 <= i < |leaves| && i != a && i != a + 1 ::
      leaves[i] in nodes' && nodes'[leaves[i]] == nodes[leaves[i]]
    requires leaves[a] in nodes' && 0 <= nodes'[leaves[a]].len <= |nodes'[leaves[a]].s|
    requires Used(nodes'[leaves[a]]) == Used(nodes[leaves[a]]) + Used(nodes[leaves[a + 1]])
    ensures Listed(nodes', leaves[..a + 1] + leaves[a + 2..])
    ensures Items(nodes', leaves[..a + 1] + leaves[a + 2..]) == Items(nodes, leaves)
  {
    var before, after := leaves[..a], leaves[a + 2..];
    ItemsAroundTwo(nodes, leaves, a);
    var l, u, v, r := Items(nodes, before), Used(nodes[leaves[a]]), Used(nodes[leaves[a + 1]]), Items(nodes, after);
    assert Listed(nodes', before) && Items(nodes', before) == l by {
      ItemsOutside(nodes, nodes', leaves, a);
    }
    assert Listed(nodes', after) && Items(nodes', after) == r by {
      ItemsOutside(nodes, nodes', leaves, a);
    }
    var ls' := leaves[..a + 1] + after;
    assert Listed(nodes', ls') && Items(nodes', ls') == l + (u + v) + r by {
      SkipNext(leaves, a);
      ItemsJoin(nodes', before, leaves[a], after);
    }
    Regroup(l, u, v, r);
  }

  lemma SkipNext(ls: seq<Page>, a: int)
    requires 0 <= a && a + 1 < |ls|
    ensures ls[..a + 1] + ls[a + 2..] == ls[..a] + [ls[a]] + ls[a + 2..]
  {
    assert ls[..a + 1] == ls[..a] + [ls[a]];
  }

  lemma Regroup(l: seq<Slot>, u: seq<Slot>, v: seq<Slot>, r: seq<Slot>)
    ensures l + (u + v) + r == l + u + v + r
  {
  }

  /** The contents of a listed run, a page and a listed run. */
  lemma ItemsJoin(nodes: map<Page, Node>, b: seq<Page>, x: Page, c: seq<Page>)
    requires Listed(nodes, b) && Listed(nodes, c) && x in nodes && 0 <= nodes[x].len <= |nodes[x].s|
    ensures Listed(nodes, b + [x] + c)
    ensures Items(nodes, b + [x] + c) == Items(nodes, b) + Used(nodes[x]) + Items(nodes, c)
  {
    var ls := b + [x] + c;
    forall i | 0 <= i < |ls| ensures ls[i] in nodes && 0 <= nodes[ls[i]].len <= |nodes[ls[i]].s| {
      if i < |b| {
        assert ls[i] == b[i];
      } else if i > |b| {
        assert ls[i] == c[i - |b| - 1];
      }
    }
    ItemsAround(nodes, ls, |b|);
    assert ls[..|b|] == b && ls[|b|] == x && ls[|b| + 1..] == c;
  }

  /** The contents after leaf `a` took the first entry of the next leaf,
      which lost it: the same. */
  lemma BorrowItems(nodes: map<Page, Node>, nodes': map<Page, Node>, leaves: seq<Page>, a: int, x: Slot)
    requires Listed(nodes, leaves) && 0 <= a && a + 1 < |leaves|
    requires forall i | 0 <= i < |leaves| && i != a && i != a + 1 ::
      leaves[i] in nodes' && nodes'[leaves[i]] == nodes[leaves[i]]
    requires leaves[a] in nodes' && 0 <= nodes'[leaves[a]].len <= |nodes'[leaves[a]].s|
    requires leaves[a + 1] in nodes' && 0 <= nodes'[leaves[a + 1]].len <= |nodes'[leaves[a + 1]].s|
    requires Used(nodes'[leaves[a]]) == Used(nodes[leaves[a]]) + [x]
    requires Used(nodes[leaves[a + 1]]) == [x] + Used(nodes'[leaves[a + 1]])
    ensures Listed(nodes', leaves) && Items(nodes', leaves) == Items(nodes, leaves)
  {
    assert Listed(nodes', leaves);
    ItemsOutside(nodes, nodes', leaves, a);
    var l, r := Items(nodes, leaves[..a]), Items(nodes, leaves[a + 2..]);
    var u, v := Used(nodes[leaves[a]]), Used(nodes'[leaves[a + 1]]);
    assert Items(nodes', leaves) == l + (u + [x]) + v + r by {
      ItemsAroundTwo(nodes', leaves, a);
    }
    assert Items(nodes, leaves) == l + u + ([x] + v) + r by {
      ItemsAroundTwo(nodes, leaves, a);
    }
    RegroupMid(l, u, [x], v, r);
  }

  lemma RegroupMid(l: seq<Slot>, u: seq<Slot>, m: seq<Slot>, v: seq<Slot>, r: seq<Slot>)
    ensures l + (u + m) + v + r == l + u + (m + v) + r
  {
  }

  /** Removing slot `idx` of a page keeps a sound tree sound. */
  lemma CutTree(nodes: map<Page, Node>, degree: nat, height: map<Page, nat>, root: Page, leaves: seq<Page>,
                p: Page, idx: int)
    requires TreeSound(nodes, degree, height, root, leaves) && p in nodes
    requires 0 <= idx < nodes[p].len <= |nodes[p].s|
    ensures TreeSound(nodes[p := Cut(nodes[p], idx)], degree, height, root, leaves)
  {
    assert PageSound(p, nodes, degree, height, root);
    CutSound(nodes[p], idx, height[p], degree, nodes, height, root);
    Replace(nodes, degree, height, root, leaves, p, Cut(nodes[p], idx));
  }

  /** Copying the used slots of `q` from `first` on into a page `p` of
      the same level keeps a sound tree sound when the total fits
      `degree`. */
  lemma AbsorbTree(nodes: map<Page, Node>, degree: nat, height: map<Page, nat>, root: Page, leaves: seq<Page>,
                   p: Page, q: Page, first: int)
    requires TreeSound(nodes, degree, height, root, leaves) && p in nodes && q in nodes
    requires p in height && q in height && height[p] == height[q]
    requires 0 <= first <= nodes[q].len <= |nodes[q].s| && 0 <= nodes[p].len
    requires nodes[p].len + nodes[q].len - first <= degree && nodes[p].len + nodes[q].len - first <= |nodes[p].s|
    ensures TreeSound(nodes[p := Absorbed(nodes[p], nodes[q], first)], degree, height, root, leaves)
  {
    assert PageSound(p, nodes, degree, height, root);
    assert PageSound(q, nodes, degree, height, root);
    AbsorbedSound(nodes[p], nodes[q], first, height[p], degree, nodes, height, root);
    Replace(nodes, degree, height, root, leaves, p, Absorbed(nodes[p], nodes[q], first));
  }

  /** Writing slot `first` of `q` past the used slots of a page `p` of the
      same level keeps a sound tree sound when `p` has room. */
  lemma PushTree(nodes: map<Page, Node>, degree: nat, height: map<Page, nat>, root: Page, leaves: seq<Page>,
                 p: Page, q: Page, first: int)
    requires TreeSound(nodes, degree, height, root, leaves) && p in nodes && q in nodes
    requires p in height && q in height && height[p] == height[q]
    requires 0 <= first < nodes[q].len <= |nodes[q].s| && 0 <= nodes[p].len < degree && nodes[p].len < |nodes[p].s|
    ensures TreeSound(nodes[p := Pushed(nodes[p], nodes[q].s[first])], degree, height, root, leaves)
  {
    assert PageSound(p, nodes, degree, height, root);
    assert PageSound(q, nodes, degree, height, root);
    PushedSound(nodes[p], nodes[q], first, height[p], degree, nodes, height, root);
    Replace(nodes, degree, height, root, leaves, p, Pushed(nodes[p], nodes[q].s[first]));
  }

  /** Overwriting a key keeps a sound tree sound. */
  lemma RekeyTree(nodes: map<Page, Node>, degree: nat, height: map<Page, nat>, root: Page, leaves: seq<Page>,
                  p: Page, idx: int, key: Key)
    requires TreeSound(nodes, degree, height, root, leaves) && p in nodes && 0 <= idx < |nodes[p].s|
    ensures TreeSound(nodes[p := Rekeyed(nodes[p], idx, key)], degree, height, root, leaves)
  {
    assert PageSound(p, nodes, degree, height, root);
    RekeyedSound(nodes[p], idx, key, height[p], degree, nodes, height, root);
    Replace(nodes, degree, height, root, leaves, p, Rekeyed(nodes[p], idx, key));
  }

  /** Counting one used slot less removes the last used slot. */
  lemma ShortenCut(n: Node)
    requires 0 < n.len <= |n.s|
    ensures Cut(n, n.len - 1) == Node(n.kind, n.s, n.len - 1)
  {
    assert Removed(n.s, n.len, n.len - 1) == n.s;
  }

  /** Turning the root without entries into a leaf at level 0
      (bptree.c:336-338) keeps a sound tree sound. */
  lemma RetypeTree(nodes: map<Page, Node>, degree: nat, height: map<Page, nat>, root: Page, leaves: seq<Page>)
    requires TreeSound(nodes, degree, height, root, leaves) && nodes[root].len == 0
    ensures TreeSound(nodes[root := Node(Leaf, nodes[root].s, 0)], degree, height[root := 0], root, leaves)
  {
    var nodes', height' := nodes[root := Node(Leaf, nodes[root].s, 0)], height[root := 0];
    assert PageSound(root, nodes, degree, height, root);
    forall x | x in nodes' ensures PageSound(x, nodes', degree, height', root) {
      if x != root {
        assert PageSound(x, nodes, degree, height, root);
        var n := nodes[x];
        if n.kind == Inter {
          forall j | 0 <= j < n.len && n.s[j].v.Child? ensures ChildSound(n.s[j].v.page, height'[x], nodes', height', root) {
            assert ChildSound(n.s[j].v.page, height[x], nodes, height, root);
          }
        }
      }
    }
  }

  /** The root is on the leaf list whenever it is a leaf, as `bp_create`
      (bptree.c:52) makes it; `bp_range` only walks that list. */
  ghost predicate RootListed(nodes: map<Page, Node>, root: Page, leaves: seq<Page>)
  {
    root in nodes && (nodes[root].kind == Leaf ==> root in leaves)
  }

  /** As written, `merge` turns an internal root that has lost its last
      child into a leaf (bptree.c:335-338) without adding it to the leaf
      list: the retyped root is a leaf off the list, so the tree is no
      longer a search tree whatever the intervals, and an entry written
      into the root afterwards (node `n`) never reaches the contents the
      leaf list holds. */
  lemma RetypedRootOffList(nodes: map<Page, Node>, degree: nat, height: map<Page, nat>, root: Page,
                           leaves: seq<Page>, b: Bounds, n: Node)
    requires TreeSound(nodes, degree, height, root, leaves)
    requires nodes[root].kind == Inter && nodes[root].len == 0
    ensures var nodes' := nodes[root := Node(Leaf, nodes[root].s, 0)];
      nodes'[root].kind == Leaf && root !in leaves && !RootListed(nodes', root, leaves) &&
      !TreeOrdered(nodes', b, height[root := 0], root, leaves) &&
      Listed(nodes, leaves) && Listed(nodes'[root := n], leaves) &&
      Items(nodes'[root := n], leaves) == Items(nodes, leaves)
  {
    var nodes' := nodes[root := Node(Leaf, nodes[root].s, 0)];
    forall i | 0 <= i < |leaves| ensures leaves[i] != root {
      assert nodes[leaves[i]].kind == Leaf;
    }
    InnerOff(nodes, nodes'[root := n], degree, height, root, leaves);
  }

  /** With the retyped root put at the head of the leaf list, what is
      later written into it (node `n`) comes first in the contents. */
  lemma RootSeen(nodes: map<Page, Node>, root: Page, leaves: seq<Page>, n: Node)
    requires Listed(nodes, leaves) && root !in leaves && root in nodes && 0 <= n.len <= |n.s|
    ensures Listed(nodes[root := n], [root] + leaves)
    ensures Items(nodes[root := n], [root] + leaves) == Used(n) + Items(nodes, leaves)
  {
    var nodes' := nodes[root := n];
    ItemsOff(nodes, nodes', leaves, root);
    assert ([root] + leaves)[1..] == leaves;
  }

  /** A leaf root that is off the list may go at its head. */
  lemma PrependRoot(nodes: map<Page, Node>, degree: nat, height: map<Page, nat>, root: Page, leaves: seq<Page>)
    requires TreeSound(nodes, degree, height, root, leaves) && nodes[root].kind == Leaf && root !in leaves
    ensures TreeSound(nodes, degree, height, root, [root] + leaves)
  {
    var ls := [root] + leaves;
    forall i | 0 <= i < |ls| ensures ls[i] in nodes && nodes[ls[i]].kind == Leaf {
      if i > 0 {
        assert ls[i] == leaves[i - 1];
      }
    }
    forall i, j | 0 <= i < j < |ls| ensures ls[i] != ls[j] {
      assert ls[j] == leaves[j - 1];
      if i > 0 {
        assert ls[i] == leaves[i - 1];
      }
    }
  }

  /** Updating a page off the list `ls` keeps what `ls` holds. */
  lemma {:induction false} ItemsOff(nodes: map<Page, Node>, nodes': map<Page, Node>, ls: seq<Page>, p: Page)
    requires Listed(nodes, ls) && p !in ls && p in nodes && nodes'.Keys == nodes.Keys
    requires forall x | x in nodes && x != p :: nodes'[x] == nodes[x]
    ensures Listed(nodes', ls) && Items(nodes', ls) == Items(nodes, ls)
  {
    if ls != [] {
      ItemsOff(nodes, nodes', ls[1..], p);
    }
  }

  /** As written, the page `split` makes from an internal page never gets
      slot 0 written (bptree.c:230-243: the copy starts at slot 1). Once
      the last of its other children is unlinked (bptree.c:353-357) only
      that slot is left: the page is not empty, so `merge` leaves it in
      place when it has no right sibling (bptree.c:353, 370-372), and every
      search in it answers slot 0, the child `find` follows next
      (bptree.c:201). */
  lemma SentinelLeft(n: Node, m: Node, k: Key)
    requires n.kind == Inter && 2 == n.len <= |n.s| && n.s[0] == Slot(0, Unwritten) && n.s[1].v.Child?
    requires m == Cut(n, n.len - 1)
    ensures m.kind == Inter && m.len == 1 && m.s[0].v == Unwritten
    ensures forall idx :: -1 <= idx < m.len && SearchAnswer(m.s, m.len, k, idx) ==> idx == 0
    ensures SearchAnswer(m.s, m.len, k, 0)
  {
  }

  /** Changes to pages that are not leaves keep the contents. */
  lemma InnerOff(nodes: map<Page, Node>, nodes': map<Page, Node>, degree: nat, height: map<Page, nat>,
                 root: Page, leaves: seq<Page>)
    requires TreeSound(nodes, degree, height, root, leaves)
    requires forall x | x in nodes && nodes[x].kind == Leaf :: x in nodes' && nodes'[x] == nodes[x]
    ensures Listed(nodes, leaves) && Listed(nodes', leaves) && Items(nodes', leaves) == Items(nodes, leaves)
  {
    SoundListed(nodes, degree, height, root, leaves);
    ItemsSame(nodes, nodes', leaves);
  }

  /** Removing the entry at position `m` of strictly sorted entries is
      removing its key. */
  lemma RemoveAtSorted(es: seq<Slot>, m: int)
    requires SortedKeys(es) && 0 <= m < |es|
    ensures RemoveKey(es, es[m].k) == es[..m] + es[m + 1..]
  {
    var a, b := es[..m], es[m + 1..];
    forall i | 0 <= i < |a| ensures a[i].k != es[m].k {
      assert a[i] == es[i];
    }
    forall i | 0 <= i < |b| ensures b[i].k != es[m].k {
      assert b[i] == es[m + 1 + i];
    }
    assert es == a + [es[m]] + b;
    RemoveKeyBetween(a, es[m], b);
  }

  /** In a sound, ordered tree, take a leaf `page` in slot `j` of its
      parent `fa`. Searching `fa` for the first key of `page` answers `j`,
      as `merge` expects (bptree.c:346), and the leaf sits at position `a`
      of the list. The child of slot `j + 1`, when there is one, is the
      next leaf on the list: the right sibling `merge` picks
      (bptree.c:348-351) is the leaf right after it. */
  lemma LeafSibling(nodes: map<Page, Node>, degree: nat, b: Bounds, height: map<Page, nat>, root: Page,
                    leaves: seq<Page>, fa: Page, j: int, page: Page, idx: int) returns (a: int)
    requires TreeSound(nodes, degree, height, root, leaves) && TreeOrdered(nodes, b, height, root, leaves)
    requires fa in nodes && nodes[fa].kind == Inter && 0 <= j < nodes[fa].len <= |nodes[fa].s|
    requires nodes[fa].s[j].v == Child(page) && page in nodes && nodes[page].kind == Leaf && 1 <= |nodes[page].s|
    requires -1 <= idx < nodes[fa].len && SearchAnswer(nodes[fa].s, nodes[fa].len, nodes[page].s[0].k, idx)
    ensures idx == j && 0 <= a < |leaves| && leaves[a] == page
    ensures j + 1 < nodes[fa].len ==>
      nodes[fa].s[j + 1].v.Child? && a + 1 < |leaves| && leaves[a + 1] == nodes[fa].s[j + 1].v.page
  {
    var n := nodes[fa];
    assert NodeOrdered(fa, n, b, height, leaves);
    assert PageSound(fa, nodes, degree, height, root);
    assert ChildSound(page, height[fa], nodes, height, root);
    assert PageSound(page, nodes, degree, height, root);
    assert SlotOk(fa, n.s, n.len, j, b, height, leaves);
    var h := SlotHi(n.s, n.len, j, b.hi[fa]);
    assert ChildAt(page, SlotLo(n.s, j, b.lo[fa]), h, fa, b, height, leaves);
    assert NodeOrdered(page, nodes[page], b, height, leaves);
    var k := nodes[page].s[0].k;
    var u := n.s[..n.len];
    assert u[0] == n.s[0];
    if j >= 1 {
      assert u[j] == n.s[j];
    }
    if j + 1 < n.len {
      assert u[j + 1] == n.s[j + 1];
    }
    assert idx == j;
    a :| 0 <= a < |leaves| && leaves[a] == page;
    if j + 1 < n.len {
      SiblingNext(nodes, degree, b, height, root, leaves, fa, j, a);
    }
  }

  /** The second half of `LeafSibling`: the child of slot `j + 1` owns the
      interval starting where that of leaf `a`, in slot `j`, ends, so it is
      leaf `a + 1`. */
  lemma SiblingNext(nodes: map<Page, Node>, degree: nat, b: Bounds, height: map<Page, nat>, root: Page,
                    leaves: seq<Page>, fa: Page, j: int, a: int)
    requires TreeSound(nodes, degree, height, root, leaves) && TreeOrdered(nodes, b, height, root, leaves)
    requires fa in nodes && nodes[fa].kind == Inter && 0 <= j && j + 1 < nodes[fa].len <= |nodes[fa].s|
    requires 0 <= a < |leaves| && nodes[fa].s[j].v == Child(leaves[a])
    requires fa in b.hi && leaves[a] in b.hi && b.hi[leaves[a]] == SlotHi(nodes[fa].s, nodes[fa].len, j, b.hi[fa])
    ensures nodes[fa].s[j + 1].v.Child? && a + 1 < |leaves| && leaves[a + 1] == nodes[fa].s[j + 1].v.page
  {
    var n := nodes[fa];
    assert NodeOrdered(fa, n, b, height, leaves);
    assert PageSound(fa, nodes, degree, height, root);
    assert PageSound(leaves[a], nodes, degree, height, root);
    var u := n.s[..n.len];
    if j + 2 < n.len {
      assert u[j + 1] == n.s[j + 1] && u[j + 2] == n.s[j + 2];
    } else {
      assert u[j + 1] == n.s[j + 1];
    }
    assert SlotOk(fa, n.s, n.len, j + 1, b, height, leaves);
    var sib := n.s[j + 1].v.page;
    assert ChildSound(sib, height[fa], nodes, height, root);
    assert ChildSound(leaves[a], height[fa], nodes, height, root);
    var c :| 0 <= c < |leaves| && leaves[c] == sib;
    OrderedSegment(nodes, degree, b, height, root, leaves);
    assert b.lo[sib] == n.s[j + 1].k == b.hi[leaves[a]];
    if c != a + 1 {
      if c < a {
        ChainBefore(nodes, leaves, b, c, a);
      } else if c > a + 1 {
        ChainBefore(nodes, leaves, b, a + 1, c);
      }
      assert false;
    }
  }

  /** Along consecutive intervals a leaf's interval ends at or below the
      start of any later leaf's. */
  lemma ChainBefore(nodes: map<Page, Node>, ls: seq<Page>, b: Bounds, i: int, j: int)
    requires Segment(nodes, ls, b) && 0 <= i < j < |ls|
    ensures b.hi[ls[i]] <= b.lo[ls[j]]
  {
    ChainRises(nodes, ls, b, i + 1, j);
  }

  /** Removing a used slot of an ordered leaf keeps it ordered: slot 0,
      which the parent search reads, stays inside the leaf's interval. */
  lemma CutLeafOrdered(p: Page, n: Node, b: Bounds, height: map<Page, nat>, leaves: seq<Page>, idx: int)
    requires NodeOrdered(p, n, b, height, leaves) && n.kind == Leaf && 0 <= idx < n.len
    ensures NodeOrdered(p, Cut(n, idx), b, height, leaves)
  {
    var n' := Cut(n, idx);
    RemovedSorted(n.s, n.len, idx);
    assert n.s[..n.len][0] == n.s[0];
    if 1 < n.len {
      assert n.s[..n.len][1] == n.s[1];
    }
    forall j | 0 <= j < n'.len ensures b.lo[p] <= n'.s[j].k < b.hi[p] {
      var j' := if j < idx then j else j + 1;
      assert n'.s[j] == n.s[j'] == n.s[..n.len][j'];
    }
  }

  /** Removing a used slot of a leaf keeps an ordered tree ordered. */
  lemma CutOrdered(nodes: map<Page, Node>, degree: nat, b: Bounds, height: map<Page, nat>, root: Page,
                   leaves: seq<Page>, p: Page, idx: int)
    requires TreeOrdered(nodes, b, height, root, leaves)
    requires p in nodes && nodes[p].kind == Leaf && 0 <= idx < nodes[p].len <= |nodes[p].s|
    ensures TreeOrdered(nodes[p := Cut(nodes[p], idx)], b, height, root, leaves)
  {
    assert NodeOrdered(p, nodes[p], b, height, leaves);
    CutLeafOrdered(p, nodes[p], b, height, leaves, idx);
    OrderedUpdate(nodes, b, height, root, leaves, p, Cut(nodes[p], idx));
  }

  /** Removing slot `idx` of a leaf of a sound, ordered tree removes that
      slot's key from the contents. */
  lemma CutItems(nodes: map<Page, Node>, degree: nat, b: Bounds, height: map<Page, nat>, root: Page,
                 leaves: seq<Page>, p: Page, idx: int)
    requires TreeSound(nodes, degree, height, root, leaves) && TreeOrdered(nodes, b, height, root, leaves)
    requires p in leaves && p in nodes && 0 <= idx < nodes[p].len <= |nodes[p].s|
    ensures Listed(nodes, leaves) && Listed(nodes[p := Cut(nodes[p], idx)], leaves)
    ensures Items(nodes[p := Cut(nodes[p], idx)], leaves) == RemoveKey(Items(nodes, leaves), nodes[p].s[idx].k)
  {
    OrderedSegment(nodes, degree, b, height, root, leaves);
    var a :| 0 <= a < |leaves| && leaves[a] == p;
    ChangedLeaf(nodes, nodes[p := Cut(nodes[p], idx)], leaves, a);
    var u := Used(nodes[p]);
    assert Used(Cut(nodes[p], idx)) == u[..idx] + u[idx + 1..];
    CutMiddle(Items(nodes, leaves[..a]), u, Items(nodes, leaves[a + 1..]), idx);
  }

  /** When only page `a` of a listed list changes, the contents are those
      before it, its used slots and those after it, before and after the
      change alike. */
  lemma ChangedLeaf(nodes: map<Page, Node>, nodes': map<Page, Node>, leaves: seq<Page>, a: int)
    requires Listed(nodes, leaves) && 0 <= a < |leaves|
    requires forall i, j | 0 <= i < j < |leaves| :: leaves[i] != leaves[j]
    requires nodes'.Keys == nodes.Keys && 0 <= nodes'[leaves[a]].len <= |nodes'[leaves[a]].s|
    requires forall x | x in nodes && x != leaves[a] :: nodes'[x] == nodes[x]
    ensures Listed(nodes', leaves) && Listed(nodes, leaves[..a]) && Listed(nodes, leaves[a + 1..])
    ensures Items(nodes, leaves) == Items(nodes, leaves[..a]) + Used(nodes[leaves[a]]) + Items(nodes, leaves[a + 1..])
    ensures Items(nodes', leaves) == Items(nodes, leaves[..a]) + Used(nodes'[leaves[a]]) + Items(nodes, leaves[a + 1..])
  {
    assert Listed(nodes', leaves);
    ItemsAround(nodes, leaves, a);
    ItemsAround(nodes', leaves, a);
    var before, after := leaves[..a], leaves[a + 1..];
    forall i | 0 <= i < |before| ensures before[i] in nodes' && nodes'[before[i]] == nodes[before[i]] {
      assert before[i] == leaves[i] && leaves[i] != leaves[a];
    }
    forall i | 0 <= i < |after| ensures after[i] in nodes' && nodes'[after[i]] == nodes[after[i]] {
      assert after[i] == leaves[a + 1 + i] && leaves[a] != leaves[a + 1 + i];
    }
    ItemsSame(nodes, nodes', before);
    ItemsSame(nodes, nodes', after);
  }

  /** Dropping entry `idx` of the middle run of sorted entries is removing
      its key. */
  lemma CutMiddle(x: seq<Slot>, u: seq<Slot>, y: seq<Slot>, idx: int)
    requires SortedKeys(x + u + y) && 0 <= idx < |u|
    ensures RemoveKey(x + u + y, u[idx].k) == x + (u[..idx] + u[idx + 1..]) + y
  {
    var es := x + u + y;
    var m := |x| + idx;
    assert es[m] == u[idx];
    RemoveAtSorted(es, m);
    assert es[..m] == x + u[..idx];
    assert es[m + 1..] == u[idx + 1..] + y;
  }

  /** A change to the last page of a path keeps the path linked. */
  lemma LinkedOff(nodes: map<Page, Node>, path: seq<Page>, at: seq<int>, p: Page, n': Node)
    requires Linked(nodes, path, at) && |path| >= 1 && p !in path[..|path| - 1]
    ensures Linked(nodes[p := n'], path, at)
  {
    forall j | 0 <= j < |at| ensures path[j] != p {
      assert path[j] == path[..|path| - 1][j];
    }
  }
}
