/** `bp_range` of bptree/bptree.c: the walk along the leaf list that copies
    the values stored from a key on. */
module BPlusRange {
  import opened Keys
  import opened BPlusPage
  import opened BPlusContents
  import opened BPlusShape
  import opened BPlusView

  /** The used slots of the leaves of `ls` from the `a`-th on, in order. */
  ghost function ItemsFrom(nodes: map<Page, Node>, ls: seq<Page>, a: int): seq<Slot>
    requires Listed(nodes, ls) && 0 <= a <= |ls|
    decreases |ls| - a
  {
    if a == |ls| then [] else Used(nodes[ls[a]]) + ItemsFrom(nodes, ls, a + 1)
  }

  /** `ItemsFrom` is the contents of the leaves from the `a`-th on. */
  lemma {:induction false} ItemsFromItems(nodes: map<Page, Node>, ls: seq<Page>, a: int)
    requires Listed(nodes, ls) && 0 <= a <= |ls|
    ensures Listed(nodes, ls[a..]) && ItemsFrom(nodes, ls, a) == Items(nodes, ls[a..])
    decreases |ls| - a
  {
    ListedParts(nodes, ls, a, |ls|);
    assert ls[a..|ls|] == ls[a..];
    if a < |ls| {
      ItemsFromItems(nodes, ls, a + 1);
      assert ls[a..][0] == ls[a] && ls[a..][1..] == ls[a + 1..];
    }
  }

  /** When the contents from index `pos` of `all` on are those of the
      leaves from the `a`-th on, leaf `a` sits at `pos` and the leaves
      after it follow. */
  lemma LeafAt(nodes: map<Page, Node>, ls: seq<Page>, a: int, all: seq<Slot>, pos: int)
    requires Listed(nodes, ls) && 0 <= a < |ls| && 0 <= pos <= |all|
    requires all[pos..] == ItemsFrom(nodes, ls, a)
    ensures pos + |Used(nodes[ls[a]])| <= |all|
    ensures forall m :: 0 <= m < |Used(nodes[ls[a]])| ==> all[pos + m] == Used(nodes[ls[a]])[m]
    ensures all[pos + |Used(nodes[ls[a]])|..] == ItemsFrom(nodes, ls, a + 1)
  {
    var u := Used(nodes[ls[a]]);
    assert all[pos..] == u + ItemsFrom(nodes, ls, a + 1);
    forall m | 0 <= m < |u| ensures all[pos + m] == u[m] {
      assert all[pos + m] == all[pos..][m];
    }
    assert all[pos + |u|..] == all[pos..][|u|..];
  }

  /** Every leaf of `ls` holds its used keys in increasing order. */
  ghost predicate LeavesSorted(nodes: map<Page, Node>, ls: seq<Page>)
  {
    Listed(nodes, ls) && forall i :: 0 <= i < |ls| ==> SortedKeys(Used(nodes[ls[i]]))
  }

  /** In an ordered tree every leaf on the list is sorted. */
  lemma OrderedLeavesSorted(nodes: map<Page, Node>, b: Bounds, height: map<Page, nat>, root: Page, leaves: seq<Page>)
    requires TreeOrdered(nodes, b, height, root, leaves) && Listed(nodes, leaves)
    ensures LeavesSorted(nodes, leaves)
  {
    forall i | 0 <= i < |leaves| ensures SortedKeys(Used(nodes[leaves[i]])) {
      assert NodeOrdered(leaves[i], nodes[leaves[i]], b, height, leaves);
    }
  }

  /** When the keys of `all` before index `pos` are below `k`, so are those
      of the sorted leaf `u` sitting at `pos` if its last key is. */
  lemma SkipKeys(all: seq<Slot>, u: seq<Slot>, pos: int, k: Key)
    requires SortedKeys(u) && 0 <= pos && pos + |u| <= |all|
    requires forall m :: 0 <= m < |u| ==> all[pos + m] == u[m]
    requires forall m :: 0 <= m < pos ==> all[m].k < k
    requires u == [] || u[|u| - 1].k < k
    ensures forall m :: 0 <= m < pos + |u| ==> all[m].k < k
  {
    forall m | pos <= m < pos + |u| ensures all[m].k < k {
      assert all[m] == u[m - pos];
      if m < pos + |u| - 1 {
        assert u[m - pos].k < u[|u| - 1].k;
      }
    }
  }

  /** Where the scan stands once the leaves holding the first `pos` entries
      of `all` are behind it: it started at index `d` (`d` is `pos` while
      it has not), the words out are those of the entries from `d` to
      `pos`, fewer than `len`, and when every leaf is sorted the keys before
      `d` are below `k`. */
  ghost predicate Progress(all: seq<Slot>, k: Key, len: nat, sorted: bool, found: bool,
                           pos: int, d: int, out: seq<Word>)
  {
    0 <= d <= pos <= |all| && |out| == pos - d &&
    (forall m :: 0 <= m < |out| ==> out[m] == Val(all[d + m])) &&
    (if found then d < |all| && k <= all[d].k else d == pos) &&
    (sorted ==> forall m :: 0 <= m < d ==> all[m].k < k) &&
    (len > 0 ==> |out| < len)
  }

  /** Where the scan stands when it stops early: it started at index `d`,
      its `len` words are those of the entries from `d` on, and when every
      leaf is sorted the keys before `d` are below `k`. */
  ghost predicate Stopped(all: seq<Slot>, k: Key, len: nat, sorted: bool, d: int, out: seq<Word>)
  {
    0 <= d < |all| && k <= all[d].k && d + |out| <= |all| &&
    (forall m :: 0 <= m < |out| ==> out[m] == Val(all[d + m])) &&
    (sorted ==> forall m :: 0 <= m < d ==> all[m].k < k) &&
    len > 0 && |out| == len
  }

  /** What the scan has copied once it stops: the words of the entries
      from index `d` of `all` on, where the keys below `k` end, either all
      of them or the first `len`. That is the first `len` words of the
      entries from `k` on. */
  lemma ScanResult(all: seq<Slot>, d: int, out: seq<Word>, len: nat, k: Key)
    requires 0 <= d <= |all| && |out| <= |all| - d
    requires forall m :: 0 <= m < d ==> all[m].k < k
    requires d < |all| ==> k <= all[d].k
    requires forall m :: 0 <= m < |out| ==> out[m] == Val(all[d + m])
    requires |out| == |all| - d || (len > 0 && |out| == len)
    requires len > 0 ==> |out| <= len
    ensures out == Capped(Vals(AtOrAbove(all, k)), len)
  {
    if d < |all| {
      AtOrAboveAt(all, d, k);
    }
    assert AtOrAbove(all, k) == all[d..];
    var w := Vals(all[d..]);
    assert out == w[..|out|];
  }

  /** The scan has passed every leaf or stopped early: with every leaf
      sorted, its words are the first `len` of the contents from `k` on. */
  lemma Finish(all: seq<Slot>, k: Key, len: nat, found: bool, d: int, out: seq<Word>, full: bool)
    requires full ==> Stopped(all, k, len, true, d, out)
    requires !full ==> Progress(all, k, len, true, found, |all|, d, out)
    ensures out == Capped(Vals(AtOrAbove(all, k)), len)
  {
    ScanResult(all, d, out, len, k);
  }

  /** The first slot of `page` whose key is not below `k`
      (bptree.c:475), found by stepping up from slot 0; the page's last key
      is not below `k`, so the walk stops inside the used slots. */
  method Start(page: Page, k: Key) returns (i: int)
    requires 0 < page.length <= page.kv.Length && k <= page.kv[page.length - 1].k
    ensures 0 <= i < page.length && k <= page.kv[i].k
    ensures forall j :: 0 <= j < i ==> page.kv[j].k < k
  {
    i := 0;
    while KCmp(page.kv[i].k, k) < 0
      invariant 0 <= i < page.length
      invariant forall j :: 0 <= j < i ==> page.kv[j].k < k
      decreases page.length - i
    {
      i := i + 1;
    }
  }

  /** The copy loop of `bp_range` (bptree.c:483-490) from slot `i` of
      `page`: appends the words of the used slots from `i` on to `out`,
      and stops (`full`) as soon as `len` words are out. */
  method Copy(page: Page, i: int, out: seq<Word>, len: nat) returns (out': seq<Word>, j: int, full: bool)
    requires 0 <= i <= page.length <= page.kv.Length && (len > 0 ==> |out| < len)
    ensures i <= j <= page.length && |out'| == |out| + (j - i)
    ensures forall m :: 0 <= m < |out| ==> out'[m] == out[m]
    ensures forall m :: |out| <= m < |out'| ==> out'[m] == Val(page.kv[m - |out| + i])
    ensures full ==> |out'| == len && j > i
    ensures !full ==> j == page.length && (len > 0 ==> |out'| < len)
  {
    out' := out;
    j := i;
    while j < page.length
      invariant i <= j <= page.length && |out'| == |out| + (j - i)
      invariant forall m :: 0 <= m < |out| ==> out'[m] == out[m]
      invariant forall m :: |out| <= m < |out'| ==> out'[m] == Val(page.kv[m - |out| + i])
      invariant len > 0 ==> |out'| < len
    {
      out' := out' + [Val(page.kv[j])];
      if |out'| == len {
        return out', j + 1, true;
      }
      j := j + 1;
    }
    full := false;
  }

  /** One leaf of the walk of `bp_range` (bptree.c:470-492), the leaf's
      used slots `u` sitting at index `pos` of the contents `all`: before
      the scan has started, a leaf that is empty or whose last key is below
      `k` is skipped; otherwise the copy starts at slot 0, or at the leaf's
      first key not below `k` when the scan starts here, and `full` tells
      that `len` words are out. `d` is the index in `all` where the scan
      started (the end of the leaves passed while it has not), and the
      words out are those of the entries from `d` on. */
  method Step(page: Page, found: bool, out: seq<Word>, k: Key, len: nat,
              ghost all: seq<Slot>, ghost u: seq<Slot>, ghost pos: int, ghost d: int, ghost sorted: bool)
    returns (out': seq<Word>, found': bool, full: bool, ghost d': int)
    requires 0 <= page.length <= page.kv.Length && u == page.kv[..page.length]
    requires sorted ==> SortedKeys(u)
    requires 0 <= pos && pos + |u| <= |all| && forall m :: 0 <= m < |u| ==> all[pos + m] == u[m]
    requires Progress(all, k, len, sorted, found, pos, d, out)
    ensures full ==> Stopped(all, k, len, sorted, d', out')
    ensures !full ==> Progress(all, k, len, sorted, found', pos + |u|, d', out')
  {
    assert forall m :: 0 <= m < page.length ==> page.kv[m] == all[pos + m];
    if !found && (page.length == 0 || KCmp(page.kv[page.length - 1].k, k) < 0) {
      if sorted && (forall m :: 0 <= m < d ==> all[m].k < k) {
        SkipKeys(all, u, pos, k);
      }
      return out, false, false, pos + page.length;
    }
    var i := 0;
    d' := d;
    if !found {
      i := Start(page, k);
      d' := pos + i;
      forall m | pos <= m < d' ensures all[m].k < k {
        assert all[m] == page.kv[m - pos];
      }
    }
    found' := true;
    var j;
    out', j, full := Copy(page, i, out, len);
    forall m | 0 <= m < |out'| ensures out'[m] == Val(all[d' + m]) {
      if m >= |out| {
        var at := m - |out| + i;
        assert out'[m] == Val(page.kv[at]) && page.kv[at] == all[pos + at];
      }
    }
  }

  /** `bp_range` (bptree.c:461-497) over the leaf list `leaves`: skip the
      leaves whose last key is below `k`, start in the first other leaf at
      its first key not below `k`, then copy the words of the slots in list
      order, stopping once `len` are copied (`len` 0 never stops early).
      The count the source returns is `|out|`. When every leaf is sorted
      the words copied are those of the contents from `k` on, the first
      `len` of them. The source reads slot -1 of an empty leaf; the
      model skips such a leaf. */
  method Scan(leaves: seq<Page>, ghost g: View, k: Key, len: nat) returns (out: seq<Word>)
    requires Mirrored(g) && Listed(g.nodes, leaves)
    ensures len > 0 ==> |out| <= len
    ensures LeavesSorted(g.nodes, leaves) ==>
      out == Capped(Vals(AtOrAbove(Items(g.nodes, leaves), k)), len)
  {
    ghost var all := Items(g.nodes, leaves);
    ghost var sorted := LeavesSorted(g.nodes, leaves);
    ItemsFromItems(g.nodes, leaves, 0);
    assert leaves[0..] == leaves;
    ghost var pos := 0;
    ghost var d := 0;
    out := [];
    var found := false;
    var full := false;
    var a := 0;
    while a < |leaves| && !full
      invariant 0 <= a <= |leaves| && 0 <= pos <= |all|
      invariant all[pos..] == ItemsFrom(g.nodes, leaves, a)
      invariant full ==> Stopped(all, k, len, sorted, d, out)
      invariant !full ==> Progress(all, k, len, sorted, found, pos, d, out)
    {
      var page := leaves[a];
      LeafAt(g.nodes, leaves, a, all, pos);
      assert NodeOf(page) == g.nodes[page];
      ghost var u := Used(g.nodes[page]);
      out, found, full, d := Step(page, found, out, k, len, all, u, pos, d, sorted);
      pos := pos + |u|;
      a := a + 1;
    }
    if sorted {
      Finish(all, k, len, found, d, out, full);
    }
  }
}
