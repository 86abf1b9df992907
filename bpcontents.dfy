/** What the B+-tree of bptree/bptree.c stores, seen as one sequence of
    entries: the concatenation of the leaves' used slots in leaf-list order.
    The functions here are the reference definitions the tree operations are
    proved against: the value stored under a key, sorted insertion, removal
    of a key and the tail a range scan walks. */
module BPlusContents {
  import opened Keys
  import opened BPlusPage

  datatype Option<T> = None | Some(value: T)

  /** The word a leaf slot holds (`kv[i].v` read as a value). */
  function Val(s: Slot): Word
  {
    if s.v.Value? then s.v.w else 0
  }

  /** The words of a run of leaf slots, in order. */
  function Vals(es: seq<Slot>): (r: seq<Word>)
    ensures |r| == |es|
    ensures forall i :: 0 <= i < |es| ==> r[i] == Val(es[i])
  {
    if es == [] then [] else [Val(es[0])] + Vals(es[1..])
  }

  /** The value stored under `k`: that of the first entry with key `k`, or
      none when no entry has that key. */
  function ValueOf(es: seq<Slot>, k: Key): (r: Option<Word>)
    ensures r.None? <==> forall i :: 0 <= i < |es| ==> es[i].k != k
    ensures forall i :: 0 <= i < |es| && es[i].k == k && (forall j :: 0 <= j < i ==> es[j].k != k) ==>
      r == Some(Val(es[i]))
  {
    if es == [] then None
    else if es[0].k == k then Some(Val(es[0]))
    else
      var r := ValueOf(es[1..], k);
      assert forall i :: 1 <= i < |es| ==> es[i] == es[1..][i - 1];
      r
  }

  /** In a strictly sorted sequence the entry with key `k`, when there is
      one, is the only one, so its value is the value stored under `k`. */
  lemma ValueOfSorted(es: seq<Slot>, i: int)
    requires SortedKeys(es) && 0 <= i < |es|
    ensures ValueOf(es, es[i].k) == Some(Val(es[i]))
  {
    assert forall j :: 0 <= j < i ==> es[j].k < es[i].k;
  }

  /** `x` inserted before the first entry whose key is above its own. */
  function InsertSorted(es: seq<Slot>, x: Slot): (r: seq<Slot>)
    ensures |r| == |es| + 1
    ensures multiset(r) == multiset(es) + multiset{x}
  {
    if es == [] || x.k < es[0].k then [x] + es
    else
      assert es == [es[0]] + es[1..];
      [es[0]] + InsertSorted(es[1..], x)
  }

  /** When every key of `a` is below `x.k` and every key of `b` above it,
      sorted insertion into `a + b` puts `x` between the two. */
  lemma {:induction false} InsertSortedBetween(a: seq<Slot>, b: seq<Slot>, x: Slot)
    requires forall i :: 0 <= i < |a| ==> a[i].k < x.k
    requires forall i :: 0 <= i < |b| ==> x.k < b[i].k
    ensures InsertSorted(a + b, x) == a + [x] + b
  {
    if a == [] {
      assert a + b == b;
    } else {
      assert (a + b)[0] == a[0];
      assert (a + b)[1..] == a[1..] + b;
      InsertSortedBetween(a[1..], b, x);
      assert a == [a[0]] + a[1..];
    }
  }

  /** In a strictly sorted sequence without `x.k`, the entries below `x.k`
      come first and the ones above it after, and sorted insertion puts `x`
      in between. */
  lemma InsertSortedAt(es: seq<Slot>, x: Slot) returns (n: int)
    requires SortedKeys(es) && ValueOf(es, x.k).None?
    ensures 0 <= n <= |es|
    ensures forall i :: 0 <= i < n ==> es[i].k < x.k
    ensures forall i :: n <= i < |es| ==> x.k < es[i].k
    ensures InsertSorted(es, x) == es[..n] + [x] + es[n..]
  {
    n := 0;
    while n < |es| && es[n].k < x.k
      invariant 0 <= n <= |es|
      invariant forall i :: 0 <= i < n ==> es[i].k < x.k
    {
      n := n + 1;
    }
    forall i | n <= i < |es| ensures x.k < es[i].k {
      assert es[n].k != x.k;
      if i > n {
        assert es[n].k < es[i].k;
      }
    }
    assert es == es[..n] + es[n..];
    InsertSortedBetween(es[..n], es[n..], x);
  }

  /** Sorted insertion of an absent key keeps the entries strictly
      sorted. */
  lemma InsertSortedSorted(es: seq<Slot>, x: Slot)
    requires SortedKeys(es) && ValueOf(es, x.k).None?
    ensures SortedKeys(InsertSorted(es, x))
  {
    var n := InsertSortedAt(es, x);
    SortedPrefix(es, n);
    SortedAround(es[..n], x, es[n..]);
  }

  /** After sorted insertion of an absent key, `x`'s value is stored under
      its key and every other key keeps its value. */
  lemma InsertSortedSpec(es: seq<Slot>, x: Slot)
    requires SortedKeys(es) && ValueOf(es, x.k).None?
    ensures ValueOf(InsertSorted(es, x), x.k) == Some(Val(x))
    ensures forall k :: k != x.k ==> ValueOf(InsertSorted(es, x), k) == ValueOf(es, k)
  {
    var n := InsertSortedAt(es, x);
    var a, b := es[..n], es[n..];
    assert es == a + b;
    forall k ensures ValueOf(a + [x] + b, k) == if k == x.k then Some(Val(x)) else ValueOf(a + b, k) {
      ValueOfAppend(a + [x], b, k);
      ValueOfAppend(a, [x], k);
      ValueOfAppend(a, b, k);
      assert ValueOf([x], k) == if k == x.k then Some(Val(x)) else None;
    }
  }

  /** The entries without those whose key is `k`. */
  function RemoveKey(es: seq<Slot>, k: Key): (r: seq<Slot>)
    ensures |r| <= |es|
    ensures forall i :: 0 <= i < |r| ==> r[i].k != k
  {
    if es == [] then []
    else (if es[0].k == k then [] else [es[0]]) + RemoveKey(es[1..], k)
  }

  /** Removing the one entry with key `k` from between `a` and `b`, where
      `k` does not occur, leaves `a + b`. */
  lemma {:induction false} RemoveKeyBetween(a: seq<Slot>, y: Slot, b: seq<Slot>)
    requires forall i :: 0 <= i < |a| ==> a[i].k != y.k
    requires forall i :: 0 <= i < |b| ==> b[i].k != y.k
    ensures RemoveKey(a + [y] + b, y.k) == a + b
  {
    if a == [] {
      assert a + [y] + b == [y] + b;
      assert ([y] + b)[1..] == b;
      RemoveKeyAbsent(b, y.k);
    } else {
      assert (a + [y] + b)[0] == a[0];
      assert (a + [y] + b)[1..] == a[1..] + [y] + b;
      RemoveKeyBetween(a[1..], y, b);
      assert a + b == [a[0]] + (a[1..] + b);
    }
  }

  /** Removing an absent key changes nothing. */
  lemma {:induction false} RemoveKeyAbsent(es: seq<Slot>, k: Key)
    requires forall i :: 0 <= i < |es| ==> es[i].k != k
    ensures RemoveKey(es, k) == es
  {
    if es != [] {
      RemoveKeyAbsent(es[1..], k);
      assert es == [es[0]] + es[1..];
    }
  }

  /** After removing `k` no value is stored under it and every other key
      keeps its value. */
  lemma {:induction false} RemoveKeySpec(es: seq<Slot>, k: Key)
    ensures ValueOf(RemoveKey(es, k), k).None?
    ensures forall k' :: k' != k ==> ValueOf(RemoveKey(es, k), k') == ValueOf(es, k')
  {
    if es != [] {
      RemoveKeySpec(es[1..], k);
      var t := RemoveKey(es[1..], k);
      forall k' | k' != k ensures ValueOf(RemoveKey(es, k), k') == ValueOf(es, k') {
        assert ValueOf(es, k') == if es[0].k == k' then Some(Val(es[0])) else ValueOf(es[1..], k');
        if es[0].k != k {
          var r := [es[0]] + t;
          assert RemoveKey(es, k) == r;
          assert r[0] == es[0] && r[1..] == t;
          assert ValueOf(r, k') == if es[0].k == k' then Some(Val(es[0])) else ValueOf(t, k');
        } else {
          assert RemoveKey(es, k) == [] + t == t;
        }
      }
    }
  }

  /** Removing keys leaves only keys that were there. */
  lemma {:induction false} RemoveKeyAbove(es: seq<Slot>, k: Key, lo: int)
    requires forall i :: 0 <= i < |es| ==> lo < es[i].k
    ensures forall i :: 0 <= i < |RemoveKey(es, k)| ==> lo < RemoveKey(es, k)[i].k
  {
    if es != [] {
      RemoveKeyAbove(es[1..], k, lo);
      var t := RemoveKey(es[1..], k);
      assert forall i :: 0 <= i < |t| ==> ([es[0]] + t)[i + 1] == t[i];
    }
  }

  /** Removing keys keeps a strictly sorted sequence strictly sorted. */
  lemma {:induction false} RemoveKeySorted(es: seq<Slot>, k: Key)
    requires SortedKeys(es)
    ensures SortedKeys(RemoveKey(es, k))
  {
    if es != [] {
      RemoveKeySorted(es[1..], k);
      RemoveKeyAbove(es[1..], k, es[0].k);
      var t := RemoveKey(es[1..], k);
      if es[0].k != k {
        var r := [es[0]] + t;
        forall i, j | 0 <= i < j < |r| ensures r[i].k < r[j].k {
          assert r[j] == t[j - 1];
          if i > 0 {
            assert r[i] == t[i - 1];
          }
        }
      }
    }
  }

  /** The entries from the first one whose key is at least `k` on: what a
      range scan starting at `k` walks over. */
  function AtOrAbove(es: seq<Slot>, k: Key): (r: seq<Slot>)
    ensures |r| <= |es| && r == es[|es| - |r|..]
    ensures forall i :: 0 <= i < |es| - |r| ==> es[i].k < k
    ensures r != [] ==> k <= r[0].k
  {
    if es == [] || k <= es[0].k then es else AtOrAbove(es[1..], k)
  }

  /** In a sorted sequence that tail holds only entries whose key is at
      least `k`. */
  lemma AtOrAboveOnlyAbove(es: seq<Slot>, k: Key)
    requires SortedKeys(es)
    ensures forall i :: 0 <= i < |AtOrAbove(es, k)| ==> k <= AtOrAbove(es, k)[i].k
  {
    var r := AtOrAbove(es, k);
    var d := |es| - |r|;
    forall i | 0 <= i < |r| ensures k <= r[i].k {
      assert r[i] == es[d + i];
      if i > 0 {
        assert r[0] == es[d];
        assert es[d].k < es[d + i].k;
      }
    }
  }

  /** That tail holds every entry whose key is at least `k`. */
  lemma AtOrAboveAllAbove(es: seq<Slot>, k: Key)
    ensures forall i :: 0 <= i < |es| && k <= es[i].k ==> es[i] in AtOrAbove(es, k)
  {
    var r := AtOrAbove(es, k);
    var d := |es| - |r|;
    forall i | 0 <= i < |es| && k <= es[i].k ensures es[i] in r {
      assert r[i - d] == es[i];
    }
  }

  /** The value stored under `k` in `a + b` is the one in `a`, or the one
      in `b` when `a` has no entry with key `k`. */
  lemma {:induction false} ValueOfAppend(a: seq<Slot>, b: seq<Slot>, k: Key)
    ensures ValueOf(a + b, k) == if ValueOf(a, k).Some? then ValueOf(a, k) else ValueOf(b, k)
  {
    if a != [] {
      assert (a + b)[1..] == a[1..] + b;
      ValueOfAppend(a[1..], b, k);
    } else {
      assert a + b == b;
    }
  }

  /** Entries below `k` in front of `b` do not change the tail a scan from
      `k` walks. */
  lemma {:induction false} AtOrAboveAppend(a: seq<Slot>, b: seq<Slot>, k: Key)
    requires forall i :: 0 <= i < |a| ==> a[i].k < k
    ensures AtOrAbove(a + b, k) == AtOrAbove(b, k)
  {
    if a != [] {
      assert (a + b)[1..] == a[1..] + b;
      AtOrAboveAppend(a[1..], b, k);
    } else {
      assert a + b == b;
    }
  }

  /** The entries from `k` on begin at `start` when every key before it is
      below `k` and its own is not. */
  lemma AtOrAboveAt(es: seq<Slot>, start: int, k: Key)
    requires 0 <= start < |es| && k <= es[start].k
    requires forall j :: 0 <= j < start ==> es[j].k < k
    ensures AtOrAbove(es, k) == es[start..]
  {
  }

  /** The first `len` items of `s`, or all of it when `len` is 0 (the cap of
      `bp_range`, whose early exit never fires for `len` 0). */
  function Capped(s: seq<Word>, len: nat): (r: seq<Word>)
    ensures len > 0 ==> |r| <= len
    ensures len == 0 || |s| <= len ==> r == s
    ensures r == s[..|r|]
  {
    if len == 0 || |s| <= len then s else s[..len]
  }
}
