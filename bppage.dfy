/** The pages of the B+-tree of bptree/bptree.c and the in-place operations
    on one page's entry array: the binary search, the capacity test and the
    `for` loops that shift, append and copy entries.

    Every method that changes an entry array is specified by a function on
    the array's contents (`Inserted`, `Removed`, `Appended`), and the lemmas
    below say when those functions keep a page sorted. */
module BPlusPage {
  import opened Keys

  /** `BP_INTER` / `BP_LEAF`. */
  datatype Kind = Inter | Leaf

  /** What a slot's second word holds: a value in a leaf, a child page in an
      internal page, or nothing ever written there (the slots of a page fresh
      from `alloc_page`, among them slot 0 of an internal page made by
      `split`). */
  datatype Payload = Value(w: Word) | Child(page: Page) | Unwritten

  /** `bp_kv_t`: a key and its payload. */
  datatype Slot = Slot(k: Key, v: Payload)

  /** The three kinds of access `is_safe` distinguishes. */
  datatype Op = Read | Add | Del

  /** Keys strictly increasing. */
  ghost predicate SortedKeys(s: seq<Slot>)
  {
    forall i, j :: 0 <= i < j < |s| ==> s[i].k < s[j].k
  }

  /** What `binary_search_in_page` answers on a sorted page: every used
      slot up to `idx` has a key at most `k`, every later one a key above
      `k`. */
  ghost predicate SearchAnswer(s: seq<Slot>, len: int, k: Key, idx: int)
    requires 0 <= len <= |s|
  {
    SortedKeys(s[..len]) ==>
      (forall j :: 0 <= j <= idx && j < len ==> s[j].k <= k) &&
      (forall j :: idx < j < len && 0 <= j ==> k < s[j].k)
  }

  /** `is_safe` (bptree.c:105-119): whether an access of kind `op` leaves
      the page's parent untouched. */
  function IsSafe(kind: Kind, length: int, degree: int, op: Op): bool
  {
    var dp1 := if kind == Inter then 1 else 0;
    match op
    case Read => true
    case Add => length < degree + dp1
    case Del => length > (degree + dp1 - 1) / 2 + 1
  }

  /** An ADD is safe exactly when the page is not full, i.e. when an insert
      that reaches it does not split it (bptree.c:291 for a leaf, 256 for an
      internal page of at most `degree + 1` entries); a DEL is safe exactly
      when removing one entry leaves the page at or above the threshold
      below which `bp_remove` (bptree.c:452) and `merge` (bptree.c:423)
      merge it. */
  lemma IsSafeMatchesTriggers(kind: Kind, length: int, degree: int)
    requires 0 <= length <= degree + (if kind == Inter then 1 else 0)
    ensures IsSafe(kind, length, degree, Read)
    ensures kind == Leaf ==> (!IsSafe(kind, length, degree, Add) <==> length == degree)
    ensures kind == Inter ==> (!IsSafe(kind, length, degree, Add) <==> length == degree + 1)
    ensures kind == Leaf ==>
      (IsSafe(kind, length, degree, Del) <==> !(length - 1 < (degree - 1) / 2 + 1))
    ensures kind == Inter ==>
      (IsSafe(kind, length, degree, Del) <==> !(length - 1 < (degree + 1 - 1) / 2 + 1))
  {
  }

  /** The entry array after an entry `x` is put right after slot `idx` of
      the first `len` slots, the later ones moving up by one. */
  function Inserted(s: seq<Slot>, len: int, idx: int, x: Slot): (t: seq<Slot>)
    requires -1 <= idx < len < |s|
    ensures |t| == |s|
    ensures forall j :: 0 <= j <= idx ==> t[j] == s[j]
    ensures t[idx + 1] == x
    ensures forall j :: idx + 1 < j <= len ==> t[j] == s[j - 1]
    ensures forall j :: len < j < |s| ==> t[j] == s[j]
  {
    s[..idx + 1] + [x] + s[idx + 1..len] + s[len + 1..]
  }

  /** The entry array after slot `idx` of the first `len` slots is removed,
      the later ones moving down by one; slot `len - 1` keeps its old
      contents. */
  function Removed(s: seq<Slot>, len: int, idx: int): (t: seq<Slot>)
    requires 0 <= idx < len <= |s|
    ensures |t| == |s|
    ensures forall j :: 0 <= j < idx ==> t[j] == s[j]
    ensures forall j :: idx <= j < len - 1 ==> t[j] == s[j + 1]
    ensures forall j :: len - 1 <= j < |s| ==> t[j] == s[j]
  {
    s[..idx] + s[idx + 1..len] + s[len - 1..]
  }

  /** The entry array after `more` is copied in from slot `len` on. */
  function Appended(s: seq<Slot>, len: int, more: seq<Slot>): (t: seq<Slot>)
    requires 0 <= len && len + |more| <= |s|
    ensures |t| == |s|
    ensures t[..len] == s[..len] && t[len..len + |more|] == more
    ensures t[len + |more|..] == s[len + |more|..]
  {
    s[..len] + more + s[len + |more|..]
  }

  /** How many entries `split` moves to the new page (bptree.c:237). */
  function MovedCount(length: int, first: int): int
  {
    (length - first) / 2
  }

  /** The sorted-prefix facts the lemmas below use. */
  lemma SortedPrefix(s: seq<Slot>, n: int)
    requires 0 <= n <= |s| && SortedKeys(s)
    ensures SortedKeys(s[..n]) && SortedKeys(s[n..])
  {
  }

  /** Two slots of a sorted run, in order. */
  lemma SortedPair(u: seq<Slot>, i: int, j: int)
    requires SortedKeys(u) && 0 <= i < j < |u|
    ensures u[i].k < u[j].k
  {
  }

  /** A sorted run, then `x`, then a sorted run, each key of the first run
      below `x.k` and `x.k` below each key of the second, is sorted. */
  lemma SortedAround(a: seq<Slot>, x: Slot, b: seq<Slot>)
    requires SortedKeys(a) && SortedKeys(b)
    requires forall i :: 0 <= i < |a| ==> a[i].k < x.k
    requires forall j :: 0 <= j < |b| ==> x.k < b[j].k
    ensures SortedKeys(a + [x] + b)
  {
    var t := a + [x] + b;
    forall i, j | 0 <= i < j < |t| ensures t[i].k < t[j].k {
      if j < |a| {
        assert t[i] == a[i] && t[j] == a[j];
      } else if i > |a| {
        assert t[i] == b[i - |a| - 1] && t[j] == b[j - |a| - 1];
      } else if i == |a| {
        assert t[j] == b[j - |a| - 1];
      } else if j == |a| {
        assert t[i] == a[i];
      } else {
        assert t[i] == a[i] && t[j] == b[j - |a| - 1];
      }
    }
  }

  /** The used slots after an insertion: those up to `idx`, then `x`,
      then the rest. */
  lemma InsertedParts(s: seq<Slot>, len: int, idx: int, x: Slot)
    requires -1 <= idx < len < |s|
    ensures Inserted(s, len, idx, x)[..len + 1] == s[..len][..idx + 1] + [x] + s[..len][idx + 1..]
  {
    var t, a, b := Inserted(s, len, idx, x), s[..len][..idx + 1], s[..len][idx + 1..];
    forall j | 0 <= j < len + 1 ensures t[..len + 1][j] == (a + [x] + b)[j] {
      if j <= idx {
        assert (a + [x] + b)[j] == a[j] == s[j];
      } else if j > idx + 1 {
        assert (a + [x] + b)[j] == b[j - idx - 2] == s[j - 1];
      }
    }
  }

  /** In a sorted run, a key above slot `idx` and below slot `idx + 1` is
      above every slot up to `idx` and below every later one. */
  lemma SortedBounds(u: seq<Slot>, idx: int, x: Slot)
    requires SortedKeys(u) && -1 <= idx < |u|
    requires idx >= 0 ==> u[idx].k < x.k
    requires idx + 1 < |u| ==> x.k < u[idx + 1].k
    ensures forall i :: 0 <= i <= idx ==> u[i].k < x.k
    ensures forall j :: idx + 1 <= j < |u| ==> x.k < u[j].k
  {
    forall i | 0 <= i <= idx ensures u[i].k < x.k {
      if i < idx {
        SortedPair(u, i, idx);
      }
    }
    forall j | idx + 1 <= j < |u| ensures x.k < u[j].k {
      if j > idx + 1 {
        SortedPair(u, idx + 1, j);
      }
    }
  }

  /** Putting `x` right after the last slot whose key is below `x.k` keeps
      a sorted page sorted. */
  lemma InsertedSorted(s: seq<Slot>, len: int, idx: int, x: Slot)
    requires -1 <= idx < len < |s| && SortedKeys(s[..len])
    requires idx >= 0 ==> s[idx].k < x.k
    requires idx + 1 < len ==> x.k < s[idx + 1].k
    ensures SortedKeys(Inserted(s, len, idx, x)[..len + 1])
  {
    var u := s[..len];
    SortedPrefix(u, idx + 1);
    SortedBounds(u, idx, x);
    SortedAround(u[..idx + 1], x, u[idx + 1..]);
    InsertedParts(s, len, idx, x);
  }

  /** Removing a slot keeps a sorted page sorted. */
  lemma RemovedSorted(s: seq<Slot>, len: int, idx: int)
    requires 0 <= idx < len <= |s| && SortedKeys(s[..len])
    ensures SortedKeys(Removed(s, len, idx)[..len - 1])
  {
    var t := Removed(s, len, idx);
    forall i, j | 0 <= i < j < len - 1 ensures t[i].k < t[j].k {
      var i' := if i < idx then i else i + 1;
      var j' := if j < idx then j else j + 1;
      assert t[i] == s[i'] && t[j] == s[j'];
      assert s[..len][i'].k < s[..len][j'].k;
    }
  }

  /** A page of the tree: `struct page` with its type, its number of used
      slots and its entry array of `degree + 1` slots (internal) or `degree`
      slots (leaf). The read-write lock is not modelled. */
  class Page {
    var kind: Kind
    var length: int
    const kv: array<Slot>

    /** `alloc_page` (bptree.c:32-42): an empty page whose slots are all
        unwritten; slot 0 carries key 0. */
    constructor (kind: Kind, degree: nat)
      ensures this.kind == kind && length == 0 && fresh(kv)
      ensures kv.Length == degree + (if kind == Inter then 1 else 0)
      ensures forall j :: 0 <= j < kv.Length ==> kv[j] == Slot(0, Unwritten)
    {
      this.kind := kind;
      length := 0;
      kv := new Slot[degree + (if kind == Inter then 1 else 0)](_ => Slot(0, Unwritten));
    }

    /** The first slot holding a real key: slot 0 of an internal page is the
        sentinel. */
    function First(): int
      reads this
    {
      if kind == Inter then 1 else 0
    }

    /** `binary_search_in_page` (bptree.c:79-103): a lower-bound search for
        `k` over the used slots, answering the last slot whose key is at most
        `k` (-1 when there is none). */
    method Search(k: Key) returns (idx: int)
      requires 0 <= length <= kv.Length
      ensures -1 <= idx < length
      ensures SearchAnswer(kv[..], length, k, idx)
      ensures SortedKeys(kv[..length]) ==> forall j :: 0 <= j < length && kv[j].k == k ==> idx == j
    {
      var l, r := 0, length;
      var res := r;
      while l < r
        invariant 0 <= l <= r == res <= length
        invariant SortedKeys(kv[..length]) ==> forall j :: 0 <= j < l ==> kv[j].k < k
        invariant SortedKeys(kv[..length]) ==> forall j :: r <= j < length ==> k <= kv[j].k
      {
        var mid := (l + r) / 2;
        if KCmp(kv[mid].k, k) >= 0 {
          if SortedKeys(kv[..length]) {
            forall j | mid <= j < length ensures k <= kv[j].k {
              if mid < j {
                assert kv[..length][mid].k < kv[..length][j].k;
              }
            }
          }
          res := mid;
          r := mid;
        } else {
          if SortedKeys(kv[..length]) {
            forall j | 0 <= j < mid + 1 ensures kv[j].k < k {
              if j < mid {
                assert kv[..length][j].k < kv[..length][mid].k;
              }
            }
          }
          l := mid + 1;
        }
      }
      if res == length {
        return r - 1;
      }
      if KCmp(kv[res].k, k) == 0 {
        idx := res;
        if SortedKeys(kv[..length]) {
          forall j | res < j < length ensures k < kv[j].k {
            assert kv[..length][res].k < kv[..length][j].k;
          }
        }
      } else {
        idx := res - 1;
      }
    }

    /** The shift loop and the store of `page_insert` (bptree.c:221-227)
        and of `bp_insert` (bptree.c:297-303): `x` goes right after slot
        `idx`, the used slots above it move up by one. */
    method InsertAt(idx: int, x: Slot)
      requires 0 <= length < kv.Length && -1 <= idx < length
      modifies this, kv
      ensures kind == old(kind) && length == old(length) + 1
      ensures kv[..] == Inserted(old(kv[..]), old(length), idx, x)
    {
      var i := length - 1;
      while i > idx
        invariant idx <= i <= length - 1
        invariant forall j :: 0 <= j < kv.Length ==>
          kv[j] == (if j <= i + 1 || j > length then old(kv[j]) else old(kv[j - 1]))
        invariant kind == old(kind) && length == old(length)
      {
        kv[i + 1] := kv[i];
        i := i - 1;
      }
      kv[idx + 1] := x;
      length := length + 1;
      assert kv[..] == Inserted(old(kv[..]), old(length), idx, x);
    }

    /** `page_insert` (bptree.c:206-228), run on the parent page: a parent
        without entries takes `child` in slot 0, under the key slot 0 already
        has; otherwise the entry (first real key of `child`, `child`) goes
        right after the slot `at` that the binary search answers for that
        key. The C `assert` at bptree.c:219 is not modelled. */
    method InsertChild(child: Page) returns (ghost at: int)
      requires child != this && child.kv != kv
      requires 0 <= length < kv.Length && child.First() < child.kv.Length
      modifies this, kv
      ensures kind == old(kind) && length == old(length) + 1
      ensures old(length) == 0 ==>
        at == -1 && kv[..] == old(kv[..])[0 := Slot(old(kv[0].k), Child(child))]
      ensures old(length) > 0 ==>
        -1 <= at < old(length) &&
        kv[..] == Inserted(old(kv[..]), old(length), at, Slot(child.kv[child.First()].k, Child(child)))
      ensures old(length) > 0 ==> SearchAnswer(old(kv[..]), old(length), child.kv[child.First()].k, at)
    {
      var key := child.kv[child.First()].k;
      if length == 0 {
        kv[0] := kv[0].(v := Child(child));
        length := length + 1;
        at := -1;
        return;
      }
      var idx := Search(key);
      at := idx;
      InsertAt(idx, Slot(key, Child(child)));
    }

    /** The shift loops of `bp_remove` (bptree.c:447-450) and of `merge`
        (bptree.c:388-391, 407-409): slot `idx` is overwritten by the used
        slots above it, which move down by one, and the page has one used
        slot less. */
    method RemoveAt(idx: int)
      requires 0 <= idx < length <= kv.Length
      modifies this, kv
      ensures kind == old(kind) && length == old(length) - 1
      ensures kv[..] == Removed(old(kv[..]), old(length), idx)
    {
      var i := idx;
      while i < length - 1
        invariant idx <= i <= length - 1 && length <= kv.Length
        invariant forall j :: 0 <= j < kv.Length ==>
          kv[j] == (if idx <= j < i then old(kv[j + 1]) else old(kv[j]))
        invariant kind == old(kind) && length == old(length)
      {
        kv[i] := kv[i + 1];
        i := i + 1;
      }
      length := length - 1;
      assert kv[..] == Removed(old(kv[..]), old(length), idx);
    }

    /** The copy loop of a full merge (bptree.c:381-385): the used slots of
        `sibling` from `first` on are appended after this page's used
        slots. */
    method AppendFrom(sibling: Page, first: int)
      requires sibling != this && sibling.kv != kv
      requires 0 <= first <= sibling.length <= sibling.kv.Length
      requires 0 <= length && length + sibling.length - first <= kv.Length
      modifies this, kv
      ensures kind == old(kind) && length == old(length) + sibling.length - first
      ensures kv[..] == Appended(old(kv[..]), old(length), sibling.kv[first..sibling.length])
    {
      var i := first;
      while i < sibling.length
        invariant first <= i <= sibling.length
        invariant forall j :: 0 <= j < kv.Length ==>
          kv[j] == (if length <= j < length + i - first then sibling.kv[j - length + first] else old(kv[j]))
        invariant kind == old(kind) && length == old(length)
      {
        kv[length + i - first] := sibling.kv[i];
        i := i + 1;
      }
      length := length + sibling.length - first;
      assert kv[..] == Appended(old(kv[..]), old(length), sibling.kv[first..sibling.length]);
    }

    /** The borrow of `merge` (bptree.c:404, 410): `x` is written right
        after the used slots, which count one more. */
    method Push(x: Slot)
      requires 0 <= length < kv.Length
      modifies this, kv
      ensures kind == old(kind) && length == old(length) + 1
      ensures kv[..] == old(kv[..])[old(length) := x]
    {
      kv[length] := x;
      length := length + 1;
    }

    /** The new separator of `merge` (bptree.c:415): slot `idx` takes key
        `key` and keeps its payload. */
    method Rekey(idx: int, key: Key)
      requires 0 <= idx < kv.Length
      modifies kv
      ensures kv[..] == old(kv[..])[idx := Slot(key, old(kv[idx].v))]
    {
      kv[idx] := kv[idx].(k := key);
    }

    /** The copy loop of `split` (bptree.c:236-244), run on the fresh page:
        the top `MovedCount` used slots of `page` are copied to this page
        from slot `first` on; `page` keeps the rest. */
    method TakeUpperHalf(page: Page, first: int)
      requires page != this && page.kv != kv
      requires 0 <= first <= page.length <= page.kv.Length && length == 0
      requires first + MovedCount(page.length, first) <= kv.Length
      modifies this, kv, page
      ensures kind == old(kind) && page.kind == old(page.kind)
      ensures var moved := MovedCount(old(page.length), first);
        length == moved + first && page.length == old(page.length) - moved &&
        kv[..] == Appended(old(kv[..]), first, page.kv[page.length..old(page.length)])
    {
      var moved := MovedCount(page.length, first);
      var from := page.length - moved;
      var i := from;
      while i < page.length
        invariant from <= i <= page.length <= page.kv.Length
        invariant forall j :: 0 <= j < kv.Length ==>
          kv[j] == (if first <= j < first + i - from then page.kv[j - first + from] else old(kv[j]))
        invariant kind == old(kind) && page.kind == old(page.kind) && page.length == old(page.length)
        invariant length == 0
      {
        kv[i - from + first] := page.kv[i];
        i := i + 1;
      }
      length := moved + first;
      page.length := page.length - moved;
      assert kv[..] == Appended(old(kv[..]), first, page.kv[from..old(page.length)]);
    }
  }
}
