/** The sorted singly-linked list of linked_list/linked_list.c, run by one
    thread: the node spin locks are not modelled.

    The chain of nodes from the head sentinel to the tail sentinel is the
    sequence `entries`: `entries[0]` is the head (key 0), the last entry is
    the tail (key 2^64 - 1), and a node pointer is an index into the
    sequence (the successor of node `i` is node `i + 1`, and `|entries|`
    stands for the tail's NULL successor). Splicing a node in or out of the
    chain is a sequence update. */
module SortedList {
  import opened Keys

  /** errno values returned (negated) by the list. */
  const ENOENT: int := 2
  const EEXIST: int := 17

  /** `HEAD_KEY` and `TAIL_KEY` (linked_list.c:19-20). */
  const HEAD_KEY: Key := 0
  const TAIL_KEY: Key := MAX_KEY

  /** `entry_t`: a key and its value. */
  datatype Entry = Entry(key: Key, value: Word)

  datatype Option<T> = None | Some(value: T)

  /** The shape every operation keeps: head first, tail last, and the keys
      after the head strictly increasing. A node with key 0 may follow the
      head, whose key is also 0. */
  ghost predicate Chain(es: seq<Entry>)
  {
    |es| >= 2 && es[0].key == HEAD_KEY && es[|es| - 1].key == TAIL_KEY &&
    forall i, j :: 1 <= i < j < |es| ==> es[i].key < es[j].key
  }

  /** The first node from `i` on whose key is not below `key`. */
  function SeekFrom(es: seq<Entry>, key: Key, i: nat): (p: nat)
    requires Chain(es) && 1 <= i < |es|
    requires forall j :: 1 <= j < i ==> es[j].key < key
    ensures i <= p < |es| && key <= es[p].key
    ensures forall j :: 1 <= j < p ==> es[j].key < key
    decreases |es| - i
  {
    if key <= es[i].key then i else SeekFrom(es, key, i + 1)
  }

  /** Where the walk `while (curr->key < key)` from the head's successor
      stops: the first node after the head whose key is at least `key`.
      It always stops, at the tail at the latest. */
  function Seek(es: seq<Entry>, key: Key): (p: nat)
    requires Chain(es)
    ensures 1 <= p < |es| && key <= es[p].key
    ensures forall j :: 1 <= j < p ==> es[j].key < key
  {
    SeekFrom(es, key, 1)
  }

  /** The first node from `i` on whose key exceeds `key`. */
  function SeekPastFrom(es: seq<Entry>, key: Key, i: nat): (p: nat)
    requires Chain(es) && key < TAIL_KEY && 1 <= i < |es|
    requires forall j :: 1 <= j < i ==> es[j].key <= key
    ensures i <= p < |es| && key < es[p].key
    ensures forall j :: 1 <= j < p ==> es[j].key <= key
    decreases |es| - i
  {
    if key < es[i].key then i else SeekPastFrom(es, key, i + 1)
  }

  /** Where the walk `while (curr->key <= key)` from the head's successor
      stops: the first node after the head whose key exceeds `key`. For
      `key == TAIL_KEY` the walk leaves the tail and reads through NULL, so
      that key is excluded. */
  function SeekPast(es: seq<Entry>, key: Key): (p: nat)
    requires Chain(es) && key < TAIL_KEY
    ensures 1 <= p < |es| && key < es[p].key
    ensures forall j :: 1 <= j < p ==> es[j].key <= key
  {
    SeekPastFrom(es, key, 1)
  }

  /** The value the list associates with `key`: that of the node after the
      head carrying `key`, if there is one (the tail counts, with its key
      `TAIL_KEY`). */
  function ValueAt(es: seq<Entry>, key: Key): (r: Option<Word>)
    requires Chain(es)
    ensures r.None? <==> forall i :: 1 <= i < |es| ==> es[i].key != key
    ensures forall i :: 1 <= i < |es| && es[i].key == key ==> r == Some(es[i].value)
  {
    var p := Seek(es, key);
    if es[p].key == key then Some(es[p].value) else None
  }

  /** The values of the entries of `s` whose key lies in [low, high], in
      the order of `s`. */
  function Filter(s: seq<Entry>, low: Key, high: Key): seq<Word>
  {
    if s == [] then []
    else (if low <= s[0].key <= high then [s[0].value] else []) + Filter(s[1..], low, high)
  }

  lemma {:induction false} FilterAppend(a: seq<Entry>, b: seq<Entry>, low: Key, high: Key)
    ensures Filter(a + b, low, high) == Filter(a, low, high) + Filter(b, low, high)
    decreases |a|
  {
    if a == [] {
      assert a + b == b;
    } else {
      assert (a + b)[1..] == a[1..] + b;
      FilterAppend(a[1..], b, low, high);
    }
  }

  lemma {:induction false} FilterOutside(s: seq<Entry>, low: Key, high: Key)
    requires forall i :: 0 <= i < |s| ==> s[i].key < low || high < s[i].key
    ensures Filter(s, low, high) == []
    decreases |s|
  {
    if s != [] {
      FilterOutside(s[1..], low, high);
    }
  }

  /** In a chain, the entries in [low, high] are those between the first
      key not below `low` and the first key above `high`. */
  lemma RangeWindow(es: seq<Entry>, low: Key, high: Key, start: nat, end: nat)
    requires Chain(es) && 1 <= start <= end < |es|
    requires forall j :: 1 <= j < start ==> es[j].key < low
    requires high < es[end].key
    ensures Filter(es[1..], low, high) == Filter(es[start..end], low, high)
  {
    assert es[1..] == es[1..start] + es[start..end] + es[end..];
    FilterOutside(es[1..start], low, high);
    FilterOutside(es[end..], low, high);
    FilterAppend(es[1..start], es[start..end], low, high);
    FilterAppend(es[1..start] + es[start..end], es[end..], low, high);
  }

  /** Linking a new entry in where the insertion walk stopped keeps the
      chain sorted and adds exactly that key with that value. */
  lemma SpliceIn(es: seq<Entry>, e: Entry)
    requires Chain(es) && es[Seek(es, e.key)].key != e.key
    ensures var p := Seek(es, e.key);
      var t := es[..p] + [e] + es[p..];
      Chain(t) &&
      forall k :: ValueAt(t, k) == if k == e.key then Some(e.value) else ValueAt(es, k)
  {
    var p := Seek(es, e.key);
    var t := es[..p] + [e] + es[p..];
    assert |t| == |es| + 1;
    assert forall i :: 0 <= i < p ==> t[i] == es[i];
    assert t[p] == e;
    assert forall i :: p < i < |t| ==> t[i] == es[i - 1];
    assert Chain(t) by {
      forall i, j | 1 <= i < j < |t| ensures t[i].key < t[j].key {
        if j < p {
        } else if j == p {
        } else if i < p {
        } else if i == p {
          assert es[j - 1].key >= es[p].key;
        } else {
        }
      }
    }
    forall k ensures ValueAt(t, k) == if k == e.key then Some(e.value) else ValueAt(es, k) {
      if k != e.key {
        if ValueAt(es, k).None? {
          assert forall i :: 1 <= i < |t| ==> t[i].key != k;
        } else {
          var i :| 1 <= i < |es| && es[i].key == k;
          if i < p {
            assert t[i] == es[i];
          } else {
            assert t[i + 1] == es[i];
          }
        }
      }
    }
  }

  /** Dropping a node between the head and the tail keeps the chain
      sorted; the nodes after it move down one place. */
  lemma DropChain(es: seq<Entry>, p: nat)
    requires Chain(es) && 1 <= p < |es| - 1
    ensures var t := es[..p] + es[p + 1..];
      |t| == |es| - 1 && Chain(t) &&
      (forall i :: 0 <= i < p ==> t[i] == es[i]) &&
      (forall i :: p <= i < |t| ==> t[i] == es[i + 1])
  {
    var t := es[..p] + es[p + 1..];
    assert forall i :: 0 <= i < p ==> t[i] == es[i];
    assert forall i :: p <= i < |t| ==> t[i] == es[i + 1];
    forall i, j | 1 <= i < j < |t| ensures t[i].key < t[j].key {
      var i', j' := if i < p then i else i + 1, if j < p then j else j + 1;
      assert t[i] == es[i'] && t[j] == es[j'];
    }
  }

  /** Unlinking the node carrying `key` (not the tail) keeps the chain
      sorted and removes exactly that key. */
  lemma SpliceOut(es: seq<Entry>, key: Key)
    requires Chain(es) && key < TAIL_KEY && es[Seek(es, key)].key == key
    ensures var p := Seek(es, key);
      var t := es[..p] + es[p + 1..];
      p < |es| - 1 && Chain(t) &&
      forall k :: ValueAt(t, k) == if k == key then None else ValueAt(es, k)
  {
    var p := Seek(es, key);
    var t := es[..p] + es[p + 1..];
    DropChain(es, p);
    forall k ensures ValueAt(t, k) == if k == key then None else ValueAt(es, k) {
      if k == key {
        assert forall i :: 1 <= i < |t| ==> t[i].key != k;
      } else if ValueAt(es, k).None? {
        assert forall i :: 1 <= i < |t| ==> t[i].key != k;
      } else {
        var i :| 1 <= i < |es| && es[i].key == k;
        if i < p {
          assert t[i] == es[i];
        } else {
          assert t[i - 1] == es[i];
        }
      }
    }
  }

  /** Overwriting the value of the node carrying `key` keeps the chain and
      changes the value of that key only. */
  lemma Overwrite(es: seq<Entry>, key: Key, val: Word)
    requires Chain(es) && es[Seek(es, key)].key == key
    ensures var t := es[Seek(es, key) := Entry(key, val)];
      Chain(t) &&
      forall k :: ValueAt(t, k) == if k == key then Some(val) else ValueAt(es, k)
  {
    var p := Seek(es, key);
    var t := es[p := Entry(key, val)];
    assert Chain(t);
    forall k ensures ValueAt(t, k) == if k == key then Some(val) else ValueAt(es, k) {
      if k == key {
        assert t[p].key == k;
      } else if ValueAt(es, k).Some? {
        var i :| 1 <= i < |es| && es[i].key == k;
        assert t[i] == es[i];
      } else {
        assert forall i :: 1 <= i < |t| ==> t[i].key != k;
      }
    }
  }

  /** The walk `while (curr->key <= key)` of `ll_lookup` and `ll_remove`
      never stops at a node carrying `key`. */
  lemma SeekPastMisses(es: seq<Entry>, key: Key)
    requires Chain(es) && key < TAIL_KEY
    ensures es[SeekPast(es, key)].key != key
  {
  }

  /** After inserting key 5 into an empty list, the lookup walk passes the
      node carrying 5 and stops at the tail, although 5 is present. */
  lemma LookupWalkPassesInsertedKey()
    ensures var es := [Entry(HEAD_KEY, 0), Entry(TAIL_KEY, 0)];
      var t := es[..Seek(es, 5)] + [Entry(5, 7)] + es[Seek(es, 5)..];
      ValueAt(t, 5) == Some(7) && SeekPast(t, 5) == 2 && t[SeekPast(t, 5)].key == TAIL_KEY
  {
    var es := [Entry(HEAD_KEY, 0), Entry(TAIL_KEY, 0)];
    assert Seek(es, 5) == 1;
    var t := es[..1] + [Entry(5, 7)] + es[1..];
    assert t == [Entry(HEAD_KEY, 0), Entry(5, 7), Entry(TAIL_KEY, 0)];
    assert t[1].key == 5;
    assert SeekPastFrom(t, 5, 1) == SeekPastFrom(t, 5, 2);
  }

  /** `struct linked_list` with its chain of nodes. */
  class List {
    var entries: seq<Entry>

    ghost predicate Valid()
      reads this
    {
      Chain(entries)
    }

    /** `ll_init` (linked_list.c:46-55): head (key 0) linked to tail
        (key 2^64 - 1), both with value 0. */
    constructor Init()
      ensures Valid()
      ensures entries == [Entry(HEAD_KEY, 0), Entry(TAIL_KEY, 0)]
      ensures forall k :: ValueAt(entries, k) == if k == TAIL_KEY then Some(0) else None
    {
      entries := [Entry(HEAD_KEY, 0), Entry(TAIL_KEY, 0)];
    }

    /** `validate` (linked_list.c:57-67): walks from the head while the key
        does not exceed `pred`'s; answers 0 when it meets `pred` and `pred`'s
        successor is `curr`. In the chain every node is reachable, so the
        answer depends on the successor only. */
    method Validate(pred: nat, curr: nat) returns (r: int)
      requires Valid() && pred < |entries| && curr <= |entries|
      ensures r == 0 || r == -1
      ensures r == 0 <==> curr == pred + 1
    {
      var node := 0;
      while KCmp(entries[node].key, entries[pred].key) <= 0
        invariant 0 <= node <= pred
        decreases pred - node
      {
        if node == pred {
          return if curr == pred + 1 then 0 else -1;
        }
        node := node + 1;
      }
      // The walk meets `pred` before any larger key.
      assert false;
      return -1;
    }

    /** The walk `while (curr->key < key)` of `ll_insert` and `ll_update`. */
    method Walk(key: Key) returns (pred: nat, curr: nat)
      requires Valid()
      ensures curr == Seek(entries, key) && pred == curr - 1
    {
      pred := 0;
      curr := 1;
      while KCmp(entries[curr].key, key) < 0
        invariant 1 <= curr < |entries| && pred == curr - 1
        invariant forall j :: 1 <= j < curr ==> entries[j].key < key
        decreases |entries| - curr
      {
        pred := curr;
        curr := curr + 1;
      }
    }

    /** The walk `while (curr->key <= key)` of `ll_lookup` and `ll_remove`;
        for `TAIL_KEY` it would read through the tail's NULL successor. */
    method WalkPast(key: Key) returns (pred: nat, curr: nat)
      requires Valid() && key < TAIL_KEY
      ensures curr == SeekPast(entries, key) && pred == curr - 1
    {
      pred := 0;
      curr := 1;
      while KCmp(entries[curr].key, key) <= 0
        invariant 1 <= curr < |entries| && pred == curr - 1
        invariant forall j :: 1 <= j < curr ==> entries[j].key <= key
        decreases |entries| - curr
      {
        pred := curr;
        curr := curr + 1;
      }
    }

    /** `ll_insert` (linked_list.c:69-102): a key already carried by a node
        after the head (the tail's `TAIL_KEY` included) gives -EEXIST and no
        change; otherwise a node is linked in just before the first larger
        key. */
    method Insert(key: Key, val: Word) returns (r: int)
      requires Valid()
      modifies this
      ensures Valid()
      ensures r == 0 || r == -EEXIST
      ensures r == -EEXIST <==> old(ValueAt(entries, key)).Some?
      ensures r == -EEXIST ==> entries == old(entries)
      ensures r == 0 ==> var p := Seek(old(entries), key);
        entries == old(entries)[..p] + [Entry(key, val)] + old(entries)[p..]
      ensures forall k :: (ValueAt(entries, k) ==
        if k == key && r == 0 then Some(val) else old(ValueAt(entries, k)))
    {
      var pred, curr := Walk(key);
      var ok := Validate(pred, curr);
      // Alone, the pair the walk found always validates: the retry loop of
      // the source runs once.
      assert ok == 0;
      if KCmp(entries[curr].key, key) == 0 {
        r := -EEXIST;
      } else {
        SpliceIn(entries, Entry(key, val));
        entries := entries[..pred + 1] + [Entry(key, val)] + entries[curr..];
        r := 0;
      }
    }

    /** `ll_update` (linked_list.c:104-137): overwrites the value of the node
        carrying `key` (the tail's too, for `TAIL_KEY`), else -ENOENT. */
    method Update(key: Key, val: Word) returns (r: int)
      requires Valid()
      modifies this
      ensures Valid()
      ensures r == 0 || r == -ENOENT
      ensures r == 0 <==> old(ValueAt(entries, key)).Some?
      ensures r == -ENOENT ==> entries == old(entries)
      ensures r == 0 ==> entries == old(entries)[Seek(old(entries), key) := Entry(key, val)]
      ensures forall k :: (ValueAt(entries, k) ==
        if k == key && r == 0 then Some(val) else old(ValueAt(entries, k)))
    {
      var pred, curr := Walk(key);
      var ok := Validate(pred, curr);
      assert ok == 0;
      if KCmp(entries[curr].key, key) == 0 {
        Overwrite(entries, key, val);
        entries := entries[curr := entries[curr].(value := val)];
        r := 0;
      } else {
        r := -ENOENT;
      }
    }

    /** `ll_lookup` (linked_list.c:139-166) as written: the walk moves past
        the node carrying `key`, so the answer is -ENOENT whether or not the
        key is present. */
    method Lookup(key: Key) returns (r: int)
      requires Valid() && key < TAIL_KEY
      ensures r == -ENOENT
    {
      var pred, curr := WalkPast(key);
      var ok := Validate(pred, curr);
      assert ok == 0;
      SeekPastMisses(entries, key);
      r := if KCmp(entries[curr].key, key) == 0 then 0 else -ENOENT;
    }

    /** `ll_remove` (linked_list.c:168-202) as written: the walk moves past
        the node carrying `key`, so nothing is ever unlinked. */
    method Remove(key: Key) returns (r: int)
      requires Valid() && key < TAIL_KEY
      modifies this
      ensures Valid() && entries == old(entries)
      ensures r == -ENOENT
    {
      var pred, curr := WalkPast(key);
      var ok := Validate(pred, curr);
      assert ok == 0;
      SeekPastMisses(entries, key);
      if KCmp(entries[curr].key, key) == 0 {
        // The walk stopped past any node carrying `key`: the unlink of
        // linked_list.c:189-191 is never reached.
        assert false;
        r := 0;
      } else {
        r := -ENOENT;
      }
    }

    /** `ll_lookup` with the walk of `ll_insert` (stop at the first key not
        below `key`): 0 exactly when the key is present. */
    method LookupCorrected(key: Key) returns (r: int)
      requires Valid()
      ensures r == 0 || r == -ENOENT
      ensures r == 0 <==> ValueAt(entries, key).Some?
    {
      var pred, curr := Walk(key);
      var ok := Validate(pred, curr);
      assert ok == 0;
      r := if KCmp(entries[curr].key, key) == 0 then 0 else -ENOENT;
    }

    /** `ll_remove` with the walk of `ll_insert`: unlinks the node carrying
        `key` when there is one. The tail is never unlinked. */
    method RemoveCorrected(key: Key) returns (r: int)
      requires Valid() && key < TAIL_KEY
      modifies this
      ensures Valid()
      ensures r == 0 || r == -ENOENT
      ensures r == 0 <==> old(ValueAt(entries, key)).Some?
      ensures r == -ENOENT ==> entries == old(entries)
      ensures r == 0 ==> var p := Seek(old(entries), key);
        entries == old(entries)[..p] + old(entries)[p + 1..]
      ensures forall k :: ValueAt(entries, k) == if k == key then None else old(ValueAt(entries, k))
    {
      var pred, curr := Walk(key);
      var ok := Validate(pred, curr);
      assert ok == 0;
      if KCmp(entries[curr].key, key) == 0 {
        SpliceOut(entries, key);
        entries := entries[..pred + 1] + entries[curr + 1..];
        r := 0;
      } else {
        r := -ENOENT;
      }
    }

    /** `ll_range` (linked_list.c:204-220): the values of the nodes after the
        head whose key lies in [low, high], in ascending key order; their
        number is the count the source returns. For `high == TAIL_KEY` the
        walk leaves the tail and reads through NULL, so that bound is
        excluded. */
    method Range(low: Key, high: Key) returns (res: seq<Word>)
      requires Valid() && high < TAIL_KEY
      ensures res == Filter(entries[1..], low, high)
    {
      var es := entries;
      var curr := 1;
      while KCmp(es[curr].key, low) < 0
        invariant 1 <= curr < |es|
        invariant forall j :: 1 <= j < curr ==> es[j].key < low
        decreases |es| - curr
      {
        curr := curr + 1;
      }
      var start := curr;
      res := [];
      while KCmp(es[curr].key, high) <= 0
        invariant start <= curr < |es|
        invariant res == Filter(es[start..curr], low, high)
        decreases |es| - curr
      {
        FilterAppend(es[start..curr], [es[curr]], low, high);
        assert es[start..curr + 1] == es[start..curr] + [es[curr]];
        res := res + [es[curr].value];
        curr := curr + 1;
      }
      RangeWindow(es, low, high, start, curr);
    }
  }
}
