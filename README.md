# Concurrent-Data-Structures: sequential models in Dafny

This project models four data structures of the C repository
Concurrent-Data-Structures, each run by a single thread, with their locks
and latches removed. It proves what each operation does.

- **B+-tree** (`bptree/bptree.c`). The model has pages with a type, a
  `length` and an entry array of capacity `degree` (one more for an
  internal page). A tree holds `degree`, `root` and the leaf list. It
  models the in-page binary search, `is_safe`, `find`, `page_insert`,
  `split`, `bp_insert`, `bp_lookup`, `merge`, `bp_remove`, `bp_range` and
  `bp_create`.
  - The pages are Dafny objects that are updated in place.
  - The tree keeps a ghost view that mirrors every page as a value: its
    type, its slots and its length, its level, and, in an ordered tree,
    the key interval it owns.
  - Two invariants are stated on that view. `TreeSound` is structural:
    capacities, levels, child pointers and a leaf list of distinct leaves.
    `TreeOrdered` is the search-tree invariant: every page's keys lie
    inside its interval, and the leaf list runs through the key space in
    order.
  - The tree's contents are the used slots of the leaves, in list order.
  - Every operation keeps `TreeSound`.
  - On an ordered tree, lookup and range answer from the contents.
  - Insert keeps the tree ordered and changes the contents exactly as
    sorted insertion does.
  - Remove changes the contents exactly as removal of that key does.
  - The path that `find` records, from the root down to a leaf, stands in
    for the thread-local lock trace that `split` and `merge` use to reach
    a page's parent.
- **Split-ordered hash set arithmetic** (`hashset/lock_free/hashset.c`).
  This covers:
  - 64-bit bit reversal;
  - the sentinel-key and regular-key encodings;
  - the father-bucket index;
  - the cluster coordinates;
  - the bucket index;
  - the doubling of the bucket count.
- **Array min-heap** (`heap/heap.c`). Push, pop and top act on an array
  of tagged nodes. The sift-up and sift-down loops are proved against
  functions on the array's contents. Lemmas about those functions give the
  multiset of keys, the tags and heap order.
- **Sorted linked list with head and tail sentinels**
  (`linked_list/linked_list.c`). The chain of nodes from the head to the
  tail is a sequence of entries, and a node pointer is an index into it.
  Insert, update, lookup, remove, validate and range are methods on it.

Keys and values are unsigned 64-bit words. `k_cmp` is a three-way compare.

## Model

| member | source | states |
|---|---|---|
| Keys.KCmp | include/util.h:15-19 | The answer is -1, 0 or 1 exactly as a is below, equal to or above b. |
| BPlusPage.Page.constructor | bptree/bptree.c:31-42 | A fresh page of the given type with length 0. Its capacity is degree, or degree + 1 for an internal page. Every slot is unwritten with key 0, so slot 0 carries the sentinel key 0. |
| BPlusPage.Page.Search | bptree/bptree.c:79-103 | The answer idx lies in [-1, length - 1]. On a sorted page every used slot up to idx has a key at most k and every later slot a key above k. When k is present, idx is its slot. |
| BPlusPage.IsSafeMatchesTriggers | bptree/bptree.c:105-119 | A READ is always safe. An ADD is unsafe exactly when the page is full, that is, when the insert that reaches it splits it. A DEL is safe exactly when removing one entry leaves the page at or above the length below which bp_remove and merge merge it. |
| BPlusPage.Page.InsertAt | bptree/bptree.c:221-227 | The entry goes right after slot idx. Later used slots move up by one, and the length grows by one. |
| BPlusPage.Page.InsertChild | bptree/bptree.c:206-228 | page_insert. Into an empty parent, the child goes into slot 0 and the sentinel key stays. Otherwise (the child's first real key, the child) goes right after the slot the search for that key answers, and the length grows by one. |
| BPlusPage.Page.RemoveAt | bptree/bptree.c:447-450 | The slot idx is removed. Later used slots move down by one, and the length shrinks by one. |
| BPlusPage.Page.AppendFrom | bptree/bptree.c:380-384 | The sibling's used slots from first on are copied in after the page's own, and the length grows by that count. |
| BPlusPage.Page.Push | bptree/bptree.c:406-410 | The entry is written right after the used slots, and the length grows by one. |
| BPlusPage.Page.Rekey | bptree/bptree.c:416 | Slot idx takes the new key and keeps its payload. |
| BPlusPage.Page.TakeUpperHalf | bptree/bptree.c:237-244 | The fresh page takes the top (length - first)/2 entries, in order, starting at slot first. The old page keeps the rest. |
| BPlusPage.InsertedSorted | bptree/bptree.c:297-303 | Putting an entry right after the last slot whose key is below its key keeps a sorted page sorted. |
| BPlusPage.RemovedSorted | bptree/bptree.c:447-450 | Removing a slot keeps a sorted page sorted. |
| BPlusShape.OneLeaf | bptree/bptree.c:44-55 | The tree bp_create builds is sound and ordered. It is one empty leaf that owns every key, alone on the leaf list, with no contents. |
| BPlusShape.DescendStep | bptree/bptree.c:196-201 | One step of find takes the slot the search answers one level down. In an ordered tree that slot is live, and its child's interval holds k. |
| BPlusShape.LeafLookup | bptree/bptree.c:318-325 | In an ordered tree, the search answer in the leaf whose interval holds k settles the stored value. k is present exactly when that slot holds k, and the slot's value is then the value stored under k. |
| BPlusShape.EmptyRoot | bptree/bptree.c:314-316 | An ordered tree whose root has no used slot stores nothing. |
| BPlusShape.OrderedSegment | bptree/bptree.c:461-497 | In an ordered tree the contents of the leaf list are strictly sorted. |
| BPlusShape.Covering | bptree/bptree.c:190-204 | In an ordered tree the value stored under k is the one in the leaf whose interval holds k. |
| BPlusTree.Find | bptree/bptree.c:190-204 | The descent ends at a leaf, with the path from the root and the search answer there. In an ordered tree it never follows slot -1 or an unwritten slot, and the leaf it reaches is on the leaf list and owns k. |
| BPlusTree.Tree.Create | bptree/bptree.c:44-55 | The root is an empty leaf, the only page on the leaf list. The tree is ordered and its contents are empty. |
| BPlusTree.Tree.Lookup | bptree/bptree.c:310-330 | On an ordered tree the answer is 0 with the stored value exactly when the contents hold k, and -ENOENT otherwise. |
| BPlusTree.Tree.Insert | bptree/bptree.c:274-308 | If the contents hold k, the answer is -EEXIST and nothing changes: the root, the leaf list and every page stay as they were. Otherwise the answer is 0 and the contents become their sorted insertion of (k, v). The tree stays ordered. |
| BPlusTree.Put | bptree/bptree.c:274-308 | bp_insert on the view: -EEXIST with no change, or 0 with the sorted insertion. The result is sound and ordered. |
| BPlusTree.Tree.Remove | bptree/bptree.c:430-459 | The tree stays sound. A non-zero answer changes nothing: the root, the leaf list and every page stay as they were, so an ordered tree stays ordered. On an ordered tree the answer is 0 exactly when the contents hold k, and the contents lose that entry. |
| BPlusTree.Delete | bptree/bptree.c:430-459 | bp_remove on the view. An empty root or a missing key gives -ENOENT and no change. In an ordered tree the contents become RemoveKey of k. |
| BPlusTree.Erase | bptree/bptree.c:447-455 | The found slot is removed, and merge is called when the leaf falls below (degree - 1)/2 + 1. In an ordered tree the slot held k and the contents lose k; when no merge follows, the tree stays ordered. |
| BPlusTree.Removal | bptree/bptree.c:447-450 | Removing the found slot of a leaf keeps the tree sound. In an ordered tree it keeps the tree ordered and takes exactly k out of the contents. |
| BPlusTree.Tree.Range | bptree/bptree.c:461-497 | At most len words when len > 0. On an ordered tree they are the first len words, or all of them when len is 0, of the contents' values from the first key at or above k on, in ascending key order. |
| BPlusRange.Scan | bptree/bptree.c:467-496 | The walk over the leaf list: at most len words, and the capped values of the contents from k on whenever every leaf is sorted. |
| BPlusRange.Start | bptree/bptree.c:474-477 | In a leaf whose last key is at or above k, the walk stops at the first slot whose key is at or above k, inside the used slots. |
| BPlusRange.Copy | bptree/bptree.c:483-490 | Copies the leaf's values from slot i on, in order, and stops as soon as len words are out. |
| BPlusRange.OrderedLeavesSorted | bptree/bptree.c:461-497 | In an ordered tree every leaf on the list is sorted. |
| BPlusContents.InsertSortedSpec | bptree/bptree.c:297-303 | After sorted insertion of an absent key, that key's value is stored and every other key keeps its value. |
| BPlusContents.InsertSortedSorted | bptree/bptree.c:297-303 | Sorted insertion of an absent key keeps the contents strictly sorted. |
| BPlusContents.RemoveKeySpec | bptree/bptree.c:447-450 | After removal no value is stored under k, and every other key keeps its value. |
| BPlusContents.RemoveKeySorted | bptree/bptree.c:447-450 | Removing keys keeps strictly sorted contents strictly sorted. |
| BPlusContents.AtOrAboveOnlyAbove | bptree/bptree.c:474-475 | In sorted contents, the tail a scan from k walks holds only keys at or above k. |
| BPlusContents.AtOrAboveAllAbove | bptree/bptree.c:474-475 | That tail holds every entry whose key is at or above k. |
| BPlusContents.Capped | bptree/bptree.c:484-489 | A prefix of the words, at most len of them when len > 0, and all of them when len is 0. |
| BPlusSplit.AddAfter | bptree/bptree.c:246-250 | list_add: the new leaf goes right after the split leaf on the list. |
| BPlusSplit.AddAfterAt | bptree/bptree.c:248 | In a list of distinct pages, the new leaf is spliced in at the position right after the split leaf. |
| BPlusSplit.Carve | bptree/bptree.c:231-244 | The fresh page of the same type holds the upper half. The old page keeps its first Keep slots. The fresh page's first real key is the separator. |
| BPlusSplit.SplitPages | bptree/bptree.c:231-262 | The fresh page takes the upper half, and page_insert enters it into the parent right after the slot that the search for its first key answers. |
| BPlusSplit.UpperHalfKeys | bptree/bptree.c:237-244 | The moved entries are sorted, from the separator on, and below the page's upper end. |
| BPlusSplit.UpperHalfUsed | bptree/bptree.c:237-244 | The two halves of a split leaf hold together exactly what it held. No entry is lost or duplicated. |
| BPlusSplit.SplitSlot | bptree/bptree.c:262 | The search for the separator in the parent answers the split page's slot, so the new entry goes right after it. |
| BPlusSplit.SplitKeepsAll | bptree/bptree.c:230-272 | The split step keeps the tree sound and ordered and keeps its contents. |
| BPlusSplit.SplitItems | bptree/bptree.c:230-272 | The split step moves entries between pages but keeps the contents. |
| BPlusSplit.SplitOrdered | bptree/bptree.c:230-272 | The split step keeps the search-tree invariant. The split page ends at the separator, where the fresh page takes over. |
| BPlusSplit.SplitChain | bptree/bptree.c:246-250 | The leaf list still runs through the key space in order after a leaf split. |
| BPlusSplit.GrowRoot | bptree/bptree.c:263-269 | A new internal root with the old root in slot 0 keeps the tree sound, ordered and its contents. |
| BPlusGrow.Grow | bptree/bptree.c:265-266 | The new root is internal, has length 1 and holds the old root in slot 0 with key 0. |
| BPlusGrow.NewRoot | bptree/bptree.c:263-268 | Splitting a full root first grows the tree by a new root with the old root in slot 0, and keeps it sound, ordered and its contents. |
| BPlusGrow.Step | bptree/bptree.c:231-262 | The split step of a full page under a parent with room: the upper half goes to a fresh page, which is entered into the parent right after the split page's slot and put on the leaf list right after it when it is a leaf. |
| BPlusGrow.FullFather | bptree/bptree.c:252-261 | A full parent is split first. The page that takes the new entry is the fresh parent when its kv[1] is at most the separator, and the old parent otherwise. It covers the split page's slot. |
| BPlusGrow.Choose | bptree/bptree.c:258-260 | The fresh parent is chosen exactly when its kv[1] is at most the separator. |
| BPlusGrow.Split | bptree/bptree.c:230-272 | split: the full page is halved into itself and a fresh page. The tree stays sound and ordered, and its contents are unchanged. |
| BPlusGrow.PickLeaf | bptree/bptree.c:291-294 | After a leaf split, the new leaf is taken, with its own search answer, exactly when its first key is at most k. |
| BPlusGrow.AddEntry | bptree/bptree.c:287-303 | Split when full, pick the leaf, and enter the entry. The tree stays sound and ordered, and its contents become their sorted insertion of the entry. |
| BPlusGrow.Place | bptree/bptree.c:297-303 | The entry goes into the leaf right after the search answer. Nothing else changes. |
| BPlusInsert.ChosenFather | bptree/bptree.c:256-262 | After the parent split, the comparison picks the half that holds the child's slot, and the split of the child can proceed there. |
| BPlusInsert.LeafChoice | bptree/bptree.c:288-296 | After a leaf split, the comparison picks the half whose interval holds k, and the search answer stays right. |
| BPlusInsert.AddOrdered | bptree/bptree.c:297-303 | Entering the entry between the keys below and above it keeps the tree ordered. |
| BPlusInsert.AddItems | bptree/bptree.c:297-303 | Entering the entry changes the contents as sorted insertion does, and the contents did not hold its key. |
| BPlusInsert.SepInside | bptree/bptree.c:237-243 | A full page keeps at least one entry (two when internal) and moves at least one. The separator lies strictly inside its interval. |
| BPlusView.SplitChoice | bptree/bptree.c:289-295 | The new leaf is not empty. The entry goes into it at its own search answer when its first key is at most the entry's key, and into the old leaf at the old answer otherwise. |
| BPlusView.PlaceView | bptree/bptree.c:297-303 | Putting the entry into a leaf that is ready for it keeps the tree sound and ordered, and turns the contents into their sorted insertion. |
| BPlusMerge.Without | bptree/bptree.c:362 | list_del: the list without that page. A list without the page is left alone. |
| BPlusMerge.UnderfullRoom | bptree/bptree.c:452 | Below the merge threshold, a DEL access is not safe and the page has room for one more entry. |
| BPlusMerge.AbsorbedUsed | bptree/bptree.c:380-384 | After a full merge the used slots are the page's, then the sibling's from first on. |
| BPlusMerge.BorrowUsed | bptree/bptree.c:406-411 | After a borrow the page gains the sibling's first real entry at its end, and the sibling loses it. |
| BPlusMerge.AbsorbItems | bptree/bptree.c:375-398 | A full merge of neighbouring leaves, with the sibling leaving the list, keeps the contents. |
| BPlusMerge.BorrowItems | bptree/bptree.c:402-411 | A borrow between neighbouring leaves keeps the contents. |
| BPlusMerge.LeafSibling | bptree/bptree.c:345-352 | In an ordered tree, the parent search for the leaf's first key answers the leaf's own slot. The child in the next slot is the next leaf on the list. |
| BPlusMerge.CutItems | bptree/bptree.c:447-450 | Removing a slot of a leaf of an ordered tree removes that slot's key from the contents. |
| BPlusMerge.CutOrdered | bptree/bptree.c:447-450 | Removing a used slot of a leaf keeps an ordered tree ordered. |
| BPlusMerge.RetypeTree | bptree/bptree.c:336-338 | Turning an empty root into a leaf keeps the tree sound. |
| BPlusMerge.WithoutSound | bptree/bptree.c:394-398 | Dropping a page from the leaf list keeps the tree sound. |
| BPlusRemove.Shift | bptree/bptree.c:447-450 | The shift loop removes used slot idx. |
| BPlusRemove.Absorb | bptree/bptree.c:380-384 | The page takes the sibling's used slots from first on. |
| BPlusRemove.Take | bptree/bptree.c:406-410 | The page takes the sibling's slot first as its new last slot. |
| BPlusRemove.RekeyAt | bptree/bptree.c:416 | The parent's slot takes the new separator key. |
| BPlusRemove.Shorten | bptree/bptree.c:354-357 | The parent loses its last used slot. The shift loop never runs there. |
| BPlusRemove.Retype | bptree/bptree.c:336-339 | An empty root becomes a leaf at level 0. |
| BPlusMerge.RetypedRootOffList | bptree/bptree.c:335-340 | As written, an internal root left without entries becomes a leaf that is not on the leaf list. The tree can then not be ordered for any intervals, and an entry later written into the root does not reach the contents. |
| BPlusRemove.RootStep | bptree/bptree.c:335-340 | The corrected root step: an internal root left without entries becomes a leaf at the head of the leaf list, and any other root is left alone. The tree stays sound and the contents stay the same. An internal root that becomes a leaf goes on the list, and a leaf root already on it stays there. |
| BPlusMerge.RootSeen | bptree/bptree.c:52 | With the root at the head of the leaf list, what is later written into it comes first in the contents. |
| BPlusMerge.SentinelLeft | bptree/bptree.c:353-372 | An internal page made by split, with one real child, that loses that child keeps only its unwritten slot 0. The page is not empty, so merge leaves it in place when there is no right sibling, and every search in it answers slot 0. |
| BPlusRemove.FoldKeeps | bptree/bptree.c:375-401 | A full merge keeps the tree sound. The sibling leaves the list when it is a leaf, and the contents stay the same. |
| BPlusRemove.LendKeeps | bptree/bptree.c:402-411 | A borrow keeps the tree sound and the contents the same. |
| BPlusRemove.RekeyKeeps | bptree/bptree.c:414-416 | Rewriting a separator keeps the tree sound and the contents the same. |
| BPlusRemove.Fold | bptree/bptree.c:375-401 | The sibling's entries are appended, and its parent entry is removed. The answer says whether the parent is left below degree/2 + 1. |
| BPlusRemove.Lend | bptree/bptree.c:402-418 | One entry moves from the sibling to the page's end, and the parent's separator becomes the sibling's new first key. There is no upward recursion. |
| BPlusRemove.Resep | bptree/bptree.c:414-416 | The parent slot the search answers takes the sibling's new first key. |
| BPlusRemove.Unlink | bptree/bptree.c:352-370 | An empty page with no right sibling is removed from its parent, and from the leaf list when it is a leaf. The contents are kept. |
| BPlusRemove.Pair | bptree/bptree.c:375-419 | A full merge when page.length + sibling.length - first <= degree, and a borrow otherwise. |
| BPlusRemove.Right | bptree/bptree.c:348-352 | When the parent has a slot after the page's, the child there is the right sibling, and the page merges with it or borrows from it. Nothing changes when that slot holds no child, holds the page itself, or holds a sibling with fewer used slots than the sentinel. The tree stays sound and the contents stay the same. |
| BPlusRemove.Level | bptree/bptree.c:343-425 | One level of merge, with the right sibling in the slot after the page's. The tree stays sound and the contents stay the same. The answer says whether the parent is left below degree/2 + 1. |
| BPlusRemove.Merge | bptree/bptree.c:332-428 | merge up the path. An empty root becomes a leaf. Otherwise it merges at each level while the parent is left underfull. The tree stays sound and the contents stay the same. |
| SplitOrder.ReverseByBit | hashset/lock_free/hashset.c:14-26 | Bit i of the result is bit 63 - i of the input, and the result equals the reference reversal. |
| SplitOrder.ReverseBitsAt | hashset/lock_free/hashset.c:19-23 | The reference reversal puts bit 63 - i of k at bit i. |
| SplitOrder.ReverseInvolution | hashset/lock_free/hashset.c:14-26 | Reversing twice gives the key back. |
| SplitOrder.BitsDetermine | hashset/lock_free/hashset.c:14-26 | A 64-bit word is determined by its 64 bits. |
| SplitOrder.SetClearBit | hashset/lock_free/hashset.c:21 | Setting a clear bit j adds 2^j. |
| SplitOrder.SentinelKeyIsEven | hashset/lock_free/hashset.c:28-31 | set_sentinel_key always yields an even value: bit 0 is clear. |
| SplitOrder.RegularKeyIsOdd | hashset/lock_free/hashset.c:33-36 | set_key always yields an odd value. |
| SplitOrder.SentinelNeverRegular | hashset/lock_free/hashset.c:28-36 | No regular key equals a sentinel key. |
| SplitOrder.RegularKeyIgnoresTopBit | hashset/lock_free/hashset.c:11-12 | Keys that differ only in bit 63 have the same regular key. |
| SplitOrder.RegularKeyInjective | hashset/lock_free/hashset.c:33-36 | Two keys below 2^63 with the same regular key are equal. |
| SplitOrder.FatherIndex | hashset/lock_free/hashset.c:39-48 | The father of a bucket b > 0 is b with its highest set bit cleared, and lies below b. |
| SplitOrder.GetFaIndex | hashset/lock_free/hashset.c:39-48 | For a power-of-two bucket count above b, the loop answers b's father, and 0 for bucket 0. The answer is strictly below b when b > 0. |
| SplitOrder.AncestorChain | hashset/lock_free/hashset.c:60-63 | The chain of fathers strictly decreases to bucket 0, so the recursion of get_bucket_list ends. |
| SplitOrder.ClusterCoords | hashset/lock_free/hashset.c:51-52 | c_id * BUCKET_PER_CLUSTER + c_b_id == b_id with c_b_id < BUCKET_PER_CLUSTER, and c_id < CLUSTER_LEN within the table. |
| SplitOrder.BucketOf | hashset/lock_free/hashset.c:148 | The bucket index lies below the bucket count. |
| SplitOrder.NumBucketsStartValid | hashset/lock_free/hashset.h:6-9 | MIN_NUM_BUCKETS is a power of two within the table. |
| SplitOrder.NumBucketsStaysValid | hashset/lock_free/hashset.c:161-169 | Doubling only while num_b * 2 <= CLUSTER_LEN * BUCKET_PER_CLUSTER keeps the count a power of two within the table, and never decreases it. |
| BinaryHeap.Swap | heap/heap.c:9-17 | Tag, key and tid of the two slots are exchanged. Each slot keeps its lock, and every other slot is unchanged. |
| BinaryHeap.Heap.HSwap | heap/heap.c:9-17 | The array becomes Swap of its old contents. |
| BinaryHeap.SwapKeepsBag | heap/heap.c:9-17 | A swap inside the heap keeps its multiset of keys. |
| BinaryHeap.Heap.Create | heap/heap.c:19-39 | An even size is rounded up to odd, and len is 0. Every slot is EMPTY with tid -1 and its lock unlocked. |
| BinaryHeap.Heap.Push | heap/heap.c:45-99 | When full, the answer is -ENOBUFS and nothing changes. Otherwise len grows by one, exactly k is added to the multiset, and heap order is kept. No slot is left BUSY. |
| BinaryHeap.Heap.Rise | heap/heap.c:64-96 | The sift-up loop computes SiftUp of the array. |
| BinaryHeap.PushSpec | heap/heap.c:54-96 | A push adds exactly its key to the multiset, leaves every slot of the heap AVAIL, keeps the slots past the heap, and keeps heap order. |
| BinaryHeap.SiftUpKeepsBag | heap/heap.c:64-87 | The sift-up keeps the multiset of keys and the slots past the heap. |
| BinaryHeap.SiftUpSettles | heap/heap.c:64-96 | After the sift-up no slot of the heap is BUSY. |
| BinaryHeap.SiftUpOrders | heap/heap.c:64-87 | The sift-up restores heap order. |
| BinaryHeap.Heap.Pop | heap/heap.c:101-158 | On an empty heap, -ENONET and no change. Otherwise it returns the key at slot 0, len shrinks by one, exactly that key leaves the multiset, and the array is the as-written sift-down of the moved array. |
| BinaryHeap.Heap.SinkAsWritten | heap/heap.c:127-154 | The sift-down loop, with its guard as written, computes SiftDownAsWritten. |
| BinaryHeap.NextAsWritten | heap/heap.c:128-153 | The next slot is a child of now that is smaller than now and no larger than any non-EMPTY sibling, or -1 when the loop ends. |
| BinaryHeap.PopSpec | heap/heap.c:118-154 | The pop takes exactly the root key out of the multiset, leaves the heap's slots AVAIL, and leaves the vacated slot EMPTY. |
| BinaryHeap.PopMovedBag | heap/heap.c:118-122 | Moving the last slot to the root takes exactly the root key out of the multiset. |
| BinaryHeap.SiftDownAsWrittenKeepsBag | heap/heap.c:127-154 | The as-written sift-down keeps the multiset of keys. |
| BinaryHeap.PopAsWrittenBreaksOrder | heap/heap.c:128 | On the heap 1..5, the as-written pop leaves 5 above its lone left child 4. |
| BinaryHeap.NextDown | heap/heap.c:128-153 | With the corrected guard, the next slot is the smallest child when it is smaller than now, and -1 when no child is smaller. |
| BinaryHeap.SiftDownOrders | heap/heap.c:127-154 | The corrected sift-down restores heap order from a heap that is ordered except below now. |
| BinaryHeap.SiftDownKeepsBag | heap/heap.c:127-154 | The corrected sift-down keeps the multiset of keys. |
| BinaryHeap.PopRestoresHeap | heap/heap.c:118-154 | Moving the last slot to the root of a heap and sifting down with the corrected guard restores heap order. |
| BinaryHeap.PopCorrectedSpec | heap/heap.c:118-154 | The corrected pop keeps the multiset minus the root key, leaves the heap's slots AVAIL and the vacated slot EMPTY, and keeps heap order. |
| BinaryHeap.Heap.PopCorrected | heap/heap.c:101-158 | h_pop with the guard corrected: the same answers, and heap order is kept. |
| BinaryHeap.Heap.Sink | heap/heap.c:127-154 | The corrected sift-down loop computes SiftDown. |
| BinaryHeap.RootIsMinimum | heap/heap.c:160-169 | In a heap-ordered array slot 0 holds a least key. |
| BinaryHeap.Heap.Top | heap/heap.c:160-169 | On an empty heap, -ENONET. Otherwise slot 0's key, which is the least key of an ordered heap. Nothing changes. |
| SortedList.List.Init | linked_list/linked_list.c:46-55 | Head (key 0) linked to tail (key 2^64 - 1). No key but the tail's is present. |
| SortedList.List.Validate | linked_list/linked_list.c:57-67 | 0 exactly when curr is pred's successor, and -1 otherwise. |
| SortedList.Seek | linked_list/linked_list.c:80-84 | The walk stops at the first node whose key is not below key. Every node before it has a smaller key. |
| SortedList.List.Walk | linked_list/linked_list.c:76-84 | The walk of ll_insert and ll_update ends at Seek, with pred right before it. |
| SortedList.List.Insert | linked_list/linked_list.c:69-102 | -EEXIST and no change exactly when the key is present (the tail's key included). Otherwise the new node goes right before the first node whose key is not below key. Only that key's value changes. |
| SortedList.SpliceIn | linked_list/linked_list.c:94 | Linking the node in keeps the keys strictly increasing, and adds exactly that key with that value. |
| SortedList.List.Update | linked_list/linked_list.c:104-137 | 0 exactly when the key is present. Then only that node's value is overwritten. Otherwise -ENOENT and no change. |
| SortedList.Overwrite | linked_list/linked_list.c:126 | Overwriting a node's value keeps the chain and changes that key's value only. |
| SortedList.SeekPast | linked_list/linked_list.c:149-153 | The walk stops at the first node whose key exceeds key. |
| SortedList.List.WalkPast | linked_list/linked_list.c:145-153 | The walk of ll_lookup and ll_remove ends at SeekPast. |
| SortedList.SeekPastMisses | linked_list/linked_list.c:149-159 | The node that walk stops at never carries key. |
| SortedList.List.Lookup | linked_list/linked_list.c:139-166 | As written: always -ENOENT, whether or not the key is present. |
| SortedList.List.Remove | linked_list/linked_list.c:168-202 | As written: always -ENOENT, and nothing is unlinked. |
| SortedList.LookupWalkPassesInsertedKey | linked_list/linked_list.c:149-159 | After key 5 is inserted into an empty list, the lookup walk passes its node and stops at the tail. |
| SortedList.List.LookupCorrected | linked_list/linked_list.c:139-166 | With the walk of ll_insert, 0 exactly when the key is present. |
| SortedList.List.RemoveCorrected | linked_list/linked_list.c:168-202 | With the walk of ll_insert, 0 exactly when the key is present. Then the node is unlinked and only that key disappears. Otherwise -ENOENT and no change. |
| SortedList.SpliceOut | linked_list/linked_list.c:189 | Unlinking the node keeps the chain sorted and removes exactly that key. |
| SortedList.DropChain | linked_list/linked_list.c:189 | Dropping a node between the sentinels keeps the chain sorted. The later nodes move down one place. |
| SortedList.List.Range | linked_list/linked_list.c:207-220 | The values of the nodes with low <= key <= high, in ascending key order. |
| SortedList.RangeWindow | linked_list/linked_list.c:211-217 | The entries in [low, high] are those between the first key not below low and the first key above high. |

## Left out

- Latches, locks and concurrency are not modelled. This covers:
  - the B+-tree's `crabbing_lock`, `unlock_all`, `root_lock` and `list_lock`;
  - the heap's node spin locks and heap lock (a slot's lock word is kept as a value that `h_swap` does not move);
  - the list's spin locks and its validate-and-retry loops (each retry loop runs once, because `validate` always succeeds when one thread runs alone);
  - the hash set's CAS and `malloc`-based table management.
- `list.h` is not part of this model. `list_add` and `list_del` are splices of the leaf sequence. When the page is not on the list, they leave the list unchanged.
- `free_page`, `bp_destroy`, `ll_destory`, `h_destroy`, `hs_destroy` and the print functions are left out. Freed pages stay in the ghost view, unreachable.
- Places where the C reads or writes through a pointer that is not there are guarded instead. In each case the model takes "no match" or stops:
  - slot -1 after a search that answers -1 (bptree.c:282, 321, 442, 387, 415);
  - slot `length - 1` of an empty leaf in `bp_range` (bptree.c:474);
  - an unwritten child in slot 0 of an internal page.
  
  `find` then returns `ok == false`, and `Delete` and `Lookup` answer `-EFAULT`. In an ordered tree none of this happens.
- Merge has further guarded cases. In each one nothing changes:
  - the slot after the page's holds no child, or holds the page itself;
  - the sibling has fewer used slots than the sentinel;
  - the page has no sibling and the parent has no used slot.
- In a full merge the model searches the parent for the sibling's first key before copying, not after. The copy does not touch the parent or the sibling, so the search answers the same.
- `split` is reordered: when the parent is full, or the root splits, that is done before the upper half is copied. The final state is the same as in the C order.
- BPlusTree.Tree.Insert: requires an ordered tree. The lower-level `Put` also states the result for sound, ordered trees only, because the slot the insert writes is only known to be right in an ordered tree.
- BPlusTree.Tree.Remove: when the answer is 0, the contract states only that the tree stays sound, not that it stays ordered. No step of `merge` (`Fold`, `Lend`, `Resep`, `Unlink`, `Merge`) is proved to keep the search-tree invariant; each is proved to keep soundness and the contents only. The C `merge` is known to break the invariant in two ways:
  - An internal page made by `split` can lose its last real child, so that only its never-written slot 0 is left (`BPlusMerge.SentinelLeft`). This is the unlink of an empty page that has no right sibling (bptree.c:353-372). Every search in that page answers slot 0, and a later merge with a right sibling gives the dead slot a real interval. No corrected member is given, because a page does not record whether its slot 0 was ever written: the leftmost internal page of a level holds a real child there.
  - The root is retyped as a leaf without going on the leaf list. This is the second row under "## Findings". `Merge` keeps that root step as written, and `BPlusRemove.RootStep` is the corrected step.
  
  The contents are still proved to lose exactly the removed key whenever the tree was ordered before the call. With no merge, the tree stays ordered (`BPlusTree.Erase`).
- BPlusShape.TreeSound: states no lower bound on how full a page is, only the capacity bound. The lower bound the merge threshold suggests, `(degree - 1)/2 + 1` entries for a leaf (bptree.c:452), does not hold in the C. With degree 3, a full leaf of 3 entries splits by moving `(3 - 0)/2 = 1` entry to the new leaf (bptree.c:236-244). When the new key is smaller than that entry it goes to the left half, and the new leaf keeps 1 entry, below the threshold of 2. After a merge, the last child of a parent and the root may also stay below it (bptree.c:336-341, 370-372). `merge` only uses the threshold as a trigger, and no operation's correctness depends on a minimum, so none is stated.
- BPlusTree.Tree.Create: requires `degree >= 2`, and every tree invariant includes it. `bp_create` accepts any unsigned degree, but with degree 1 the first split trips the assert at bptree.c:219. The tests use degree 32.
- BPlusTree.Tree.Range: with `len == 0` the early exit never fires, so every value from `k` on is returned. This follows the code. The values are returned as a sequence, not written into `v_arr`, and its length is the count.
- SortedList.List.Lookup, SortedList.List.Remove and SortedList.List.WalkPast: require `key < TAIL_KEY`. For `TAIL_KEY` the C walk steps past the tail and reads through its NULL successor.
- SortedList.List.Range: requires `high < TAIL_KEY`. Otherwise the C walk runs off the tail.
- The hash set's float load-factor test (hashset.c:161) is a boolean parameter of `NextNumBuckets`. Bucket-list creation, `hs_insert`, `hs_lookup` and `hs_remove` are only modelled through their index arithmetic.
- The heap's concurrent branches are not modelled: a node moved by another thread (heap.c:81-84) and an EMPTY left child during a concurrent push (heap.c:133-136). Run alone, the sift-up always finds its own BUSY node. An EMPTY child is treated as the C does.
- The C `assert`s (bptree.c:219, 280, 319, 440, 476; heap.c:124) are not modelled as checks. Where they matter, the model's own contracts say what holds.

## Findings

| source | as written | input that shows it | evidently intended | confidence | as-written member | corrected member |
|---|---|---|---|---|---|---|
| heap/heap.c:128 | The sift-down loop runs only while `now * 2 + 2 < len`, so a slot whose only child is a left child is never compared with it. | Keys 1, 2, 3, 4, 5 in heap order; pop. 5 moves to the root and swaps with 2; the loop then stops at slot 1 (1 * 2 + 2 == 4), leaving 5 above its lone left child 4. | Loop while `now * 2 + 1 < len` and treat a missing right child as absent, so that pop keeps heap order. | not executed | BinaryHeap.PopAsWrittenBreaksOrder | BinaryHeap.Heap.PopCorrected |
| bptree/bptree.c:335-340 | When the root loses its last entry, `merge` retypes it as a leaf but never adds it to `leaf_list`. A root that was an internal page becomes a leaf that is not on the list. | Degree 3: insert 1, 2, 3, 4, then remove 1, 2, 3, 4, then insert 5. The root is now a leaf holding 5, the leaf list is empty, and `bp_range` from key 0 returns nothing. | A root retyped from an internal page goes at the head of `leaf_list`, as `bp_create` puts the first root there. The root is then on the list whenever it is a leaf, and what is written into it is in the contents. | not executed | BPlusMerge.RetypedRootOffList | BPlusRemove.RootStep |
| linked_list/linked_list.c:149-159 | `ll_lookup` walks while `curr->key <= key`, so `curr` always ends past the node carrying `key`, and the test `curr->key == key` never holds. | Insert key 5 into an empty list, then look it up: the walk passes the node carrying 5, stops at the tail, and the answer is -ENOENT. | Walk while `curr->key < key`, as `ll_insert` does; then the answer is 0 exactly when the key is present. | not executed | SortedList.LookupWalkPassesInsertedKey | SortedList.List.LookupCorrected |
| linked_list/linked_list.c:177-187 | `ll_remove` has the same walk, so nothing is ever unlinked and the answer is always -ENOENT. | Insert key 5 into an empty list, then remove it: -ENOENT, and 5 stays. | Walk while `curr->key < key`; unlink the node carrying `key` when there is one. | not executed | SortedList.SeekPastMisses | SortedList.List.RemoveCorrected |
