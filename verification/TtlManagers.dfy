/** The TTL manager: the expiration heap together with its key-to-index and
    key-to-id maps, kept in step through every operation. Times are parameters. */
module TtlManagers {
  import opened Orders
  import opened TtlHeap

  /** The clock counts nanoseconds. */
  const MILLISECOND: int := 1_000_000
  const SECOND: int := 1_000_000_000

  /** idx is the exact inverse of heap position, so no key occurs twice. */
  ghost predicate Indexed(h: Heap, idx: map<Str, nat>) {
    && (forall i :: 0 <= i < |h| ==> h[i].key in idx && idx[h[i].key] == i)
    && (forall k :: k in idx ==> idx[k] < |h| && h[idx[k]].key == k)
  }

  /** ids has the same keys, agrees with every entry, gives no number twice and none not yet issued. */
  ghost predicate Identified(h: Heap, idx: map<Str, nat>, ids: map<Str, nat>, nextId: nat) {
    && ids.Keys == idx.Keys
    && (forall e :: e in h ==> e.key in ids && ids[e.key] == e.id)
    && (forall k :: k in ids ==> ids[k] < nextId)
    && (forall k, k' :: k in ids && k' in ids && ids[k] == ids[k'] ==> k == k')
  }

  /** When each key falls due. */
  ghost function Deadlines(h: Heap, idx: map<Str, nat>): map<Str, int>
    requires Indexed(h, idx)
  {
    map k | k in idx :: h[idx[k]].expire
  }

  lemma DeadlineOf(h: Heap, idx: map<Str, nat>, e: TtlEntry)
    requires Indexed(h, idx) && e in h
    ensures e.key in idx && h[idx[e.key]] == e
  {
  }

  /** Rearranging the heap changes no deadline. */
  lemma Rearranged(h: Heap, idx: map<Str, nat>, h': Heap, idx': map<Str, nat>)
    requires Indexed(h, idx) && Indexed(h', idx') && multiset(h) == multiset(h')
    ensures idx.Keys == idx'.Keys && Deadlines(h, idx) == Deadlines(h', idx')
  {
    SameElements(h, h');
    forall k | k in idx ensures k in idx' && h'[idx'[k]] == h[idx[k]] {
      DeadlineOf(h', idx', h[idx[k]]);
    }
    forall k | k in idx' ensures k in idx {
      DeadlineOf(h, idx, h'[idx'[k]]);
    }
  }

  lemma SwapIndexed(h: Heap, idx: map<Str, nat>, i: nat, j: nat)
    requires Indexed(h, idx) && i < |h| && j < |h| && i != j
    ensures Indexed(Swap(h, i, j), idx[h[j].key := i][h[i].key := j])
  {
  }

  lemma PopIndexed(h: Heap, idx: map<Str, nat>)
    requires Indexed(h, idx) && h != []
    ensures Indexed(h[..|h| - 1], idx - {h[|h| - 1].key})
  {
  }

  /** The last entry moved into place i, the old last place dropped. */
  ghost function CutOut(h: Heap, i: nat): Heap
    requires i < |h|
  {
    var last := |h| - 1;
    if i == last then h[..last] else h[..last][i := h[last]]
  }

  lemma CutIsRemoval(rule: ChildRule, h: Heap, i: nat)
    requires i < |h|
    ensures multiset(RemoveAt(rule, h, i)) == multiset(CutOut(h, i))
  {
    if i < |h| - 1 { RefreshPermutes(rule, h[..|h| - 1], i, h[|h| - 1]); }
  }

  lemma CutElements(h: Heap, idx: map<Str, nat>, i: nat)
    requires Indexed(h, idx) && i < |h|
    ensures forall e :: e in CutOut(h, i) <==> e in h && e.key != h[i].key
  {
  }

  /** The entry at i has left the heap and nothing else has. */
  lemma RemovedOne(h: Heap, idx: map<Str, nat>, i: nat, h': Heap, idx': map<Str, nat>)
    requires Indexed(h, idx) && i < |h| && Indexed(h', idx')
    requires multiset(h') == multiset(CutOut(h, i))
    ensures forall e :: e in h' <==> e in h && e.key != h[i].key
    ensures idx'.Keys == idx.Keys - {h[i].key}
    ensures Deadlines(h', idx') == Deadlines(h, idx) - {h[i].key}
  {
    SameElements(h', CutOut(h, i));
    CutElements(h, idx, i);
    forall k | k in idx && k != h[i].key ensures k in idx' && h'[idx'[k]] == h[idx[k]] {
      DeadlineOf(h', idx', h[idx[k]]);
    }
    forall k | k in idx' ensures k in idx && k != h[i].key {
      assert h'[idx'[k]] in h';
      DeadlineOf(h, idx, h'[idx'[k]]);
    }
  }

  lemma ForgetId(h: Heap, idx: map<Str, nat>, ids: map<Str, nat>, nextId: nat, key: Str, h': Heap, idx': map<Str, nat>)
    requires Identified(h, idx, ids, nextId)
    requires forall e :: e in h' ==> e in h && e.key != key
    requires idx'.Keys == idx.Keys - {key}
    ensures Identified(h', idx', ids - {key}, nextId)
  {
  }

  lemma Settled(h: Heap, idx: map<Str, nat>, h': Heap, idx': map<Str, nat>, ids: map<Str, nat>, nextId: nat)
    requires Indexed(h, idx) && Indexed(h', idx') && multiset(h) == multiset(h')
    requires Identified(h, idx, ids, nextId)
    ensures Identified(h', idx', ids, nextId) && Deadlines(h, idx) == Deadlines(h', idx')
  {
    Rearranged(h, idx, h', idx');
    SameElements(h, h');
  }

  /** A new deadline and id written into the entry at i. */
  lemma Overwritten(h: Heap, idx: map<Str, nat>, i: nat, e: TtlEntry)
    requires Indexed(h, idx) && i < |h| && e.key == h[i].key
    ensures Indexed(h[i := e], idx) && Deadlines(h[i := e], idx) == Deadlines(h, idx)[e.key := e.expire]
    ensures forall x :: x in h[i := e] ==> x == e || (x in h && x.key != e.key)
  {
  }

  /** An entry for a new key at the end. */
  lemma Appended(h: Heap, idx: map<Str, nat>, e: TtlEntry)
    requires Indexed(h, idx) && e.key !in idx
    ensures var h', idx' := h + [e], idx[e.key := |h|];
            && Indexed(h', idx') && idx'.Keys == idx.Keys + {e.key}
            && Deadlines(h', idx') == Deadlines(h, idx)[e.key := e.expire]
    ensures forall x :: x in h + [e] ==> x == e || (x in h && x.key != e.key)
  {
  }

  /** The entry took the next id. */
  lemma FreshId(h: Heap, idx: map<Str, nat>, ids: map<Str, nat>, nextId: nat, e: TtlEntry, h': Heap, idx': map<Str, nat>)
    requires Identified(h, idx, ids, nextId) && e.id == nextId
    requires idx'.Keys == idx.Keys + {e.key}
    requires forall x :: x in h' ==> x == e || (x in h && x.key != e.key)
    ensures Identified(h', idx', ids[e.key := nextId], nextId + 1)
  {
  }

  /** A refresh moves one deadline and takes one id. */
  lemma {:induction false} Rescheduled(h: Heap, idx: map<Str, nat>, ids: map<Str, nat>, nextId: nat,
                                       i: nat, e: TtlEntry, h': Heap, idx': map<Str, nat>)
    requires Indexed(h, idx) && Identified(h, idx, ids, nextId)
    requires i < |h| && e.key == h[i].key && e.id == nextId
    requires Indexed(h', idx') && multiset(h') == multiset(h[i := e])
    ensures Identified(h', idx', ids[e.key := nextId], nextId + 1)
    ensures Deadlines(h', idx') == Deadlines(h, idx)[e.key := e.expire]
  {
    var g := h[i := e];
    Overwritten(h, idx, i, e);
    FreshId(h, idx, ids, nextId, e, g, idx);
    Settled(g, idx, h', idx', ids[e.key := nextId], nextId + 1);
  }

  /** A new key adds one deadline and takes one id. */
  lemma {:induction false} Scheduled(h: Heap, idx: map<Str, nat>, ids: map<Str, nat>, nextId: nat,
                                     e: TtlEntry, h': Heap, idx': map<Str, nat>)
    requires Indexed(h, idx) && Identified(h, idx, ids, nextId)
    requires e.key !in idx && e.id == nextId
    requires Indexed(h', idx') && multiset(h') == multiset(h + [e])
    ensures Identified(h', idx', ids[e.key := nextId], nextId + 1)
    ensures Deadlines(h', idx') == Deadlines(h, idx)[e.key := e.expire]
  {
    var g, at := h + [e], idx[e.key := |h|];
    Appended(h, idx, e);
    FreshId(h, idx, ids, nextId, e, g, at);
    Settled(g, at, h', idx', ids[e.key := nextId], nextId + 1);
  }

  ghost function KeysOf(s: seq<TtlEntry>): (r: seq<Str>)
    ensures |r| == |s| && forall i :: 0 <= i < |s| ==> r[i] == s[i].key
  {
    seq(|s|, i requires 0 <= i < |s| => s[i].key)
  }

  /** From h the pass would go on exactly as from h0, having fired `notified`. */
  ghost predicate FiredSoFar(rule: ChildRule, h0: Heap, now: int, h: Heap, notified: seq<Str>) {
    && Expire(rule, h, now).0 == Expire(rule, h0, now).0
    && notified + KeysOf(Expire(rule, h, now).1) == KeysOf(Expire(rule, h0, now).1)
  }

  lemma {:induction false} FireOne(rule: ChildRule, h0: Heap, now: int, h: Heap, notified: seq<Str>)
    requires FiredSoFar(rule, h0, now, h, notified) && h != [] && h[0].expire <= now
    ensures FiredSoFar(rule, h0, now, RemoveAt(rule, h, 0), notified + [h[0].key])
  {
    ExpireStep(rule, h, now);
    NotifyNext(h[0], Expire(rule, RemoveAt(rule, h, 0), now).1, notified);
  }

  lemma {:induction false} NotifyNext(e: TtlEntry, later: seq<TtlEntry>, notified: seq<Str>)
    ensures notified + KeysOf([e] + later) == (notified + [e.key]) + KeysOf(later)
  {
  }

  lemma {:induction false} AllFired(rule: ChildRule, h0: Heap, now: int, h: Heap, notified: seq<Str>)
    requires FiredSoFar(rule, h0, now, h, notified) && (h == [] || h[0].expire > now)
    ensures h == Expire(rule, h0, now).0 && notified == KeysOf(Expire(rule, h0, now).1)
  {
  }

  /** The deadlines that have not passed. */
  ghost function Live(due: map<Str, int>, now: int): map<Str, int> {
    map k | k in due && due[k] > now :: due[k]
  }

  /** What is left is exactly what is live, precisely when no expired entry is left in the heap. */
  lemma LeftIsLive(h: Heap, idx: map<Str, nat>, now: int, h': Heap, idx': map<Str, nat>, fired: seq<TtlEntry>)
    requires Indexed(h, idx) && Indexed(h', idx')
    requires forall e :: e in fired ==> e in h && e.expire <= now
    requires Deadlines(h', idx') == Deadlines(h, idx) - (set k | k in KeysOf(fired))
    ensures Deadlines(h', idx') == Live(Deadlines(h, idx), now) <==> forall e :: e in h' ==> e.expire > now
  {
    var due, left := Deadlines(h, idx), Deadlines(h', idx');
    forall k | k in KeysOf(fired) ensures k in due && due[k] <= now {
      var i :| 0 <= i < |fired| && fired[i].key == k;
      DeadlineOf(h, idx, fired[i]);
    }
    assert left == Live(due, now) <==> forall k :: k in left ==> left[k] > now;
    forall k | k in left ensures h'[idx'[k]] in h' && left[k] == h'[idx'[k]].expire { }
    forall e | e in h' ensures e.key in left && left[e.key] == e.expire { DeadlineOf(h', idx', e); }
  }

  /** The pass is exact for the intended rule always, for the written one only in the two harmless cases. */
  lemma {:induction false} PassIsExact(rule: ChildRule, h: Heap, idx: map<Str, nat>, now: int,
                                       h': Heap, idx': map<Str, nat>, notified: seq<Str>)
    requires Indexed(h, idx) && Indexed(h', idx') && (rule == Intended ==> MinHeap(h))
    requires h' == Expire(rule, h, now).0 && notified == KeysOf(Expire(rule, h, now).1)
    requires Deadlines(h', idx') == Deadlines(h, idx) - (set k | k in notified)
    ensures Deadlines(h', idx') == Live(Deadlines(h, idx), now)
            <==> rule == Intended || AllExpired(h, now) || OnlyFrontExpired(h, now)
  {
    FiredWasStored(rule, h, now);
    LeftIsLive(h, idx, now, h', idx', Expire(rule, h, now).1);
    if rule == Intended { ExpireIsExact(h, now); } else { WrittenExpireExact(h, now); }
  }

  /** No key is fired before one that was due earlier. */
  ghost predicate EarliestFirst(due: map<Str, int>, notified: seq<Str>) {
    && (forall k :: k in notified ==> k in due)
    && (forall i, j :: 0 <= i < j < |notified| ==> due[notified[i]] <= due[notified[j]])
  }

  lemma {:induction false} FiredEarliestFirst(h: Heap, idx: map<Str, nat>, now: int)
    requires Indexed(h, idx) && MinHeap(h)
    ensures EarliestFirst(Deadlines(h, idx), KeysOf(Expire(Intended, h, now).1))
  {
    var fired := Expire(Intended, h, now).1;
    FiredWasStored(Intended, h, now);
    FiredInOrder(h, now);
    forall i | 0 <= i < |fired| ensures fired[i].key in idx && h[idx[fired[i].key]] == fired[i] {
      DeadlineOf(h, idx, fired[i]);
    }
  }

  ghost predicate Distinct(s: seq<Str>) {
    forall i, j :: 0 <= i < j < |s| ==> s[i] != s[j]
  }

  /** A key that still has a deadline has not been notified. */
  lemma NotYetNotified(due: map<Str, int>, notified: seq<Str>, k: Str)
    requires k in due - (set x | x in notified) && Distinct(notified)
    ensures Distinct(notified + [k])
  {
  }

  lemma MinusOneMore(m: map<Str, int>, ks: seq<Str>, k: Str)
    ensures (m - (set x | x in ks)) - {k} == m - (set x | x in ks + [k])
  {
  }

  class TtlManager {
    const rule: ChildRule
    var heap: Heap
    var keyToIndex: map<Str, nat>
    var keyToId: map<Str, nat>
    var nextId: nat
    var totalExpired: nat

    /** Holds in every reachable state, for either rule; with the intended rule
        the heap is in order as well. */
    ghost predicate Valid()
      reads this
    {
      && Indexed(heap, keyToIndex)
      && Identified(heap, keyToIndex, keyToId, nextId)
      && (rule == Intended ==> MinHeap(heap))
    }

    ghost function Due(): map<Str, int>
      requires Indexed(heap, keyToIndex)
      reads this
    {
      Deadlines(heap, keyToIndex)
    }

    constructor (rule: ChildRule)
      ensures Valid() && Due() == map[] && this.rule == rule && totalExpired == 0
    {
      this.rule := rule;
      heap, keyToIndex, keyToId, nextId, totalExpired := [], map[], map[], 1, 0;
    }

    method SwapEntries(i: nat, j: nat)
      requires Indexed(heap, keyToIndex) && i < |heap| && j < |heap|
      modifies this`heap, this`keyToIndex
      ensures Indexed(heap, keyToIndex) && heap == Swap(old(heap), i, j)
    {
      if i == j { return; }
      SwapIndexed(heap, keyToIndex, i, j);
      heap := heap[i := heap[j]][j := heap[i]];
      keyToIndex := keyToIndex[heap[i].key := i];
      keyToIndex := keyToIndex[heap[j].key := j];
    }

    method HeapifyUp(start: nat)
      requires Indexed(heap, keyToIndex) && start < |heap|
      modifies this`heap, this`keyToIndex
      ensures Indexed(heap, keyToIndex) && heap == Up(old(heap), start)
    {
      var index: nat := start;
      while index > 0
        invariant Indexed(heap, keyToIndex) && index < |heap| && Up(heap, index) == Up(old(heap), start)
      {
        var parent := (index - 1) / 2;
        if heap[index].expire > heap[parent].expire { break; }
        SwapEntries(index, parent);
        index := parent;
      }
    }

    method HeapifyDown(start: nat)
      requires Indexed(heap, keyToIndex) && start < |heap|
      modifies this`heap, this`keyToIndex
      ensures Indexed(heap, keyToIndex) && heap == Down(rule, old(heap), start)
    {
      var index := start;
      while true
        invariant Indexed(heap, keyToIndex) && index < |heap| && |heap| == |old(heap)|
        invariant Down(rule, heap, index) == Down(rule, old(heap), start)
        decreases |heap| - index
      {
        var left, right, smallest := 2 * index + 1, 2 * index + 2, index;
        if left < |heap| && Preferred(rule, heap[left], heap[smallest]) { smallest := left; }
        if right < |heap| && Preferred(rule, heap[right], heap[smallest]) { smallest := right; }
        if smallest == index { break; }
        SwapEntries(index, smallest);
        index := smallest;
      }
    }

    /** Swap with the last entry, pop it, and erase its key from both maps. */
    method Cut(index: nat)
      requires Indexed(heap, keyToIndex) && index < |heap|
      modifies this`heap, this`keyToIndex, this`keyToId
      ensures Indexed(heap, keyToIndex) && heap == CutOut(old(heap), index)
      ensures keyToId == old(keyToId) - {old(heap)[index].key}
    {
      var last := |heap| - 1;
      if index != last { SwapEntries(index, last); }
      var removedKey := heap[last].key;
      PopIndexed(heap, keyToIndex);
      heap := heap[..last];
      keyToIndex := keyToIndex - {removedKey};
      keyToId := keyToId - {removedKey};
    }

    /** Restore heap order around index. */
    method Repair(index: nat)
      requires Indexed(heap, keyToIndex) && index < |heap|
      modifies this`heap, this`keyToIndex
      ensures Indexed(heap, keyToIndex) && heap == Down(rule, Up(old(heap), index), index)
    {
      HeapifyUp(index);
      HeapifyDown(index);
    }

    /** remove_from_heap on an entry that exists. */
    method CutAndRepair(index: nat)
      requires Indexed(heap, keyToIndex) && index < |heap|
      modifies this`heap, this`keyToIndex, this`keyToId
      ensures Indexed(heap, keyToIndex) && heap == RemoveAt(rule, old(heap), index)
      ensures keyToId == old(keyToId) - {old(heap)[index].key}
    {
      var last := |heap| - 1;
      Cut(index);
      if index != last && heap != [] { Repair(index); }
    }

    method RemoveFromHeap(index: nat)
      requires Valid()
      modifies this`heap, this`keyToIndex, this`keyToId
      ensures Valid()
      ensures index >= |old(heap)| ==> heap == old(heap) && Due() == old(Due())
      ensures index < |old(heap)| ==>
        heap == RemoveAt(rule, old(heap), index) && Due() == old(Due()) - {old(heap)[index].key}
    {
      if index >= |heap| { return; }
      CutAndRepair(index);
      CutIsRemoval(rule, old(heap), index);
      RemovedOne(old(heap), old(keyToIndex), index, heap, keyToIndex);
      ForgetId(old(heap), old(keyToIndex), old(keyToId), nextId, old(heap)[index].key, heap, keyToIndex);
      if rule == Intended { RemoveRestores(old(heap), index); }
    }

    method RemoveTtl(key: Str) returns (removed: bool)
      requires Valid()
      modifies this
      ensures Valid() && nextId == old(nextId) && totalExpired == old(totalExpired)
      ensures removed <==> key in old(Due())
      ensures Due() == old(Due()) - {key}
    {
      if key !in keyToIndex {
        assert Due() - {key} == Due();
        return false;
      }
      RemoveFromHeap(keyToIndex[key]);
      removed := true;
    }

    /** A refresh in place: heap order survives if and only if the rule is the
        intended one or the children all fall due with the entry that ends up at index. */
    method OverwriteAt(index: nat, e: TtlEntry)
      requires Indexed(heap, keyToIndex) && index < |heap| && heap[index].key == e.key
      modifies this`heap, this`keyToIndex
      ensures Indexed(heap, keyToIndex) && multiset(heap) == multiset(old(heap)[index := e])
      ensures MinHeap(old(heap)) ==>
        (MinHeap(heap) <==> rule == Intended || ChildrenDueAt(old(heap), index,
          if TravelsUp(old(heap), index, e) then old(heap)[Parent(index)].expire else e.expire))
    {
      Overwritten(heap, keyToIndex, index, e);
      heap := heap[index := heap[index].(expire := e.expire, id := e.id)];
      Repair(index);
      RefreshPermutes(rule, old(heap), index, e);
      if MinHeap(old(heap)) {
        if rule == Intended {
          RefreshRestores(old(heap), index, e);
        } else {
          WrittenRefreshExact(old(heap), index, e);
        }
      }
    }

    /** An existing entry is overwritten and repaired in both directions. */
    method Reschedule(key: Str, expire: int)
      requires Valid() && key in keyToIndex
      modifies this`heap, this`keyToIndex, this`keyToId, this`nextId
      ensures Valid() && Due() == old(Due())[key := expire]
      ensures nextId == old(nextId) + 1
    {
      var id := nextId;
      nextId := nextId + 1;
      var index := keyToIndex[key];
      var e := TtlEntry(key, expire, id);
      OverwriteAt(index, e);
      keyToId := keyToId[key := id];
      Rescheduled(old(heap), old(keyToIndex), old(keyToId), id, index, e, heap, keyToIndex);
    }

    method Append(e: TtlEntry)
      requires Indexed(heap, keyToIndex) && e.key !in keyToIndex
      modifies this`heap, this`keyToIndex
      ensures Indexed(heap, keyToIndex) && multiset(heap) == multiset(old(heap) + [e])
      ensures MinHeap(old(heap)) ==> MinHeap(heap)
    {
      Appended(heap, keyToIndex, e);
      heap := heap + [e];
      keyToIndex := keyToIndex[e.key := |heap| - 1];
      HeapifyUp(|heap| - 1);
      UpPermutes(old(heap) + [e], |old(heap)|);
      if MinHeap(old(heap)) { PushRestores(old(heap), e); }
    }

    /** A new entry is appended and moved up. */
    method ScheduleNew(key: Str, expire: int)
      requires Valid() && key !in keyToIndex
      modifies this`heap, this`keyToIndex, this`keyToId, this`nextId
      ensures Valid() && Due() == old(Due())[key := expire]
      ensures nextId == old(nextId) + 1
    {
      var id := nextId;
      nextId := nextId + 1;
      var e := TtlEntry(key, expire, id);
      Append(e);
      keyToId := keyToId[key := id];
      Scheduled(old(heap), old(keyToIndex), old(keyToId), id, e, heap, keyToIndex);
    }

    /** The common part of set_ttl and set_ttl_ms. */
    method Schedule(key: Str, expire: int)
      requires Valid()
      modifies this
      ensures Valid() && Due() == old(Due())[key := expire]
      ensures nextId == old(nextId) + 1 && totalExpired == old(totalExpired)
    {
      if key in keyToIndex {
        Reschedule(key, expire);
      } else {
        ScheduleNew(key, expire);
      }
    }

    method SetTtlMs(key: Str, milliseconds: int, now: int) returns (ok: bool)
      requires Valid()
      modifies this
      ensures Valid() && totalExpired == old(totalExpired)
      ensures milliseconds > 0 ==> ok && Due() == old(Due())[key := now + 1_000_000 * milliseconds]
      ensures milliseconds <= 0 ==> (ok <==> key in old(Due())) && Due() == old(Due()) - {key}
    {
      if milliseconds <= 0 {
        ok := RemoveTtl(key);
      } else {
        Schedule(key, now + milliseconds * MILLISECOND);
        ok := true;
      }
    }

    method SetTtl(key: Str, seconds: int, now: int) returns (ok: bool)
      requires Valid()
      modifies this
      ensures Valid() && totalExpired == old(totalExpired)
      ensures seconds > 0 ==> ok && Due() == old(Due())[key := now + 1_000_000 * (1000 * seconds)]
      ensures seconds <= 0 ==> (ok <==> key in old(Due())) && Due() == old(Due()) - {key}
    {
      if seconds <= 0 {
        ok := RemoveTtl(key);
      } else {
        Schedule(key, now + seconds * SECOND);
        ok := true;
      }
    }

    /** Whole seconds left, 0 in the last one; -1 without a deadline, -2 once it has passed. */
    method GetTtl(key: Str, now: int) returns (r: int)
      requires Valid()
      ensures r == -1 <==> key !in Due()
      ensures r == -2 <==> key in Due() && Due()[key] <= now
      ensures key in Due() && Due()[key] > now ==>
        0 <= r && r * 1_000_000_000 <= Due()[key] - now < (r + 1) * 1_000_000_000
    {
      if key !in keyToIndex { return -1; }
      var expire := heap[keyToIndex[key]].expire;
      r := if expire <= now then -2 else (expire - now) / SECOND;
    }

    /** Whole milliseconds left, 0 in the last one; -1 without a deadline, -2 once it has passed. */
    method GetTtlMs(key: Str, now: int) returns (r: int)
      requires Valid()
      ensures r == -1 <==> key !in Due()
      ensures r == -2 <==> key in Due() && Due()[key] <= now
      ensures key in Due() && Due()[key] > now ==>
        0 <= r && r * 1_000_000 <= Due()[key] - now < (r + 1) * 1_000_000
    {
      if key !in keyToIndex { return -1; }
      var expire := heap[keyToIndex[key]].expire;
      r := if expire <= now then -2 else (expire - now) / MILLISECOND;
    }

    method Clear()
      modifies this
      ensures Valid() && Due() == map[] && totalExpired == old(totalExpired)
    {
      heap, keyToIndex, keyToId := [], map[], map[];
    }

    /** The body of the expiry loop: the front entry goes and is counted. */
    method FireFront() returns (expiredKey: Str)
      requires Valid() && heap != []
      modifies this
      ensures Valid() && nextId == old(nextId) && totalExpired == old(totalExpired) + 1
      ensures heap == RemoveAt(rule, old(heap), 0) && expiredKey == old(heap)[0].key
      ensures Due() == old(Due()) - {expiredKey}
    {
      expiredKey := heap[0].key;
      RemoveFromHeap(0);
      totalExpired := totalExpired + 1;
    }

    /** The loop of check_expirations. `notified` is the callback's argument, call by call. */
    method ExpireLoop(now: int) returns (count: nat, notified: seq<Str>)
      requires Valid()
      modifies this
      ensures Valid() && nextId == old(nextId)
      ensures heap == Expire(rule, old(heap), now).0
      ensures notified == KeysOf(Expire(rule, old(heap), now).1)
      ensures count == |notified| && totalExpired == old(totalExpired) + count
      ensures Distinct(notified)
      ensures Due() == old(Due()) - (set k | k in notified)
    {
      count, notified := 0, [];
      while heap != []
        invariant Valid() && nextId == old(nextId)
        invariant FiredSoFar(rule, old(heap), now, heap, notified)
        invariant count == |notified| && totalExpired == old(totalExpired) + count
        invariant Distinct(notified)
        invariant Due() == old(Due()) - (set k | k in notified)
        decreases |heap|
      {
        if heap[0].expire > now { break; }
        FireOne(rule, old(heap), now, heap, notified);
        MinusOneMore(old(Due()), notified, heap[0].key);
        NotYetNotified(old(Due()), notified, heap[0].key);
        var expiredKey := FireFront();
        notified := notified + [expiredKey];
        count := count + 1;
      }
      AllFired(rule, old(heap), now, heap, notified);
    }

    /** One expiry pass: keys are fired once each and nothing else changes; the
        live deadlines are exactly what is left if and only if the rule is the
        intended one, or every entry had expired, or none behind the front had. */
    method CheckExpirations(now: int) returns (count: nat, notified: seq<Str>)
      requires Valid()
      modifies this
      ensures Valid() && nextId == old(nextId)
      ensures count == |notified| && totalExpired == old(totalExpired) + count
      ensures Distinct(notified)
      ensures notified == KeysOf(Expire(rule, old(heap), now).1)
      ensures Due() == old(Due()) - (set k | k in notified)
      ensures Due() == Live(old(Due()), now)
              <==> rule == Intended || AllExpired(old(heap), now) || OnlyFrontExpired(old(heap), now)
      ensures rule == Intended ==> EarliestFirst(old(Due()), notified)
    {
      count, notified := ExpireLoop(now);
      if rule == Intended { FiredEarliestFirst(old(heap), old(keyToIndex), now); }
      PassIsExact(rule, old(heap), old(keyToIndex), now, heap, keyToIndex, notified);
    }
  }
}
