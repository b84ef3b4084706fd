/** The expiration heap as a value: what sifting does to the array, which of it
    keeps the earliest deadline in front, and what one expiry pass removes. */
module TtlHeap {
  import opened Orders

  datatype TtlEntry = TtlEntry(key: Str, expire: int, id: nat)

  type Heap = seq<TtlEntry>

  /** How heapify_down picks the entry to move up: the program takes a later
      child; a min-heap wants an earlier one. */
  datatype ChildRule = AsWritten | Intended

  predicate Preferred(rule: ChildRule, child: TtlEntry, current: TtlEntry) {
    match rule
    case AsWritten => child.expire > current.expire
    case Intended => child.expire < current.expire
  }

  function Parent(i: nat): nat
    requires i > 0
  {
    (i - 1) / 2
  }

  function Swap(h: Heap, i: nat, j: nat): (r: Heap)
    requires i < |h| && j < |h|
    ensures |r| == |h|
    ensures forall k :: 0 <= k < |h| ==> r[k] == if k == i then h[j] else if k == j then h[i] else h[k]
  {
    h[i := h[j]][j := h[i]]
  }

  /** heapify_up: swap upwards until strictly later than the parent. */
  function Up(h: Heap, i: nat): (r: Heap)
    requires i < |h|
    ensures |r| == |h|
    decreases i
  {
    if i == 0 || h[i].expire > h[Parent(i)].expire then h
    else Up(Swap(h, i, Parent(i)), Parent(i))
  }

  /** The position heapify_down moves to: i itself, or the preferred child. */
  function Chosen(rule: ChildRule, h: Heap, i: nat): (c: nat)
    requires i < |h|
    ensures c < |h| && (c == i || (c > i && Parent(c) == i && Preferred(rule, h[c], h[i])))
    ensures forall k :: i < k < |h| && Parent(k) == i ==> !Preferred(rule, h[k], h[c])
  {
    var left, right := 2 * i + 1, 2 * i + 2;
    var first := if left < |h| && Preferred(rule, h[left], h[i]) then left else i;
    if right < |h| && Preferred(rule, h[right], h[first]) then right else first
  }

  /** heapify_down. */
  function Down(rule: ChildRule, h: Heap, i: nat): (r: Heap)
    requires i < |h|
    ensures |r| == |h|
    decreases |h| - i
  {
    var c := Chosen(rule, h, i);
    if c == i then h else Down(rule, Swap(h, i, c), c)
  }

  /** Overwrite position i, then repair upwards and downwards from there. */
  function Refresh(rule: ChildRule, h: Heap, i: nat, e: TtlEntry): (r: Heap)
    requires i < |h|
    ensures |r| == |h|
  {
    Down(rule, Up(h[i := e], i), i)
  }

  /** A new entry at the end, repaired upwards. */
  function Push(h: Heap, e: TtlEntry): (r: Heap)
    ensures |r| == |h| + 1
  {
    Up(h + [e], |h|)
  }

  /** remove_from_heap: the last entry takes the place of the removed one. */
  function RemoveAt(rule: ChildRule, h: Heap, i: nat): (r: Heap)
    requires i < |h|
    ensures |r| == |h| - 1
  {
    var last := |h| - 1;
    if i == last then h[..last] else Refresh(rule, h[..last], i, h[last])
  }

  /** check_expirations: remove the front while it has expired; also what was removed, in order. */
  function Expire(rule: ChildRule, h: Heap, now: int): (r: (Heap, seq<TtlEntry>))
    ensures forall e :: e in r.1 ==> e.expire <= now
    ensures r.0 != [] ==> r.0[0].expire > now
    decreases |h|
  {
    if h == [] || h[0].expire > now then (h, [])
    else
      var (rest, fired) := Expire(rule, RemoveAt(rule, h, 0), now);
      (rest, [h[0]] + fired)
  }

  lemma {:induction false} ExpireStep(rule: ChildRule, h: Heap, now: int)
    requires h != [] && h[0].expire <= now
    ensures var later := Expire(rule, RemoveAt(rule, h, 0), now);
            Expire(rule, h, now) == (later.0, [h[0]] + later.1)
  {
  }

  // ---------- Nothing is lost or made up ----------

  lemma {:induction false} UpPermutes(h: Heap, i: nat)
    requires i < |h|
    ensures multiset(Up(h, i)) == multiset(h)
    decreases i
  {
    if i > 0 && h[i].expire <= h[Parent(i)].expire { UpPermutes(Swap(h, i, Parent(i)), Parent(i)); }
  }

  lemma {:induction false} DownPermutes(rule: ChildRule, h: Heap, i: nat)
    requires i < |h|
    ensures multiset(Down(rule, h, i)) == multiset(h)
    decreases |h| - i
  {
    var c := Chosen(rule, h, i);
    if c != i { DownPermutes(rule, Swap(h, i, c), c); }
  }

  lemma {:induction false} RefreshPermutes(rule: ChildRule, h: Heap, i: nat, e: TtlEntry)
    requires i < |h|
    ensures multiset(Refresh(rule, h, i, e)) == multiset(h[i := e])
  {
    UpPermutes(h[i := e], i);
    DownPermutes(rule, Up(h[i := e], i), i);
  }

  lemma {:induction false} RemoveTakesOne(rule: ChildRule, h: Heap, i: nat)
    requires i < |h|
    ensures multiset(RemoveAt(rule, h, i)) == multiset(h) - multiset{h[i]}
  {
    var last := |h| - 1;
    assert h == h[..last] + [h[last]];
    if i < last { RefreshPermutes(rule, h[..last], i, h[last]); }
  }

  /** One pass splits the entries into those kept and those fired. */
  lemma {:induction false} ExpireConserves(rule: ChildRule, h: Heap, now: int)
    ensures var (rest, fired) := Expire(rule, h, now);
            multiset(h) == multiset(rest) + multiset(fired)
    decreases |h|
  {
    if h != [] && h[0].expire <= now {
      var g := RemoveAt(rule, h, 0);
      ExpireStep(rule, h, now);
      RemoveTakesOne(rule, h, 0);
      ExpireConserves(rule, g, now);
      assert h[0] in multiset(h);
      assert multiset(h) == multiset(g) + multiset{h[0]};
    }
  }

  // ---------- Heap order ----------

  /** No entry is due before its parent. */
  ghost predicate MinHeap(h: Heap) {
    forall k :: 0 < k < |h| ==> h[Parent(k)].expire <= h[k].expire
  }

  /** Heap order but for the entry at i, which may be too early for its parent. */
  ghost predicate OrderedButUp(h: Heap, i: nat) {
    && (forall k :: 0 < k < |h| && k != i ==> h[Parent(k)].expire <= h[k].expire)
    && (forall k :: 0 < k < |h| && Parent(k) == i && i > 0 ==> h[Parent(i)].expire <= h[k].expire)
  }

  /** Heap order but for the entry at i, which may be too late for its children. */
  ghost predicate OrderedButDown(h: Heap, i: nat) {
    && (forall k :: 0 < k < |h| && Parent(k) != i ==> h[Parent(k)].expire <= h[k].expire)
    && (forall k :: 0 < k < |h| && Parent(k) == i && i > 0 && i < |h| ==> h[Parent(i)].expire <= h[k].expire)
  }

  lemma {:induction false} UpRestores(h: Heap, i: nat)
    requires i < |h| && OrderedButUp(h, i)
    ensures MinHeap(Up(h, i))
    decreases i
  {
    if i > 0 && h[i].expire <= h[Parent(i)].expire {
      UpRestores(Swap(h, i, Parent(i)), Parent(i));
    }
  }

  lemma {:induction false} DownRestores(h: Heap, i: nat)
    requires i < |h| && OrderedButDown(h, i)
    ensures MinHeap(Down(Intended, h, i))
    decreases |h| - i
  {
    var c := Chosen(Intended, h, i);
    if c != i { DownRestores(Swap(h, i, c), c); }
  }

  lemma FrontIsEarliest(h: Heap, k: nat)
    requires MinHeap(h) && k < |h|
    ensures h[0].expire <= h[k].expire
    decreases k
  {
    if k > 0 { FrontIsEarliest(h, Parent(k)); }
  }

  /** What heapify_up from i leaves at and below i: the old parent if it moved, else nothing new. */
  lemma {:induction false} UpFromHere(h: Heap, i: nat)
    requires i < |h|
    ensures var moved := i > 0 && h[i].expire <= h[Parent(i)].expire;
            && Up(h, i)[i] == (if moved then h[Parent(i)] else h[i])
            && (!moved ==> Up(h, i) == h)
    ensures forall k :: i < k < |h| ==> Up(h, i)[k] == h[k]
    decreases i
  {
    if i > 0 && h[i].expire <= h[Parent(i)].expire {
      UpFromHere(Swap(h, i, Parent(i)), Parent(i));
    }
  }

  /** In a min-heap there is nothing for the intended heapify_down to do. */
  lemma DownOfMinHeap(h: Heap, i: nat)
    requires i < |h| && MinHeap(h)
    ensures Down(Intended, h, i) == h
  {
  }

  /** Whether an overwrite at i makes the entry travel up. */
  predicate TravelsUp(h: Heap, i: nat, e: TtlEntry)
    requires i < |h|
  {
    i > 0 && e.expire <= h[Parent(i)].expire
  }

  /** An entry that travels up leaves a min-heap behind. */
  lemma {:induction false} UpKeepsOrder(h: Heap, i: nat, e: TtlEntry)
    requires MinHeap(h) && i < |h| && TravelsUp(h, i, e)
    ensures MinHeap(Up(h[i := e], i))
  {
    var g := h[i := e];
    forall k | 0 < k < |g| && Parent(k) == i ensures g[Parent(i)].expire <= g[k].expire {
      assert h[Parent(k)].expire <= h[k].expire && h[Parent(i)].expire <= h[i].expire;
    }
    UpRestores(g, i);
  }

  /** With the intended rule, up-then-down repairs any position after any change. */
  lemma {:induction false} RefreshRestores(h: Heap, i: nat, e: TtlEntry)
    requires MinHeap(h) && i < |h|
    ensures MinHeap(Refresh(Intended, h, i, e))
  {
    var g := h[i := e];
    UpFromHere(g, i);
    if TravelsUp(h, i, e) {
      UpKeepsOrder(h, i, e);
      DownOfMinHeap(Up(g, i), i);
    } else {
      forall k | 0 < k < |g| && Parent(k) == i && i > 0 ensures g[Parent(i)].expire <= g[k].expire {
        assert h[Parent(k)].expire <= h[k].expire && h[Parent(i)].expire <= h[i].expire;
      }
      DownRestores(g, i);
    }
  }

  lemma {:induction false} PushRestores(h: Heap, e: TtlEntry)
    requires MinHeap(h)
    ensures MinHeap(Push(h, e))
  {
    var g := h + [e];
    assert forall k :: 0 < k < |h| ==> g[k] == h[k] && g[Parent(k)] == h[Parent(k)];
    UpRestores(g, |h|);
  }

  lemma {:induction false} RemoveRestores(h: Heap, i: nat)
    requires MinHeap(h) && i < |h|
    ensures MinHeap(RemoveAt(Intended, h, i))
  {
    var last := |h| - 1;
    assert MinHeap(h[..last]);
    if i < last { RefreshRestores(h[..last], i, h[last]); }
  }

  lemma {:induction false} FiredWasStored(rule: ChildRule, h: Heap, now: int)
    ensures forall e :: e in Expire(rule, h, now).1 ==> e in h
    ensures forall e :: e in Expire(rule, h, now).0 ==> e in h
  {
    var (rest, fired) := Expire(rule, h, now);
    ExpireConserves(rule, h, now);
    forall e | e in fired || e in rest ensures e in h {
      assert e in multiset(rest) + multiset(fired);
      assert e in multiset(h);
    }
  }

  lemma {:induction false} RemovedAreStored(rule: ChildRule, h: Heap)
    requires h != []
    ensures forall e :: e in RemoveAt(rule, h, 0) ==> e in h
  {
    var g := RemoveAt(rule, h, 0);
    RemoveTakesOne(rule, h, 0);
    forall e | e in g ensures e in h {
      assert e in multiset(g);
      assert e in multiset(h);
    }
  }

  lemma {:induction false} FrontBeforeTheRest(h: Heap, now: int, e: TtlEntry)
    requires MinHeap(h) && h != [] && e in Expire(Intended, RemoveAt(Intended, h, 0), now).1
    ensures h[0].expire <= e.expire
  {
    FiredWasStored(Intended, RemoveAt(Intended, h, 0), now);
    RemovedAreStored(Intended, h);
    var k :| 0 <= k < |h| && h[k] == e;
    FrontIsEarliest(h, k);
  }

  ghost predicate InOrderOfExpiry(s: seq<TtlEntry>) {
    forall i, j :: 0 <= i < j < |s| ==> s[i].expire <= s[j].expire
  }

  /** With the intended rule the entries are fired earliest first. */
  lemma {:induction false} FiredInOrder(h: Heap, now: int)
    requires MinHeap(h)
    ensures InOrderOfExpiry(Expire(Intended, h, now).1)
    decreases |h|
  {
    if h != [] && h[0].expire <= now {
      RemoveRestores(h, 0);
      FiredInOrder(RemoveAt(Intended, h, 0), now);
      var later := Expire(Intended, RemoveAt(Intended, h, 0), now).1;
      forall e | e in later ensures h[0].expire <= e.expire { FrontBeforeTheRest(h, now, e); }
      PrependInOrder(h[0], later);
    }
  }

  lemma PrependInOrder(e: TtlEntry, s: seq<TtlEntry>)
    requires InOrderOfExpiry(s) && forall x :: x in s ==> e.expire <= x.expire
    ensures InOrderOfExpiry([e] + s)
  {
  }

  /** With the intended rule one pass removes every expired entry and no other. */
  lemma {:induction false} ExpireIsExact(h: Heap, now: int)
    requires MinHeap(h)
    ensures var rest := Expire(Intended, h, now).0;
            MinHeap(rest) && forall e :: e in rest ==> e.expire > now
    decreases |h|
  {
    if h == [] || h[0].expire > now {
      forall k | 0 <= k < |h| ensures h[k].expire > now { FrontIsEarliest(h, k); }
    } else {
      RemoveRestores(h, 0);
      ExpireIsExact(RemoveAt(Intended, h, 0), now);
    }
  }

  // ---------- The rule as written ----------

  /** Refreshing the earliest of three entries reverses the heap. */
  lemma WrittenRuleBreaksOrder(a: TtlEntry, b: TtlEntry, c: TtlEntry)
    requires a.expire == 1 && b.expire == 2 && c.expire == 3
    ensures MinHeap([a, b, c])
    ensures Refresh(AsWritten, [a, b, c], 0, a) == [c, b, a]
    ensures !MinHeap([c, b, a])
  {
    var h, g := [a, b, c], [c, b, a];
    assert Parent(1) == 0 && Parent(2) == 0;
    assert h[0 := a] == h && Up(h, 0) == h;
    assert Chosen(AsWritten, h, 0) == 2;
    assert Swap(h, 0, 2) == g;
    assert Chosen(AsWritten, g, 2) == 2;
    assert Down(AsWritten, g, 2) == g;
    assert Down(AsWritten, h, 0) == g;
    assert g[Parent(1)].expire > g[1].expire;
  }

  /** An entry that has been swapped below a later one stays out of order. */
  lemma {:induction false} WrittenDownStaysBroken(h: Heap, i: nat)
    requires 0 < i < |h| && h[Parent(i)].expire > h[i].expire
    ensures !MinHeap(Down(AsWritten, h, i))
    decreases |h| - i
  {
    var c := Chosen(AsWritten, h, i);
    if c != i { WrittenDownStaysBroken(Swap(h, i, c), c); }
  }

  /** As written, heapify_down gives a min-heap exactly when it got one and had nothing to do. */
  lemma {:induction false} WrittenDownExact(h: Heap, i: nat)
    requires i < |h|
    ensures MinHeap(Down(AsWritten, h, i)) <==> MinHeap(h) && Chosen(AsWritten, h, i) == i
  {
    var c := Chosen(AsWritten, h, i);
    if c != i { WrittenDownStaysBroken(Swap(h, i, c), c); }
  }

  /** All children of i fall due at time t. */
  ghost predicate ChildrenDueAt(h: Heap, i: nat, t: int) {
    forall k :: 0 < k < |h| && Parent(k) == i ==> h[k].expire == t
  }

  /** As written, a refresh keeps heap order if and only if every child of the
      position falls due exactly when the entry that ends up there does. */
  lemma {:induction false} WrittenRefreshExact(h: Heap, i: nat, e: TtlEntry)
    requires MinHeap(h) && i < |h|
    ensures MinHeap(Refresh(AsWritten, h, i, e))
            <==> ChildrenDueAt(h, i, if TravelsUp(h, i, e) then h[Parent(i)].expire else e.expire)
  {
    var u := Up(h[i := e], i);
    WrittenDownExact(u, i);
    WrittenChoosesSelf(u, i);
    if TravelsUp(h, i, e) {
      UpKeepsOrder(h, i, e);
      WrittenTravelled(h, i, e);
    } else {
      UpFromHere(h[i := e], i);
      WrittenStayed(h, i, e);
    }
  }

  /** As written, a removal keeps heap order exactly when the last entry goes, or
      when the last entry fits the removed one's place in the same sense. */
  lemma {:induction false} WrittenRemoveExact(h: Heap, i: nat)
    requires MinHeap(h) && i < |h|
    ensures var last := |h| - 1;
            MinHeap(RemoveAt(AsWritten, h, i))
            <==> i == last || ChildrenDueAt(h[..last], i,
                   if TravelsUp(h[..last], i, h[last]) then h[Parent(i)].expire else h[last].expire)
  {
    var last := |h| - 1;
    assert MinHeap(h[..last]);
    if i < last { WrittenRefreshExact(h[..last], i, h[last]); }
  }

  lemma {:induction false} WrittenTravelled(h: Heap, i: nat, e: TtlEntry)
    requires MinHeap(h) && i < |h| && TravelsUp(h, i, e)
    ensures var u := Up(h[i := e], i);
            (forall k :: 0 < k < |u| && Parent(k) == i ==> u[k].expire <= u[i].expire)
            <==> ChildrenDueAt(h, i, h[Parent(i)].expire)
  {
    var u := Up(h[i := e], i);
    UpFromHere(h[i := e], i);
    forall k | 0 < k < |h| && Parent(k) == i ensures u[k] == h[k] && h[Parent(i)].expire <= h[k].expire {
      assert h[Parent(k)].expire <= h[k].expire && h[Parent(i)].expire <= h[i].expire;
    }
  }

  lemma WrittenChoosesSelf(h: Heap, i: nat)
    requires i < |h|
    ensures Chosen(AsWritten, h, i) == i
            <==> forall k :: 0 < k < |h| && Parent(k) == i ==> h[k].expire <= h[i].expire
  {
  }

  lemma {:induction false} WrittenStayed(h: Heap, i: nat, e: TtlEntry)
    requires MinHeap(h) && i < |h| && !TravelsUp(h, i, e)
    ensures var g := h[i := e];
            MinHeap(g) && (forall k :: 0 < k < |g| && Parent(k) == i ==> g[k].expire <= g[i].expire)
            <==> ChildrenDueAt(h, i, e.expire)
  {
  }

  /** The entry heapify_down starts from ends up at i or below. */
  lemma {:induction false} SinksTo(rule: ChildRule, h: Heap, i: nat) returns (j: nat)
    requires i < |h|
    ensures i <= j < |h| && Down(rule, h, i)[j] == h[i]
    decreases |h| - i
  {
    var c := Chosen(rule, h, i);
    if c == i { j := i; } else { j := SinksTo(rule, Swap(h, i, c), c); }
  }

  /** heapify_down never changes what lies above its starting point. */
  lemma {:induction false} DownKeepsAbove(rule: ChildRule, h: Heap, i: nat, k: nat)
    requires k < i < |h|
    ensures Down(rule, h, i)[k] == h[k]
    decreases |h| - i
  {
    var c := Chosen(rule, h, i);
    if c != i { DownKeepsAbove(rule, Swap(h, i, c), c, k); }
  }

  ghost predicate AllExpired(h: Heap, now: int) {
    forall k :: 0 <= k < |h| ==> h[k].expire <= now
  }

  /** Nothing behind the front has expired. */
  ghost predicate OnlyFrontExpired(h: Heap, now: int) {
    forall k :: 0 < k < |h| ==> h[k].expire > now
  }

  lemma SameElements(h: Heap, g: Heap)
    requires multiset(h) == multiset(g)
    ensures forall e :: e in h <==> e in g
  {
    forall e ensures e in h <==> e in g {
      assert e in h <==> e in multiset(h);
    }
  }

  /** Removing the front as written: if the new front has expired, so has something behind it. */
  lemma {:induction false} WrittenFrontHidesAnother(h: Heap, now: int)
    requires |h| > 2
    requires var g := RemoveAt(AsWritten, h, 0); g[0].expire <= now
    ensures !OnlyFrontExpired(RemoveAt(AsWritten, h, 0), now)
  {
    var last := |h| - 1;
    var g := h[..last][0 := h[last]];
    assert RemoveAt(AsWritten, h, 0) == Down(AsWritten, g, 0);
    var c := Chosen(AsWritten, g, 0);
    assert Parent(1) == 0;
    if c != 0 {
      var s := Swap(g, 0, c);
      DownKeepsAbove(AsWritten, s, c, 0);
      var j := SinksTo(AsWritten, s, c);
    }
  }

  /** What is behind the front, seen in the heap that is left. */
  lemma {:induction false} TailIsTheRest(h: Heap, g: Heap, now: int)
    requires h != [] && h[0].expire <= now && multiset(g) == multiset(h) - multiset{h[0]}
    ensures |g| == |h| - 1
    ensures AllExpired(h, now) <==> AllExpired(g, now)
    ensures OnlyFrontExpired(h, now) <==> forall e :: e in g ==> e.expire > now
  {
    RemovedFront(h, g);
    assert OnlyFrontExpired(h, now) <==> forall e :: e in h[1..] ==> e.expire > now;
    assert AllExpired(h, now) <==> forall e :: e in h[1..] ==> e.expire <= now;
    assert AllExpired(g, now) <==> forall e :: e in g ==> e.expire <= now;
  }

  /** Removing an expired front neither makes nor cures the failing case. */
  lemma {:induction false} WrittenStepExact(h: Heap, now: int)
    requires h != [] && h[0].expire <= now
    ensures var g := RemoveAt(AsWritten, h, 0);
            AllExpired(g, now) || OnlyFrontExpired(g, now) <==> AllExpired(h, now) || OnlyFrontExpired(h, now)
  {
    RemoveTakesOne(AsWritten, h, 0);
    TailIsTheRest(h, RemoveAt(AsWritten, h, 0), now);
    if |h| > 2 && RemoveAt(AsWritten, h, 0)[0].expire <= now { WrittenFrontHidesAnother(h, now); }
  }

  /** As written, one pass leaves no expired entry behind if and only if all
      entries had expired, or none but possibly the front one. */
  lemma {:induction false} WrittenExpireExact(h: Heap, now: int)
    ensures (forall e :: e in Expire(AsWritten, h, now).0 ==> e.expire > now)
            <==> AllExpired(h, now) || OnlyFrontExpired(h, now)
    decreases |h|
  {
    if h == [] || h[0].expire > now {
      assert OnlyFrontExpired(h, now) <==> forall e :: e in h ==> e.expire > now;
    } else {
      WrittenStepExact(h, now);
      WrittenExpireExact(RemoveAt(AsWritten, h, 0), now);
    }
  }

  /** Due at 1, 2 and 3, checked at 2: the second entry outlives its deadline. */
  lemma WrittenPassMissesOne(a: TtlEntry, b: TtlEntry, c: TtlEntry)
    requires a.expire == 1 && b.expire == 2 && c.expire == 3
    ensures MinHeap([a, b, c])
    ensures exists e :: e in Expire(AsWritten, [a, b, c], 2).0 && e.expire <= 2
  {
    var h := [a, b, c];
    assert Parent(1) == 0 && Parent(2) == 0;
    assert h[1].expire <= 2 < h[2].expire;
    WrittenExpireExact(h, 2);
  }

  /** The entries behind the front are the entries left after removing it. */
  lemma {:induction false} RemovedFront(h: Heap, g: Heap)
    requires h != [] && multiset(g) == multiset(h) - multiset{h[0]}
    ensures |g| == |h| - 1
    ensures forall e :: e in g <==> e in h[1..]
  {
    assert h == [h[0]] + h[1..];
    assert multiset(g) == multiset(h[1..]);
    assert |multiset(g)| == |g| && |multiset(h[1..])| == |h[1..]|;
    SameElements(g, h[1..]);
  }
}
