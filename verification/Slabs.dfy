/** The slab allocator of mc_slabs.c, for one heap.

    Slabs are named by their position in the slab table.  A slab belongs to a
    class and is cut into as many items as the class says.  At any time each item
    of each slab is in exactly one of three places: the untouched tail of its
    class's current slab, its class's free queue, or the hands of the cache. */
module Slabs {
  import opened Basics
  import opened Bytes

  /** The i-th item of a slab. */
  datatype Slot = Slot(slab: nat, i: nat)

  /** cur is free_item: the first item of the current slab not given out yet, and
      nfree says how many are left from there. */
  datatype Class = Class(nitem: nat, freeq: seq<Slot>, nfreeq: int, cur: Option<Slot>, nfree: int)

  /** owner gives each slab's class and refs its reference count; lruq is the slab
      queue, oldest first; inUse are the items handed out. */
  datatype Heap = Heap(
    maxNslab: nat,
    owner: seq<nat>,
    refs: seq<nat>,
    lruq: seq<nat>,
    classes: seq<Class>,
    inUse: set<Slot>)

  // ---------- where a slot is ----------

  /** An item that some slab is cut into. */
  predicate Exists(h: Heap, x: Slot) {
    x.slab < |h.owner| && h.owner[x.slab] < |h.classes| && x.i < h.classes[h.owner[x.slab]].nitem
  }

  predicate InTail(h: Heap, x: Slot)
    requires Exists(h, x)
  {
    var cur := h.classes[h.owner[x.slab]].cur;
    cur.Some? && cur.value.slab == x.slab && cur.value.i <= x.i
  }

  predicate IsFree(h: Heap, x: Slot)
    requires Exists(h, x)
  {
    x in h.classes[h.owner[x.slab]].freeq
  }

  /** Counters match what they count. */
  ghost predicate ClassOk(h: Heap, c: nat)
    requires c < |h.classes|
  {
    var p := h.classes[c];
    && p.nitem > 0 && p.nfreeq == |p.freeq| && NoDuplicates(p.freeq)
    && (match p.cur
        case None => p.nfree == 0
        case Some(x) => x.slab < |h.owner| && h.owner[x.slab] == c && p.nfree > 0 && x.i + p.nfree == p.nitem)
    && (forall x :: x in p.freeq ==> Exists(h, x) && h.owner[x.slab] == c)
  }

  /** Every slab is on the queue once, and nothing else is. */
  ghost predicate LruqOk(h: Heap) {
    && NoDuplicates(h.lruq)
    && (forall s: nat :: s in h.lruq <==> s < |h.owner|)
  }

  /** Each item is in exactly one place. */
  ghost predicate Placed(h: Heap, x: Slot)
    requires Exists(h, x)
  {
    && (InTail(h, x) || IsFree(h, x) || x in h.inUse)
    && !(InTail(h, x) && IsFree(h, x)) && !(InTail(h, x) && x in h.inUse) && !(IsFree(h, x) && x in h.inUse)
  }

  ghost predicate Good(h: Heap) {
    && |h.refs| == |h.owner| <= h.maxNslab
    && (forall s :: 0 <= s < |h.owner| ==> h.owner[s] < |h.classes|)
    && LruqOk(h)
    && (forall c :: 0 <= c < |h.classes| ==> ClassOk(h, c))
    && (forall x :: x in h.inUse ==> Exists(h, x))
    && (forall x :: Exists(h, x) ==> Placed(h, x))
  }

  // ---------- what the operations do ----------

  /** _slab_get_item_from_freeq, when the queue is not empty */
  ghost function TakeFree(h: Heap, c: nat): Heap
    requires c < |h.classes| && h.classes[c].freeq != []
  {
    var p := h.classes[c];
    h.(classes := h.classes[c := p.(freeq := p.freeq[1..], nfreeq := p.nfreeq - 1)],
       inUse := h.inUse + {p.freeq[0]})
  }

  /** The end of _slab_get_item: the next item of the current slab. */
  ghost function TakeTail(h: Heap, c: nat): Heap
    requires c < |h.classes| && h.classes[c].cur.Some?
  {
    var p := h.classes[c];
    var x := p.cur.value;
    h.(classes := h.classes[c := p.(nfree := p.nfree - 1,
                                    cur := if p.nfree - 1 != 0 then Some(Slot(x.slab, x.i + 1)) else None)],
       inUse := h.inUse + {x})
  }

  /** slab_put_item_into_freeq */
  ghost function PutFree(h: Heap, x: Slot): Heap
    requires Exists(h, x)
  {
    var c := h.owner[x.slab];
    var p := h.classes[c];
    h.(classes := h.classes[c := p.(freeq := [x] + p.freeq, nfreeq := p.nfreeq + 1)], inUse := h.inUse - {x})
  }

  /** slab_get_new and slab_add_one: a new slab becomes the current one of c. */
  ghost function AddNew(h: Heap, c: nat): Heap
    requires c < |h.classes|
  {
    var s := |h.owner|;
    var p := h.classes[c];
    h.(owner := h.owner + [c], refs := h.refs + [0], lruq := h.lruq + [s],
       classes := h.classes[c := p.(cur := Some(Slot(s, 0)), nfree := p.nitem)])
  }

  /** A queue without the items of slab s below n. */
  ghost function Purge(q: seq<Slot>, s: nat, n: nat): seq<Slot> {
    if q == [] then []
    else if q[0].slab == s && q[0].i < n then Purge(q[1..], s, n)
    else [q[0]] + Purge(q[1..], s, n)
  }

  ghost function Drop<T>(q: seq<T>, x: T): seq<T> {
    if q == [] then [] else if q[0] == x then q[1..] else [q[0]] + Drop(q[1..], x)
  }

  /** slab_evict_one: the items of slab s leave the free queue or the cache, and
      the slab leaves the queue of slabs. */
  ghost function Evicted(h: Heap, s: nat): Heap
    requires s < |h.owner| && h.owner[s] < |h.classes|
  {
    var c := h.owner[s];
    var p := h.classes[c];
    var isCurrent := p.cur.Some? && p.cur.value.slab == s;
    var q := Purge(p.freeq, s, p.nitem);
    h.(classes := h.classes[c := p.(freeq := q, nfreeq := |q|,
                                    cur := if isCurrent then None else p.cur,
                                    nfree := if isCurrent then 0 else p.nfree)],
       inUse := (set x | x in h.inUse && x.slab != s),
       lruq := Drop(h.lruq, s))
  }

  /** slab_add_one on a slab that is in the table already. */
  ghost function AddOld(h: Heap, s: nat, c: nat): Heap
    requires s < |h.owner| == |h.refs| && c < |h.classes|
  {
    var p := h.classes[c];
    h.(owner := h.owner[s := c], refs := h.refs[s := 0], lruq := h.lruq + [s],
       classes := h.classes[c := p.(cur := Some(Slot(s, 0)), nfree := p.nitem)])
  }

  ghost function Recycled(h: Heap, s: nat, c: nat): Heap
    requires s < |h.owner| == |h.refs| && h.owner[s] < |h.classes| && c < |h.classes|
  {
    AddOld(Evicted(h, s), s, c)
  }

  /** _slab_lruq_touch, when it moves the slab */
  ghost function Touched(h: Heap, s: nat): Heap {
    h.(lruq := Drop(h.lruq, s) + [s])
  }

  // ---------- what they keep ----------

  lemma {:induction false} PurgeMembers(q: seq<Slot>, s: nat, n: nat)
    ensures forall x :: x in Purge(q, s, n) <==> x in q && !(x.slab == s && x.i < n)
    ensures NoDuplicates(q) ==> NoDuplicates(Purge(q, s, n))
    ensures |Purge(q, s, n)| <= |q|
  {
    if q != [] {
      PurgeMembers(q[1..], s, n);
      assert q == [q[0]] + q[1..];
    }
  }

  lemma ConsDistinct<T>(x: T, q: seq<T>)
    requires NoDuplicates(q) && x !in q
    ensures NoDuplicates([x] + q)
  {
    var r := [x] + q;
    forall i, j | 0 <= i < j < |r| ensures r[i] != r[j] {
      assert r[j] == q[j-1] && r[j] in q;
    }
  }

  lemma SnocDistinct<T>(q: seq<T>, x: T)
    requires NoDuplicates(q) && x !in q
    ensures NoDuplicates(q + [x])
  {
    var r := q + [x];
    forall i, j | 0 <= i < j < |r| ensures r[i] != r[j] {
      assert r[i] == q[i] && r[i] in q;
    }
  }

  lemma {:induction false} DropMembers<T>(q: seq<T>, x: T)
    requires NoDuplicates(q)
    ensures forall y :: y in Drop(q, x) <==> y in q && y != x
    ensures NoDuplicates(Drop(q, x))
  {
    if q != [] {
      DropMembers(q[1..], x);
      assert q == [q[0]] + q[1..];
      assert forall j :: 1 <= j < |q| ==> q[1..][j-1] == q[j] != q[0];
      assert q[0] !in q[1..];
      if q[0] != x {
        ConsDistinct(q[0], Drop(q[1..], x));
      }
    }
  }

  lemma TakeFreeKeeps(h: Heap, c: nat)
    requires Good(h) && c < |h.classes| && h.classes[c].freeq != []
    ensures Good(TakeFree(h, c)) && h.classes[c].freeq[0] !in h.inUse
  {
    var h' := TakeFree(h, c);
    var x := h.classes[c].freeq[0];
    assert ClassOk(h, c);
    assert Exists(h, x) && Placed(h, x);
    forall y | Exists(h', y) ensures Placed(h', y) {
      assert Exists(h, y) && Placed(h, y);
      assert h.classes[c].freeq == [x] + h.classes[c].freeq[1..];
    }
    forall d | 0 <= d < |h'.classes| ensures ClassOk(h', d) {
      assert ClassOk(h, d);
    }
  }

  lemma TakeTailKeeps(h: Heap, c: nat)
    requires Good(h) && c < |h.classes| && h.classes[c].cur.Some?
    ensures Good(TakeTail(h, c)) && h.classes[c].cur.value !in h.inUse
  {
    assert ClassOk(h, c);
    var h' := TakeTail(h, c);
    var x := h.classes[c].cur.value;
    assert Exists(h, x) && Placed(h, x);
    forall y | Exists(h', y) ensures Placed(h', y) {
      assert Exists(h, y) && Placed(h, y);
    }
    forall d | 0 <= d < |h'.classes| ensures ClassOk(h', d) {
      assert ClassOk(h, d);
    }
  }

  lemma PutFreeKeeps(h: Heap, x: Slot)
    requires Good(h) && x in h.inUse
    ensures Exists(h, x) && Good(PutFree(h, x))
  {
    assert Placed(h, x);
    var h' := PutFree(h, x);
    forall y | Exists(h', y) ensures Placed(h', y) {
      assert Exists(h, y) && Placed(h, y);
    }
    forall d | 0 <= d < |h'.classes| ensures ClassOk(h', d) {
      assert ClassOk(h, d);
    }
  }

  lemma AddNewKeeps(h: Heap, c: nat)
    requires Good(h) && c < |h.classes| && h.classes[c].cur.None? && |h.owner| < h.maxNslab
    ensures Good(AddNew(h, c)) && !Held(AddNew(h, c).refs, |h.owner|)
  {
    var h' := AddNew(h, c);
    var s := |h.owner|;
    SnocDistinct(h.lruq, s);
    forall d | 0 <= d < |h'.classes| ensures ClassOk(h', d) {
      assert ClassOk(h, d);
    }
    forall y | Exists(h', y) ensures Placed(h', y) {
      if y.slab == s {
        assert y !in h.inUse by { assert !Exists(h, y); }
        assert y !in h.classes[c].freeq by { assert ClassOk(h, c); }
      } else {
        assert Exists(h, y) && Placed(h, y);
      }
    }
  }

  /** After eviction slab s has no item anywhere; all others are where they were. */
  lemma EvictedPlaces(h: Heap, s: nat, y: Slot)
    requires Good(h) && s < |h.owner| && Exists(h, y)
    ensures var h' := Evicted(h, s);
            && Exists(h', y)
            && (y.slab != s ==> Placed(h', y))
            && (y.slab == s ==> !InTail(h', y) && !IsFree(h', y) && y !in h'.inUse)
  {
    var p := h.classes[h.owner[s]];
    PurgeMembers(p.freeq, s, p.nitem);
    assert ClassOk(h, h.owner[s]);
    assert Placed(h, y);
  }

  lemma EvictedClass(h: Heap, s: nat, d: nat)
    requires Good(h) && s < |h.owner| && d < |h.classes|
    ensures var h' := Evicted(h, s);
            && ClassOk(h', d)
            && (forall x :: x in h'.classes[d].freeq ==> x.slab != s)
            && (h'.classes[d].cur.Some? ==> h'.classes[d].cur.value.slab != s)
            && (h.classes[d].cur.None? ==> h'.classes[d].cur.None?)
  {
    assert ClassOk(h, d);
    PurgeMembers(h.classes[d].freeq, s, h.classes[d].nitem);
  }

  lemma RecycledKeeps(h: Heap, s: nat, c: nat)
    requires Good(h) && s < |h.owner| && c < |h.classes| && h.classes[c].cur.None?
    ensures Good(Recycled(h, s, c)) && !Held(Recycled(h, s, c).refs, s)
    ensures Recycled(h, s, c).inUse == set x | x in h.inUse && x.slab != s
  {
    var e := Evicted(h, s);
    var h' := Recycled(h, s, c);
    DropMembers(h.lruq, s);
    SnocDistinct(e.lruq, s);
    forall t: nat ensures t in h'.lruq <==> t < |h'.owner| {
      assert t in h'.lruq <==> t in e.lruq || t == s;
    }
    forall d | 0 <= d < |h'.classes| ensures ClassOk(h', d) {
      EvictedClass(h, s, d);
    }
    forall y | Exists(h', y) ensures Placed(h', y) {
      EvictedClass(h, s, c);
      if y.slab != s {
        assert Exists(h, y);
        EvictedPlaces(h, s, y);
      }
    }
  }

  lemma TouchedKeeps(h: Heap, s: nat)
    requires Good(h) && s < |h.owner|
    ensures Good(Touched(h, s))
  {
    var h' := Touched(h, s);
    DropMembers(h.lruq, s);
    SnocDistinct(Drop(h.lruq, s), s);
    forall t: nat ensures t in h'.lruq <==> t < |h'.owner| {
      assert t in h'.lruq <==> t in Drop(h.lruq, s) || t == s;
    }
    forall d | 0 <= d < |h'.classes| ensures ClassOk(h', d) {
      assert ClassOk(h, d);
    }
    forall y | Exists(h', y) ensures Placed(h', y) {
      assert Exists(h, y) && Placed(h, y);
    }
  }

  // ---------- whole runs ----------

  datatype Step =
    | GetFree(c: nat)
    | GetTail(c: nat)
    | NewSlab(c: nat)
    | Recycle(s: nat, c: nat)
    | Put(x: Slot)
    | Touch(s: nat)
    | SetRefs(s: nat, n: nat)

  predicate Enabled(h: Heap, t: Step) {
    match t
    case GetFree(c) => c < |h.classes| && h.classes[c].freeq != []
    case GetTail(c) => c < |h.classes| && h.classes[c].cur.Some?
    case NewSlab(c) => c < |h.classes| && h.classes[c].cur.None? && |h.owner| < h.maxNslab
    case Recycle(s, c) => s < |h.owner| && s < |h.refs| && h.refs[s] == 0 && c < |h.classes| && h.classes[c].cur.None?
    case Put(x) => x in h.inUse
    case Touch(s) => s < |h.owner|
    case SetRefs(s, _) => s < |h.refs|
  }

  /** The step finds the slab and the class it follows a slab's id to.  That it always
      does is part of what AlwaysConserved says; elsewhere After does nothing. */
  predicate Defined(h: Heap, t: Step) {
    match t
    case Recycle(s, _) => s < |h.owner| == |h.refs| && h.owner[s] < |h.classes|
    case Put(x) => Exists(h, x)
    case _ => true
  }

  ghost function After(h: Heap, t: Step): Heap
    requires Enabled(h, t)
  {
    match t
    case GetFree(c) => TakeFree(h, c)
    case GetTail(c) => TakeTail(h, c)
    case NewSlab(c) => AddNew(h, c)
    case Recycle(s, c) => if Defined(h, t) then Recycled(h, s, c) else h
    case Put(x) => if Defined(h, t) then PutFree(h, x) else h
    case Touch(s) => Touched(h, s)
    case SetRefs(s, n) => h.(refs := h.refs[s := n])
  }

  lemma StepKeeps(h: Heap, t: Step)
    requires Good(h) && Enabled(h, t)
    ensures Defined(h, t) && Good(After(h, t))
  {
    match t
    case GetFree(c) => TakeFreeKeeps(h, c);
    case GetTail(c) => TakeTailKeeps(h, c);
    case NewSlab(c) => AddNewKeeps(h, c);
    case Recycle(s, c) => RecycledKeeps(h, s, c);
    case Put(x) => PutFreeKeeps(h, x);
    case Touch(s) => TouchedKeeps(h, s);
    case SetRefs(s, n) =>
      forall d | 0 <= d < |h.classes| ensures ClassOk(After(h, t), d) { assert ClassOk(h, d); }
      forall y | Exists(After(h, t), y) ensures Placed(After(h, t), y) { assert Exists(h, y) && Placed(h, y); }
  }

  ghost predicate ValidRun(h: Heap, steps: seq<Step>)
    decreases |steps|
  {
    steps == [] || (Enabled(h, steps[0]) && ValidRun(After(h, steps[0]), steps[1..]))
  }

  ghost function Final(h: Heap, steps: seq<Step>): Heap
    requires ValidRun(h, steps)
    decreases |steps|
  {
    if steps == [] then h else Final(After(h, steps[0]), steps[1..])
  }

  lemma {:induction false} RunKeeps(h: Heap, steps: seq<Step>)
    requires Good(h) && ValidRun(h, steps)
    ensures Good(Final(h, steps))
    ensures Final(h, steps).maxNslab == h.maxNslab && |Final(h, steps).classes| == |h.classes|
    ensures forall c :: 0 <= c < |h.classes| ==> Final(h, steps).classes[c].nitem == h.classes[c].nitem
    decreases |steps|
  {
    if steps != [] {
      StepKeeps(h, steps[0]);
      RunKeeps(After(h, steps[0]), steps[1..]);
    }
  }

  // ---------- conservation ----------

  /** How many slabs class c has among the first n. */
  function SlabsOf(owner: seq<nat>, c: nat): nat {
    if owner == [] then 0 else SlabsOf(owner[..|owner|-1], c) + if owner[|owner|-1] == c then 1 else 0
  }

  /** The items lo, lo+1, ..., lo+n-1 of slab s. */
  ghost function Run(s: nat, lo: nat, n: nat): set<Slot> {
    set i | lo <= i < lo + n :: Slot(s, i)
  }

  lemma {:induction false} RunSize(s: nat, lo: nat, n: nat)
    ensures |Run(s, lo, n)| == n
  {
    if n == 0 {
      assert Run(s, lo, 0) == {};
    } else {
      RunSize(s, lo, n - 1);
      assert Run(s, lo, n) == Run(s, lo, n - 1) + {Slot(s, lo + n - 1)};
    }
  }

  /** All the items of the slabs of class c. */
  ghost function AllSlots(owner: seq<nat>, c: nat, nitem: nat): set<Slot> {
    if owner == [] then {}
    else
      AllSlots(owner[..|owner|-1], c, nitem) +
      if owner[|owner|-1] == c then Run(|owner| - 1, 0, nitem) else {}
  }

  lemma {:induction false} AllSlotsMembers(owner: seq<nat>, c: nat, nitem: nat)
    ensures forall x :: x in AllSlots(owner, c, nitem) <==> x.slab < |owner| && owner[x.slab] == c && x.i < nitem
  {
    if owner != [] {
      AllSlotsMembers(owner[..|owner|-1], c, nitem);
    }
  }

  lemma {:induction false} AllSlotsSize(owner: seq<nat>, c: nat, nitem: nat)
    ensures |AllSlots(owner, c, nitem)| == SlabsOf(owner, c) * nitem
  {
    if owner != [] {
      var n := |owner| - 1;
      AllSlotsSize(owner[..n], c, nitem);
      if owner[n] == c {
        RunSize(n, 0, nitem);
        LastRunApart(owner, c, nitem);
        OneMore(SlabsOf(owner[..n], c), nitem);
      }
    }
  }

  lemma LastRunApart(owner: seq<nat>, c: nat, nitem: nat)
    requires owner != []
    ensures AllSlots(owner[..|owner|-1], c, nitem) !! Run(|owner| - 1, 0, nitem)
  {
    AllSlotsMembers(owner[..|owner|-1], c, nitem);
  }

  lemma {:induction false} SetSize<T>(q: seq<T>)
    requires NoDuplicates(q)
    ensures |set x | x in q| == |q|
  {
    if q != [] {
      var n := |q| - 1;
      SetSize(q[..n]);
      assert (set x | x in q) == (set x | x in q[..n]) + {q[n]};
    }
  }

  /** The items of class c that the cache holds. */
  ghost function UsedIn(h: Heap, c: nat): set<Slot> {
    set x | x in h.inUse && x.slab < |h.owner| && h.owner[x.slab] == c
  }

  ghost function FreeIn(h: Heap, c: nat): set<Slot>
    requires c < |h.classes|
  {
    set x | x in h.classes[c].freeq
  }

  ghost function TailIn(h: Heap, c: nat): set<Slot>
    requires c < |h.classes|
  {
    var p := h.classes[c];
    if p.cur.Some? && p.nfree >= 0 then Run(p.cur.value.slab, p.cur.value.i, p.nfree) else {}
  }

  lemma OnePlace(h: Heap, c: nat, x: Slot)
    requires Good(h) && c < |h.classes|
    ensures (x.slab < |h.owner| && h.owner[x.slab] == c && x.i < h.classes[c].nitem) <==>
            x in UsedIn(h, c) || x in FreeIn(h, c) || x in TailIn(h, c)
    ensures !(x in UsedIn(h, c) && x in FreeIn(h, c))
    ensures !(x in UsedIn(h, c) && x in TailIn(h, c)) && !(x in FreeIn(h, c) && x in TailIn(h, c))
  {
    assert ClassOk(h, c);
    if Exists(h, x) {
      assert Placed(h, x);
    }
  }

  lemma PlacesCounted(h: Heap, c: nat)
    requires Good(h) && c < |h.classes|
    ensures |FreeIn(h, c)| == h.classes[c].nfreeq && |TailIn(h, c)| == h.classes[c].nfree
  {
    assert ClassOk(h, c);
    var p := h.classes[c];
    SetSize(p.freeq);
    if p.cur.Some? {
      RunSize(p.cur.value.slab, p.cur.value.i, p.nfree);
    }
  }

  lemma NoSlabNoItem(h: Heap, c: nat)
    requires Good(h) && c < |h.classes| && ClassOk(h, c)
    ensures h.owner == [] ==> h.classes[c].freeq == [] && h.classes[c].cur.None?
  {
    if h.classes[c].freeq != [] {
      assert h.classes[c].freeq[0] in h.classes[c].freeq;
    }
  }

  /** No item is lost and none is counted twice: what the cache holds, what is
      queued and what is untouched add up to what the slabs were cut into. */
  lemma Conserved(h: Heap, c: nat)
    requires Good(h) && c < |h.classes|
    ensures |UsedIn(h, c)| + h.classes[c].nfreeq + h.classes[c].nfree
         == SlabsOf(h.owner, c) * h.classes[c].nitem
  {
    var nitem := h.classes[c].nitem;
    var all, used, free, tail := AllSlots(h.owner, c, nitem), UsedIn(h, c), FreeIn(h, c), TailIn(h, c);
    AllSlotsMembers(h.owner, c, nitem);
    AllSlotsSize(h.owner, c, nitem);
    PlacesCounted(h, c);
    forall x
      ensures x in all <==> x in used || x in free || x in tail
      ensures !(x in used && x in free) && !(x in used && x in tail) && !(x in free && x in tail)
    {
      OnePlace(h, c, x);
    }
    assert all == used + free + tail;
    assert |used + free| == |used| + |free|;
    assert |used + free + tail| == |used + free| + |tail|;
  }

  /** A heap without slabs; items says how many items a slab of each class has. */
  function Empty(items: seq<nat>, max: nat): Heap {
    Heap(max, [], [], [], seq(|items|, c requires 0 <= c < |items| => Class(items[c], [], 0, None, 0)), {})
  }

  /** In every run from an empty heap, whatever the order of gets, puts, evictions and
      touches: no class gains or loses an item, the slab queue is a permutation of the
      slab table, the table stays within its limit, and the next step, if there is
      one, refers to slabs and classes that exist. */
  lemma AlwaysConserved(items: seq<nat>, max: nat, steps: seq<Step>, c: nat)
    requires forall d :: 0 <= d < |items| ==> items[d] > 0
    requires ValidRun(Empty(items, max), steps) && c < |items|
    ensures var f := Final(Empty(items, max), steps);
            && |f.owner| <= f.maxNslab == max && |f.classes| == |items|
            && multiset(f.lruq) == multiset(seq(|f.owner|, s => s))
            && |UsedIn(f, c)| + f.classes[c].nfreeq + f.classes[c].nfree
               == SlabsOf(f.owner, c) * items[c]
            && forall t :: Enabled(f, t) ==> Defined(f, t)
  {
    var h := Empty(items, max);
    assert Good(h);
    RunKeeps(h, steps);
    var f := Final(h, steps);
    Conserved(f, c);
    QueueIsPermutation(f);
    forall t | Enabled(f, t) ensures Defined(f, t) {
      StepKeeps(f, t);
    }
  }

  /** The slab queue is a permutation of the slab table. */
  lemma QueueIsPermutation(h: Heap)
    requires LruqOk(h)
    ensures multiset(h.lruq) == multiset(seq(|h.owner|, s => s))
  {
    var table: seq<nat> := seq(|h.owner|, s => s);
    assert NoDuplicates(table);
    forall s: nat ensures multiset(h.lruq)[s] == multiset(table)[s] {
      CountedOnce(h.lruq, s);
      CountedOnce(table, s);
      assert s < |h.owner| ==> table[s] == s;
    }
  }

  lemma {:induction false} CountedOnce(q: seq<nat>, x: nat)
    requires NoDuplicates(q)
    ensures multiset(q)[x] == if x in q then 1 else 0
  {
    if q != [] {
      var n := |q| - 1;
      CountedOnce(q[..n], x);
      assert q == q[..n] + [q[n]];
    }
  }

  // ---------- the order of use ----------

  /** When each slab was last added, recycled or touched, by the number of the step. */
  type Stamps = map<nat, nat>

  function Stamped(m: Stamps, h: Heap, t: Step, now: nat): Stamps {
    match t
    case NewSlab(_) => m[|h.owner| := now]
    case Recycle(s, _) => m[s := now]
    case Touch(s) => m[s := now]
    case _ => m
  }

  ghost function StampedAll(m: Stamps, h: Heap, steps: seq<Step>, now: nat): Stamps
    requires ValidRun(h, steps)
    decreases |steps|
  {
    if steps == [] then m
    else StampedAll(Stamped(m, h, steps[0], now), After(h, steps[0]), steps[1..], now + 1)
  }

  /** The queue lists its slabs by the time of their last use, all of it before now. */
  ghost predicate Ordered(q: seq<nat>, m: Stamps, now: nat) {
    && (forall s :: s in q ==> s in m && m[s] < now)
    && (forall i, j :: 0 <= i < j < |q| && q[i] in m && q[j] in m ==> m[q[i]] < m[q[j]])
  }

  lemma {:induction false} DropOrdered(q: seq<nat>, x: nat, m: Stamps, now: nat)
    requires Ordered(q, m, now) && NoDuplicates(q)
    ensures Ordered(Drop(q, x), m, now)
  {
    if q != [] {
      var rest := q[1..];
      assert forall i :: 0 <= i < |rest| ==> rest[i] == q[i+1];
      assert Ordered(rest, m, now);
      DropOrdered(rest, x, m, now);
      DropMembers(q, x);
      DropMembers(rest, x);
      if q[0] != x {
        ConsOrdered(q[0], Drop(rest, x), m, now);
      }
    }
  }

  lemma ConsOrdered(x: nat, q: seq<nat>, m: Stamps, now: nat)
    requires Ordered(q, m, now) && x in m && m[x] < now
    requires forall y :: y in q && y in m ==> m[x] < m[y]
    ensures Ordered([x] + q, m, now)
  {
    var r := [x] + q;
    forall i, j | 0 <= i < j < |r| && r[i] in m && r[j] in m ensures m[r[i]] < m[r[j]] {
      assert r[j] == q[j-1] && r[j] in q;
    }
  }

  /** What goes to the tail now is the last one used. */
  lemma SnocOrdered(q: seq<nat>, x: nat, m: Stamps, now: nat)
    requires Ordered(q, m, now) && x !in q
    ensures Ordered(q + [x], m[x := now], now + 1)
  {
    var r := q + [x];
    forall i, j | 0 <= i < j < |r| && r[i] in m[x := now] && r[j] in m[x := now]
      ensures m[x := now][r[i]] < m[x := now][r[j]]
    {
      assert r[i] == q[i] && r[i] in q;
      if j < |q| {
        assert r[j] == q[j] && r[j] in q;
      }
    }
  }

  lemma MovedOrdered(q: seq<nat>, x: nat, m: Stamps, now: nat)
    requires Ordered(q, m, now) && NoDuplicates(q)
    ensures Ordered(Drop(q, x) + [x], m[x := now], now + 1)
  {
    DropMembers(q, x);
    DropOrdered(q, x, m, now);
    SnocOrdered(Drop(q, x), x, m, now);
  }

  lemma StepOrders(h: Heap, t: Step, m: Stamps, now: nat)
    requires Good(h) && Enabled(h, t) && Ordered(h.lruq, m, now)
    ensures Ordered(After(h, t).lruq, Stamped(m, h, t, now), now + 1)
  {
    StepKeeps(h, t);
    match t
    case NewSlab(_) => SnocOrdered(h.lruq, |h.owner|, m, now);
    case Recycle(s, _) => MovedOrdered(h.lruq, s, m, now);
    case Touch(s) => MovedOrdered(h.lruq, s, m, now);
    case _ =>
  }

  lemma {:induction false} RunOrders(h: Heap, steps: seq<Step>, m: Stamps, now: nat)
    requires Good(h) && ValidRun(h, steps) && Ordered(h.lruq, m, now)
    ensures Ordered(Final(h, steps).lruq, StampedAll(m, h, steps, now), now + |steps|)
    decreases |steps|
  {
    if steps != [] {
      StepOrders(h, steps[0], m, now);
      StepKeeps(h, steps[0]);
      RunOrders(After(h, steps[0]), steps[1..], Stamped(m, h, steps[0], now), now + 1);
    }
  }

  /** In every run from an empty heap the slab queue lists all slabs by the time of their
      last use; so the first one without references is the least recently used of all
      those. */
  lemma QueueIsByLastUse(items: seq<nat>, max: nat, steps: seq<Step>, i: nat)
    requires forall d :: 0 <= d < |items| ==> items[d] > 0
    requires ValidRun(Empty(items, max), steps)
    ensures var f, m := Final(Empty(items, max), steps), StampedAll(map[], Empty(items, max), steps, 0);
            && Ordered(f.lruq, m, |steps|)
            && (FirstFree(f.refs, f.lruq, i) ==> LeastUsed(f.refs, m, f.lruq[i]))
  {
    var h := Empty(items, max);
    assert Good(h);
    RunKeeps(h, steps);
    RunOrders(h, steps, map[], 0);
    var f := Final(h, steps);
    if FirstFree(f.refs, f.lruq, i) {
      FirstFreeIsLeastUsed(f, StampedAll(map[], h, steps, 0), |steps|, i);
    }
  }

  /** Somebody refers to an item of slab s. */
  predicate Held(refs: seq<nat>, s: nat) {
    s < |refs| && refs[s] != 0
  }

  /** The slab at i is the first on the queue without references. */
  ghost predicate FirstFree(refs: seq<nat>, q: seq<nat>, i: nat) {
    i < |q| && !Held(refs, q[i]) && forall j :: 0 <= j < i ==> Held(refs, q[j])
  }

  /** Of the slabs without references, s was used least recently. */
  ghost predicate LeastUsed(refs: seq<nat>, m: Stamps, s: nat) {
    && s < |refs| && !Held(refs, s) && s in m
    && forall t: nat :: t < |refs| && !Held(refs, t) && t != s ==> t in m && m[s] < m[t]
  }

  lemma FirstFreeIsLeastUsed(h: Heap, m: Stamps, now: nat, i: nat)
    requires LruqOk(h) && |h.refs| == |h.owner| && Ordered(h.lruq, m, now) && FirstFree(h.refs, h.lruq, i)
    ensures LeastUsed(h.refs, m, h.lruq[i])
  {
    var s := h.lruq[i];
    assert s in h.lruq;
    forall t: nat | t < |h.refs| && !Held(h.refs, t) && t != s ensures t in m && m[s] < m[t] {
      assert t in h.lruq;
      var j :| 0 <= j < |h.lruq| && h.lruq[j] == t;
      assert i < j;
    }
  }

  /** A freed item is the next one its class hands out, and then all is as before. */
  lemma FreedIsNextTaken(h: Heap, x: Slot)
    requires Good(h) && x in h.inUse
    ensures Exists(h, x) && TakeFree(PutFree(h, x), h.owner[x.slab]) == h
  {
    var c := h.owner[x.slab];
    var p := h.classes[c];
    assert ([x] + p.freeq)[1..] == p.freeq;
    assert TakeFree(PutFree(h, x), c).classes == h.classes;
    assert h.inUse - {x} + {x} == h.inUse;
  }

  // ---------- the code ----------

  const SLAB_RAND_MAX_TRIES := 50
  const SLAB_LRU_MAX_TRIES := 50
  const SLAB_LRU_UPDATE_INTERVAL := 1

  lemma {:induction false} PurgeNext(q: seq<Slot>, s: nat, n: nat)
    requires NoDuplicates(q)
    ensures Slot(s, n) !in q ==> Purge(q, s, n + 1) == Purge(q, s, n)
    ensures Slot(s, n) in q ==> Purge(q, s, n + 1) == Drop(Purge(q, s, n), Slot(s, n))
    ensures Slot(s, n) in q ==> |Purge(q, s, n + 1)| == |Purge(q, s, n)| - 1
  {
    if q != [] {
      assert q == [q[0]] + q[1..];
      assert forall j :: 1 <= j < |q| ==> q[1..][j-1] == q[j] != q[0];
      PurgeNext(q[1..], s, n);
    }
  }

  lemma {:induction false} PurgeNothing(q: seq<Slot>, s: nat)
    ensures Purge(q, s, 0) == q
  {
    if q != [] {
      PurgeNothing(q[1..], s);
    }
  }

  /** Age finds a slab to evict: one without references among the first fifty. */
  ghost predicate AgeFinds(refs: seq<nat>, q: seq<nat>) {
    exists i :: 0 <= i < |q| && i < SLAB_LRU_MAX_TRIES && !Held(refs, q[i])
  }

  /** The first pick that finds a slab without references, the last one not counting. */
  ghost predicate FirstPick(refs: seq<nat>, picks: seq<nat>, s: nat) {
    |refs| > 0 &&
    exists i :: 0 <= i < SLAB_RAND_MAX_TRIES - 1 && i < |picks| && s == picks[i] % |refs| && !Held(refs, s) &&
                forall j :: 0 <= j < i ==> Held(refs, picks[j] % |refs|)
  }

  class SlabHeap {
    const maxNslab: nat
    var owner: seq<nat>
    var refs: seq<nat>
    var utime: seq<int>
    var lruq: seq<nat>
    var classes: seq<Class>
    var inUse: set<Slot>
    ghost var stamps: Stamps
    ghost var clock: nat

    ghost function Value(): Heap
      reads this
    {
      Heap(maxNslab, owner, refs, lruq, classes, inUse)
    }

    ghost predicate Valid()
      reads this
    {
      Good(Value()) && |utime| == |owner| && Ordered(lruq, stamps, clock)
    }

    /** slab_slabclass_init and _slab_heapinfo_init; items says how many items a
        slab of each class has. */
    constructor (items: seq<nat>, max: nat)
      requires forall c :: 0 <= c < |items| ==> items[c] > 0
      ensures Valid() && Value() == Empty(items, max)
    {
      maxNslab := max;
      owner, refs, utime, lruq, inUse := [], [], [], [], {};
      classes := seq(|items|, c requires 0 <= c < |items| => Class(items[c], [], 0, None, 0));
      stamps, clock := map[], 0;
    }

    /** slab_evict_lru, the search: of the slabs nobody refers to the least recently
        used, if it is among the first fifty. */
    method FindLru() returns (r: Option<nat>)
      requires Valid()
      ensures r.Some? <==> AgeFinds(refs, lruq)
      ensures r.Some? ==> r.value < |owner| && LeastUsed(refs, stamps, r.value)
    {
      var tries, i := SLAB_LRU_MAX_TRIES, 0;
      while tries > 0 && i < |lruq|
        invariant tries + i == SLAB_LRU_MAX_TRIES && 0 <= i <= |lruq| && tries >= 0
        invariant forall j :: 0 <= j < i ==> Held(refs, lruq[j])
      {
        assert lruq[i] in lruq;
        if refs[lruq[i]] == 0 {
          assert !Held(refs, lruq[i]);
          FirstFreeIsLeastUsed(Value(), stamps, clock, i);
          return Some(lruq[i]);
        }
        tries, i := tries - 1, i + 1;
      }
      return None;
    }

    /** slab_evict_rand, the search, with the values that rand() yields.  The last
        try is thrown away even if it finds a slab, and with no slab at all the
        remainder by the number of slabs crashes. */
    method FindRand(picks: seq<nat>) returns (r: Option<nat>, crash: bool)
      requires Valid() && |picks| == SLAB_RAND_MAX_TRIES
      ensures crash <==> owner == []
      ensures r.Some? ==> r.value < |owner| && FirstPick(refs, picks, r.value)
      ensures r.None? && !crash ==> forall i :: 0 <= i < SLAB_RAND_MAX_TRIES - 1 ==> Held(refs, picks[i] % |owner|)
    {
      if |owner| == 0 {
        return None, true;
      }
      crash := false;
      var tries := SLAB_RAND_MAX_TRIES;
      var slab := picks[0] % |owner|;
      tries := tries - 1;
      while tries > 0 && refs[slab] != 0
        invariant 0 <= tries < SLAB_RAND_MAX_TRIES && slab == picks[SLAB_RAND_MAX_TRIES - 1 - tries] % |owner|
        invariant forall i :: 0 <= i < SLAB_RAND_MAX_TRIES - 1 - tries ==> Held(refs, picks[i] % |owner|)
      {
        slab := picks[SLAB_RAND_MAX_TRIES - tries] % |owner|;
        tries := tries - 1;
      }
      if tries == 0 {
        return None, false;
      }
      return Some(slab), false;
    }

    /** TAILQ_REMOVE */
    static method Unlink<T(==)>(q: seq<T>, x: T) returns (r: seq<T>)
      ensures r == Drop(q, x)
    {
      if q == [] {
        return [];
      }
      if q[0] == x {
        return q[1..];
      }
      r := Unlink(q[1..], x);
      r := [q[0]] + r;
    }

    /** The loop of slab_evict_one over the items of slab s, which belongs to p. */
    static method PurgeItems(s: nat, p: Class, used: set<Slot>) returns (p': Class, used': set<Slot>)
      requires NoDuplicates(p.freeq) && p.nfreeq == |p.freeq|
      requires forall x :: x in used ==> x !in p.freeq
      ensures p' == p.(freeq := Purge(p.freeq, s, p.nitem), nfreeq := |Purge(p.freeq, s, p.nitem)|)
      ensures used' == set x | x in used && !(x.slab == s && x.i < p.nitem)
    {
      p', used' := p, used;
      PurgeNothing(p.freeq, s);
      for i := 0 to p.nitem
        invariant p' == p.(freeq := Purge(p.freeq, s, i), nfreeq := |Purge(p.freeq, s, i)|)
        invariant used' == set x | x in used && !(x.slab == s && x.i < i)
      {
        var it := Slot(s, i);
        PurgeNext(p.freeq, s, i);
        PurgeMembers(p.freeq, s, i);
        if it in used' {
          used' := used' - {it};
        } else if it in p'.freeq {
          var rest := Unlink(p'.freeq, it);
          p' := p'.(nfreeq := p'.nfreeq - 1, freeq := rest);
        }
      }
    }

    /** slab_evict_one */
    method EvictOne(s: nat)
      requires Valid() && s < |owner| && !Held(refs, s)
      modifies this`classes, this`inUse, this`lruq
      ensures Value() == Evicted(old(Value()), s)
    {
      ghost var h := Value();
      var c := owner[s];
      var p := classes[c];
      assert ClassOk(h, c);
      if p.cur.Some? && p.cur.value.slab == s {
        p := p.(nfree := 0, cur := None);
      }
      forall x | x in inUse ensures x !in p.freeq && (x.slab == s ==> x.i < p.nitem) {
        assert Exists(h, x) && Placed(h, x);
      }
      var used;
      p, used := PurgeItems(s, p, inUse);
      assert used == set x | x in inUse && x.slab != s;
      inUse := used;
      classes := classes[c := p];
      lruq := Unlink(lruq, s);
    }

    /** slab_add_one on slab s for class c */
    method AddOne(s: nat, c: nat)
      requires c < |classes| && s < |owner| == |refs|
      modifies this`owner, this`refs, this`lruq, this`classes, this`stamps, this`clock
      ensures Value() == AddOld(old(Value()), s, c)
      ensures stamps == old(stamps)[s := old(clock)] && clock == old(clock) + 1
    {
      var p := classes[c];
      owner, refs := owner[s := c], refs[s := 0];
      lruq := lruq + [s];
      classes := classes[c := p.(nfree := p.nitem, cur := Some(Slot(s, 0)))];
      stamps, clock := stamps[s := clock], clock + 1;
    }

    /** slab_get_new, then slab_add_one */
    method NewSlab(c: nat)
      requires Valid() && c < |classes| && classes[c].cur.None? && |owner| < maxNslab
      modifies this
      ensures Valid() && Value() == AddNew(old(Value()), c)
      ensures stamps == old(stamps)[|old(owner)| := old(clock)] && clock == old(clock) + 1
    {
      AddNewKeeps(Value(), c);
      SnocOrdered(lruq, |owner|, stamps, clock);
      owner, refs, utime := owner + [c], refs + [0], utime + [0];
      AddOne(|owner| - 1, c);
      assert owner == old(owner) + [c] && refs == old(refs) + [0];
    }

    /** slab_get: a new slab while there is room, else an evicted one.  It crashes
        exactly when random eviction is asked for before there is any slab. */
    method GetSlab(c: nat, allocOk: bool, evictLru: bool, evictRand: bool, picks: seq<nat>)
        returns (ok: bool, evicted: Option<nat>, crash: bool)
      requires Valid() && c < |classes| && classes[c].cur.None? && |picks| == SLAB_RAND_MAX_TRIES
      modifies this
      ensures Valid()
      ensures crash <==> evictRand && old(owner) == [] && !(maxNslab > 0 && allocOk)
      ensures crash ==> !ok
      ensures !ok ==> Value() == old(Value()) && evicted.None?
      ensures ok && evicted.None? ==> |old(owner)| < maxNslab && allocOk && Value() == AddNew(old(Value()), c)
      ensures ok && evicted.Some? ==>
                && (|old(owner)| == maxNslab || !allocOk) && evicted.value < |old(owner)|
                && (if evictLru && AgeFinds(old(refs), old(lruq)) then LeastUsed(old(refs), old(stamps), evicted.value)
                    else evictRand && FirstPick(old(refs), picks, evicted.value))
                && Value() == Recycled(old(Value()), evicted.value, c)
      ensures !ok && evictLru ==> !AgeFinds(old(refs), old(lruq))
      ensures !ok ==> stamps == old(stamps) && clock == old(clock)
      ensures ok ==> stamps == old(stamps)[(if evicted.Some? then evicted.value else |old(owner)|) := old(clock)]
    {
      evicted, crash := None, false;
      if |owner| < maxNslab && allocOk {
        NewSlab(c);
        return true, None, false;
      }
      evicted, crash := FindVictim(evictLru, evictRand, picks);
      if evicted.None? {
        return false, None, crash;
      }
      Reuse(evicted.value, c);
      return true, evicted, false;
    }

    /** The search for a slab to evict: by age, then at random, as the options ask. */
    method FindVictim(evictLru: bool, evictRand: bool, picks: seq<nat>) returns (r: Option<nat>, crash: bool)
      requires Valid() && |picks| == SLAB_RAND_MAX_TRIES
      ensures crash <==> evictRand && owner == []
      ensures crash ==> r.None?
      ensures r.Some? ==>
                && r.value < |owner|
                && if evictLru && AgeFinds(refs, lruq) then LeastUsed(refs, stamps, r.value)
                   else evictRand && FirstPick(refs, picks, r.value)
      ensures r.None? && evictLru ==> !AgeFinds(refs, lruq)
      ensures r.None? && evictRand && !crash ==>
                forall i :: 0 <= i < SLAB_RAND_MAX_TRIES - 1 ==> Held(refs, picks[i] % |owner|)
    {
      r, crash := None, false;
      if evictLru {
        r := FindLru();
      }
      if r.None? && evictRand {
        r, crash := FindRand(picks);
      }
    }

    /** Eviction of slab s, which then goes to class c. */
    method Reuse(s: nat, c: nat)
      requires Valid() && s < |owner| && !Held(refs, s) && c < |classes| && classes[c].cur.None?
      modifies this
      ensures Valid() && Value() == Recycled(old(Value()), s, c)
      ensures stamps == old(stamps)[s := old(clock)]
    {
      RecycledKeeps(Value(), s, c);
      MovedOrdered(lruq, s, stamps, clock);
      EvictOne(s);
      AddOne(s, c);
    }

    /** _slab_get_item */
    method GetItem(c: nat, useFreeq: bool, allocOk: bool, evictLru: bool, evictRand: bool, picks: seq<nat>)
        returns (r: Option<Slot>, evicted: Option<nat>, crash: bool)
      requires Valid() && c < |classes| && |picks| == SLAB_RAND_MAX_TRIES
      modifies this
      ensures Valid()
      ensures crash <==> evictRand && old(owner) == [] && !(maxNslab > 0 && allocOk)
      ensures crash ==> r.None?
      ensures r.None? ==> Value() == old(Value()) && evicted.None?
      ensures r.Some? ==> Exists(Value(), r.value) && owner[r.value.slab] == c
      ensures r.Some? && evicted.None? ==> r.value !in old(inUse) && inUse == old(inUse) + {r.value}
      ensures evicted.Some? ==>
                && evicted.value < |old(refs)| && !Held(old(refs), evicted.value)
                && (evictLru && AgeFinds(old(refs), old(lruq)) ==> LeastUsed(old(refs), old(stamps), evicted.value))
                && (!AgeFinds(old(refs), old(lruq)) ==> evictRand)
                && r == Some(Slot(evicted.value, 0))
                && inUse == (set x | x in old(inUse) && x.slab != evicted.value) + {r.value}
      ensures (useFreeq && old(classes)[c].freeq != []) || old(classes)[c].cur.Some? ==> r.Some? && evicted.None?
    {
      evicted, crash := None, false;
      ghost var h := Value();
      assert ClassOk(h, c);
      NoSlabNoItem(h, c);
      var p := classes[c];
      if useFreeq && p.nfreeq != 0 {
        var it := TakeFromQueue(c);
        return Some(it), None, false;
      }
      if p.cur.None? {
        var ok;
        ok, evicted, crash := GetSlab(c, allocOk, evictLru, evictRand, picks);
        if !ok {
          return None, None, crash;
        }
      }
      var it := TakeFromTail(c);
      return Some(it), evicted, false;
    }

    /** _slab_get_item_from_freeq, when the queue is not empty */
    method TakeFromQueue(c: nat) returns (it: Slot)
      requires Valid() && c < |classes| && classes[c].freeq != []
      modifies this`classes, this`inUse
      ensures Valid() && it == old(classes)[c].freeq[0] && it !in old(inUse)
      ensures Exists(Value(), it) && owner[it.slab] == c
      ensures Value() == TakeFree(old(Value()), c)
    {
      assert ClassOk(Value(), c);
      TakeFreeKeeps(Value(), c);
      var p := classes[c];
      it := p.freeq[0];
      classes := classes[c := p.(nfreeq := p.nfreeq - 1, freeq := p.freeq[1..])];
      inUse := inUse + {it};
    }

    /** The end of _slab_get_item: the next item of the current slab. */
    method TakeFromTail(c: nat) returns (it: Slot)
      requires Valid() && c < |classes| && classes[c].cur.Some?
      modifies this`classes, this`inUse
      ensures Valid() && it == old(classes)[c].cur.value && it !in old(inUse)
      ensures Value() == TakeTail(old(Value()), c)
    {
      TakeTailKeeps(Value(), c);
      var p := classes[c];
      it := p.cur.value;
      p := p.(nfree := p.nfree - 1);
      if p.nfree != 0 {
        p := p.(cur := Some(Slot(it.slab, it.i + 1)));
      } else {
        p := p.(cur := None);
      }
      classes := classes[c := p];
      inUse := inUse + {it};
    }

    /** slab_put_item_into_freeq */
    method PutItem(it: Slot)
      requires Valid() && it in inUse
      modifies this`classes, this`inUse
      ensures Valid() && Value() == PutFree(old(Value()), it)
    {
      PutFreeKeeps(Value(), it);
      var c := owner[it.slab];
      var p := classes[c];
      classes := classes[c := p.(nfreeq := p.nfreeq + 1, freeq := [it] + p.freeq)];
      inUse := inUse - {it};
    }

    /** _slab_lruq_touch; moving says whether the eviction options ask for it. */
    method Touch(s: nat, moving: bool, now: int)
      requires Valid() && s < |owner|
      modifies this`lruq, this`utime, this`stamps, this`clock
      ensures Valid()
      ensures if moving && old(utime)[s] < now - SLAB_LRU_UPDATE_INTERVAL then
                && Value() == Touched(old(Value()), s) && utime == old(utime)[s := now]
                && stamps == old(stamps)[s := old(clock)]
              else Value() == old(Value()) && utime == old(utime) && stamps == old(stamps)
    {
      if !moving {
        return;
      }
      if utime[s] >= now - SLAB_LRU_UPDATE_INTERVAL {
        return;
      }
      TouchedKeeps(Value(), s);
      MovedOrdered(lruq, s, stamps, clock);
      lruq := Unlink(lruq, s);
      utime := utime[s := now];
      lruq := lruq + [s];
      stamps, clock := stamps[s := clock], clock + 1;
    }
  }
}
