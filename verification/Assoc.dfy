/** The hash index of mc_assoc.c.

    While it grows there are two tables and a cursor: keys whose old bucket lies
    at or beyond the cursor are still in the old table, all others in the new
    one.  Through every operation the pair looks like one finite map, whatever
    the hash function is. */
module Assoc {
  import opened Bytes
  import Hash

  /** An indexed item: its key and where the item is. */
  datatype Entry = Entry(key: Key, item: nat)

  type Bucket = seq<Entry>

  /** HASHSIZE */
  function HashSize(n: nat): nat
    ensures HashSize(n) > 0
  {
    if n == 0 then 1 else 2 * HashSize(n - 1)
  }

  /** A hash value under HASHMASK */
  function Masked(hv: nat, power: nat): (i: nat)
    ensures i < HashSize(power)
  {
    hv % HashSize(power)
  }

  /** In a table of twice the size a hash value is at the same place or that far on, as its
      next bit says; and a value below the size is its own place. */
  lemma MaskedSplits(hv: nat, power: nat)
    ensures Masked(hv, power + 1) ==
            Masked(hv, power) + if hv / HashSize(power) % 2 == 1 then HashSize(power) else 0
    ensures hv < HashSize(power) ==> Masked(hv, power) == hv
  {
    var n := HashSize(power);
    Halves(hv, n, hv / n, hv % n, hv / n / 2);
    if hv < n {
      RemainderIs(hv, n, 0, hv);
    }
  }

  lemma Halves(hv: nat, n: nat, q: nat, r: nat, p: nat)
    requires n > 0 && hv == n * q + r && r < n && (q == 2 * p || q == 2 * p + 1)
    ensures hv % (2 * n) == r + if q % 2 == 1 then n else 0
  {
    var b := q - 2 * p;
    Regrouped(n, p, b);
    RemainderIs(hv, 2 * n, p, r + if b == 1 then n else 0);
  }

  lemma Regrouped(n: nat, p: nat, b: nat)
    ensures n * (2 * p + b) == 2 * n * p + n * b
  {
  }

  lemma RemainderIs(x: nat, n: nat, q: nat, r: nat)
    requires x == n * q + r && r < n
    ensures x % n == r
  {
    var d := x / n;
    assert x == n * d + x % n;
    Further(n, d, q);
    Further(n, q, d);
  }

  lemma Further(n: nat, a: nat, b: nat)
    ensures a < b ==> n * a + n <= n * b
  {
    if a < b {
      Apart(n, a, b - a - 1);
    }
  }

  lemma Apart(n: nat, a: nat, d: nat)
    ensures n * (a + 1 + d) == n * a + n + n * d && n * d >= 0
  {
  }

  // ---------- buckets ----------

  /** The position of key k in a bucket, or its length. */
  function IndexOf(b: Bucket, k: Key): (i: nat)
    ensures i <= |b|
    ensures i < |b| ==> b[i].key == k
    ensures forall j :: 0 <= j < i ==> b[j].key != k
  {
    if b == [] || b[0].key == k then 0
    else
      var r := IndexOf(b[1..], k);
      assert forall j :: 1 <= j < 1 + r ==> b[j] == b[1..][j-1];
      1 + r
  }

  /** No key twice. */
  ghost predicate Distinct(b: Bucket) {
    forall i, j :: 0 <= i < j < |b| ==> b[i].key != b[j].key
  }

  function Without(b: Bucket, i: nat): Bucket
    requires i < |b|
  {
    b[..i] + b[i+1..]
  }

  lemma WithoutMembers(b: Bucket, i: nat)
    requires i < |b| && Distinct(b)
    ensures Distinct(Without(b, i))
    ensures forall e :: e in Without(b, i) <==> e in b && e.key != b[i].key
  {
    forall e ensures e in Without(b, i) <==> e in b && e.key != b[i].key {
      if e in b && e.key != b[i].key {
        var j :| 0 <= j < |b| && b[j] == e;
        assert j < i ==> Without(b, i)[j] == e;
        assert j > i ==> Without(b, i)[j-1] == e;
      }
    }
  }

  // ---------- the index as a value ----------

  /** The two tables; cursor is expand_bucket, and slot says where a key belongs in
      a table of a given power. */
  datatype Index = Index(primary: seq<Bucket>, old_: seq<Bucket>, power: nat, expanding: bool, cursor: nat,
                         slot: (Key, nat) -> nat)

  ghost predicate Shape(x: Index) {
    && x.power > 0 && |x.primary| == HashSize(x.power)
    && (x.expanding ==> |x.old_| == HashSize(x.power - 1) && x.cursor < |x.old_|)
    && InRange(x.slot)
  }

  ghost predicate InRange(slot: (Key, nat) -> nat) {
    forall k, p: nat :: slot(k, p) < HashSize(p)
  }

  /** assoc_get_bucket, first half: is k still in the old table? */
  ghost predicate InOld(x: Index, k: Key)
    requires x.power > 0
  {
    x.expanding && x.slot(k, x.power - 1) >= x.cursor
  }

  /** assoc_get_bucket, second half: which bucket of that table? */
  ghost function Place(x: Index, k: Key): nat
    requires x.power > 0
  {
    x.slot(k, if InOld(x, k) then x.power - 1 else x.power)
  }

  /** The buckets of both tables in use; none outside their range. */
  ghost function At(x: Index, inOld: bool, i: nat): Bucket {
    if inOld then (if x.expanding && i < |x.old_| then x.old_[i] else [])
    else if i < |x.primary| then x.primary[i] else []
  }

  ghost function Picked(x: Index, k: Key): Bucket
    requires x.power > 0
  {
    At(x, InOld(x, k), Place(x, k))
  }

  ghost predicate Holds(x: Index, inOld: bool, i: nat, e: Entry) {
    e in At(x, inOld, i)
  }

  ghost predicate Empty(table: seq<Bucket>) {
    forall i :: 0 <= i < |table| ==> table[i] == []
  }

  /** Between expansions the old table is empty. */
  ghost predicate Drained(x: Index) {
    x.expanding || Empty(x.old_)
  }

  /** The index stands for the map m: every entry of m is in the bucket picked for
      its key, once, and nothing else is in any bucket. */
  ghost predicate Indexes(x: Index, m: map<Key, Entry>) {
    Shape(x) && Sound(x, m) && Complete(x, m) && NoDuplicates(x) && Drained(x)
  }

  ghost predicate Sound(x: Index, m: map<Key, Entry>)
    requires x.power > 0
  {
    forall o, i: nat, e :: Holds(x, o, i, e) ==>
      o == InOld(x, e.key) && i == Place(x, e.key) && e.key in m && m[e.key] == e
  }

  ghost predicate Complete(x: Index, m: map<Key, Entry>)
    requires x.power > 0
  {
    forall k :: k in m ==> m[k].key == k && Holds(x, InOld(x, k), Place(x, k), m[k])
  }

  ghost predicate NoDuplicates(x: Index) {
    forall o, i: nat :: Distinct(At(x, o, i))
  }

  /** Searching the picked bucket decides membership in the map. */
  lemma PickedDecides(x: Index, m: map<Key, Entry>, k: Key)
    requires Indexes(x, m)
    ensures var b := Picked(x, k); var i := IndexOf(b, k);
            if k in m then i < |b| && b[i] == m[k] else i == |b|
  {
    var b := Picked(x, k);
    var i := IndexOf(b, k);
    assert i < |b| ==> Holds(x, InOld(x, k), Place(x, k), b[i]);
    assert k in m ==> Holds(x, InOld(x, k), Place(x, k), m[k]);
  }

  /** An index stands for one map only. */
  lemma IndexesOne(x: Index, m: map<Key, Entry>, m': map<Key, Entry>)
    requires Indexes(x, m) && Indexes(x, m')
    ensures m == m'
  {
    forall k ensures k in m <==> k in m' {
      PickedDecides(x, m, k);
      PickedDecides(x, m', k);
    }
    forall k | k in m ensures m[k] == m'[k] {
      PickedDecides(x, m, k);
      PickedDecides(x, m', k);
    }
  }

  /** The index with the bucket picked for k replaced. */
  ghost function Put(x: Index, k: Key, b: Bucket): Index
    requires Shape(x)
  {
    if InOld(x, k) then x.(old_ := x.old_[Place(x, k) := b])
    else x.(primary := x.primary[Place(x, k) := b])
  }

  lemma PutAt(x: Index, k: Key, b: Bucket, o: bool, i: nat)
    requires Shape(x)
    ensures Shape(Put(x, k, b))
    ensures At(Put(x, k, b), o, i) == if o == InOld(x, k) && i == Place(x, k) then b else At(x, o, i)
  {
  }

  lemma PutDistinct(x: Index, k: Key, b: Bucket)
    requires Shape(x) && NoDuplicates(x) && Distinct(b)
    ensures NoDuplicates(Put(x, k, b))
  {
    forall o, i: nat ensures Distinct(At(Put(x, k, b), o, i)) {
      PutAt(x, k, b, o, i);
    }
  }

  lemma AddSound(x: Index, m: map<Key, Entry>, e: Entry, b: Bucket)
    requires Shape(x) && Sound(x, m) && e.key !in m && b == [e] + Picked(x, e.key)
    ensures Sound(Put(x, e.key, b), m[e.key := e])
  {
    var x' := Put(x, e.key, b);
    forall o, i: nat, y | Holds(x', o, i, y)
      ensures o == InOld(x', y.key) && i == Place(x', y.key) && y.key in m[e.key := e] && m[e.key := e][y.key] == y
    {
      PutAt(x, e.key, b, o, i);
      if o != InOld(x, e.key) || i != Place(x, e.key) || y != e {
        assert Holds(x, o, i, y);
      }
    }
  }

  lemma AddComplete(x: Index, m: map<Key, Entry>, e: Entry, b: Bucket)
    requires Shape(x) && Complete(x, m) && b == [e] + Picked(x, e.key)
    ensures Complete(Put(x, e.key, b), m[e.key := e])
  {
    var x' := Put(x, e.key, b);
    forall j | j in m[e.key := e]
      ensures m[e.key := e][j].key == j && Holds(x', InOld(x', j), Place(x', j), m[e.key := e][j])
    {
      PutAt(x, e.key, b, InOld(x, j), Place(x, j));
      assert j != e.key ==> Holds(x, InOld(x, j), Place(x, j), m[j]);
    }
  }

  lemma InsertKeeps(x: Index, m: map<Key, Entry>, e: Entry)
    requires Indexes(x, m) && e.key !in m
    ensures Indexes(Put(x, e.key, [e] + Picked(x, e.key)), m[e.key := e])
  {
    var b := [e] + Picked(x, e.key);
    PickedDecides(x, m, e.key);
    assert Distinct(b) by {
      assert Distinct(Picked(x, e.key));
    }
    PutAt(x, e.key, b, false, 0);
    PutDistinct(x, e.key, b);
    AddSound(x, m, e, b);
    AddComplete(x, m, e, b);
  }

  lemma DropSound(x: Index, m: map<Key, Entry>, k: Key, b: Bucket)
    requires Shape(x) && Sound(x, m)
    requires forall e :: e in b ==> e in Picked(x, k) && e.key != k
    ensures Sound(Put(x, k, b), m - {k})
  {
    var x' := Put(x, k, b);
    forall o, i: nat, y | Holds(x', o, i, y)
      ensures o == InOld(x', y.key) && i == Place(x', y.key) && y.key in m - {k} && (m - {k})[y.key] == y
    {
      PutAt(x, k, b, o, i);
      assert Holds(x, o, i, y);
    }
  }

  lemma DropComplete(x: Index, m: map<Key, Entry>, k: Key, b: Bucket)
    requires Shape(x) && Complete(x, m)
    requires forall e :: e in Picked(x, k) && e.key != k ==> e in b
    ensures Complete(Put(x, k, b), m - {k})
  {
    var x' := Put(x, k, b);
    forall j | j in m - {k}
      ensures (m - {k})[j].key == j && Holds(x', InOld(x', j), Place(x', j), (m - {k})[j])
    {
      PutAt(x, k, b, InOld(x, j), Place(x, j));
      assert Holds(x, InOld(x, j), Place(x, j), m[j]);
    }
  }

  lemma DeleteKeeps(x: Index, m: map<Key, Entry>, k: Key)
    requires Indexes(x, m) && k in m
    ensures IndexOf(Picked(x, k), k) < |Picked(x, k)|
    ensures Indexes(Put(x, k, Without(Picked(x, k), IndexOf(Picked(x, k), k))), m - {k})
  {
    PickedDecides(x, m, k);
    var was := Picked(x, k);
    WithoutMembers(was, IndexOf(was, k));
    var b := Without(was, IndexOf(was, k));
    PutAt(x, k, b, false, 0);
    PutDistinct(x, k, b);
    DropSound(x, m, k, b);
    DropComplete(x, m, k, b);
  }

  /** The index right after a larger table was put in. */
  ghost function Expanded(x: Index): Index {
    Index(seq(HashSize(x.power + 1), _ => []), x.primary, x.power + 1, true, 0, x.slot)
  }

  lemma ExpandedAt(x: Index, o: bool, i: nat)
    requires Shape(x) && !x.expanding
    ensures Shape(Expanded(x))
    ensures At(Expanded(x), o, i) == if o then At(x, false, i) else []
  {
    assert HashSize(x.power + 1) == 2 * HashSize(x.power);
  }

  lemma ExpandKeeps(x: Index, m: map<Key, Entry>)
    requires Indexes(x, m) && !x.expanding
    ensures Indexes(Expanded(x), m)
  {
    var x' := Expanded(x);
    ExpandedAt(x, false, 0);
    forall o, i: nat ensures Distinct(At(x', o, i)) {
      ExpandedAt(x, o, i);
    }
    forall o, i: nat, y | Holds(x', o, i, y)
      ensures o == InOld(x', y.key) && i == Place(x', y.key) && y.key in m && m[y.key] == y
    {
      ExpandedAt(x, o, i);
      assert Holds(x, false, i, y);
    }
    forall j | j in m ensures Holds(x', InOld(x', j), Place(x', j), m[j]) {
      assert Holds(x, InOld(x, j), Place(x, j), m[j]);
      ExpandedAt(x, true, Place(x, j));
    }
  }

  // ---------- migration ----------

  /** Put one entry at the head of its bucket in the new table. */
  ghost function MoveOne(primary: seq<Bucket>, e: Entry, power: nat, slot: (Key, nat) -> nat): seq<Bucket>
    requires |primary| == HashSize(power) && InRange(slot)
  {
    var i := slot(e.key, power);
    primary[i := [e] + primary[i]]
  }

  /** Put a whole bucket there, entry by entry. */
  ghost function MoveAll(primary: seq<Bucket>, b: Bucket, power: nat, slot: (Key, nat) -> nat): (r: seq<Bucket>)
    requires |primary| == HashSize(power) && InRange(slot)
    ensures |r| == |primary|
  {
    if b == [] then primary else MoveOne(MoveAll(primary, b[..|b|-1], power, slot), b[|b|-1], power, slot)
  }

  lemma {:induction false} MoveAllMembers(primary: seq<Bucket>, b: Bucket, power: nat, slot: (Key, nat) -> nat, i: nat)
    requires |primary| == HashSize(power) && i < |primary| && InRange(slot)
    ensures forall e :: e in MoveAll(primary, b, power, slot)[i] <==>
                        e in primary[i] || (e in b && slot(e.key, power) == i)
  {
    if b != [] {
      var n := |b| - 1;
      MoveAllMembers(primary, b[..n], power, slot, i);
      assert b == b[..n] + [b[n]];
    }
  }

  lemma {:induction false} MoveAllDistinct(primary: seq<Bucket>, b: Bucket, power: nat, slot: (Key, nat) -> nat, i: nat)
    requires |primary| == HashSize(power) && i < |primary| && InRange(slot)
    requires Distinct(primary[i]) && Distinct(b)
    requires forall e, y :: e in b && y in primary[i] ==> e.key != y.key
    ensures Distinct(MoveAll(primary, b, power, slot)[i])
  {
    if b != [] {
      var n := |b| - 1;
      MoveAllDistinct(primary, b[..n], power, slot, i);
      MoveAllMembers(primary, b[..n], power, slot, i);
      var moved := MoveAll(primary, b[..n], power, slot)[i];
      forall j | 0 <= j < |moved| ensures moved[j].key != b[n].key {
        assert moved[j] in moved;
      }
    }
  }

  /** The index after bucket cursor was moved; the last move ends the expansion. */
  ghost function Migrated(x: Index): Index
    requires Shape(x) && x.expanding
  {
    x.(primary := MoveAll(x.primary, x.old_[x.cursor], x.power, x.slot),
       old_ := x.old_[x.cursor := []],
       cursor := x.cursor + 1,
       expanding := x.cursor + 1 != |x.old_|)
  }

  /** What the buckets hold afterwards. */
  lemma MigratedHolds(x: Index, m: map<Key, Entry>, o: bool, i: nat, y: Entry)
    requires Indexes(x, m) && x.expanding
    ensures Holds(Migrated(x), o, i, y) <==>
            if o then Holds(x, true, i, y) && i != x.cursor
            else Holds(x, false, i, y) || (Holds(x, true, x.cursor, y) && i == x.slot(y.key, x.power))
  {
    if o {
      if x.cursor + 1 == |x.old_| && Holds(x, true, i, y) {
        assert InOld(x, y.key) && i == Place(x, y.key);
      }
    } else if i < |x.primary| {
      MoveAllMembers(x.primary, x.old_[x.cursor], x.power, x.slot, i);
    }
  }

  lemma MigrateDistinct(x: Index, m: map<Key, Entry>)
    requires Indexes(x, m) && x.expanding
    ensures NoDuplicates(Migrated(x))
  {
    var x' := Migrated(x);
    forall o, i: nat ensures Distinct(At(x', o, i)) {
      assert Distinct(At(x, o, i));
      if !o && i < |x.primary| {
        var b := At(x, true, x.cursor);
        forall e, y | e in b && y in x.primary[i] ensures e.key != y.key {
          assert Holds(x, true, x.cursor, e) && Holds(x, false, i, y);
        }
        assert Distinct(b);
        MoveAllDistinct(x.primary, b, x.power, x.slot, i);
      }
    }
  }

  lemma MigrateSound(x: Index, m: map<Key, Entry>)
    requires Indexes(x, m) && x.expanding
    ensures Sound(Migrated(x), m)
  {
    var x' := Migrated(x);
    forall o, i: nat, y | Holds(x', o, i, y)
      ensures o == InOld(x', y.key) && i == Place(x', y.key) && y.key in m && m[y.key] == y
    {
      MigratedHolds(x, m, o, i, y);
      if !Holds(x, o, i, y) {
        assert Holds(x, true, x.cursor, y);
      }
    }
  }

  lemma MigrateComplete(x: Index, m: map<Key, Entry>)
    requires Indexes(x, m) && x.expanding
    ensures Complete(Migrated(x), m)
  {
    var x' := Migrated(x);
    forall j | j in m ensures m[j].key == j && Holds(x', InOld(x', j), Place(x', j), m[j]) {
      MigratedHas(x, m, j);
    }
  }

  lemma MigratedHas(x: Index, m: map<Key, Entry>, j: Key)
    requires Indexes(x, m) && x.expanding && j in m
    ensures m[j].key == j && Holds(Migrated(x), InOld(Migrated(x), j), Place(Migrated(x), j), m[j])
  {
    var x' := Migrated(x);
    assert Holds(x, InOld(x, j), Place(x, j), m[j]);
    MigratedPlace(x, j);
    MigratedHolds(x, m, InOld(x', j), Place(x', j), m[j]);
  }

  /** Only keys of the bucket that moves are looked for elsewhere afterwards. */
  lemma MigratedPlace(x: Index, j: Key)
    requires Shape(x) && x.expanding
    ensures var x' := Migrated(x);
            if InOld(x, j) && Place(x, j) == x.cursor then !InOld(x', j) && Place(x', j) == x.slot(j, x.power)
            else InOld(x', j) == InOld(x, j) && Place(x', j) == Place(x, j)
  {
  }

  lemma MigrateKeeps(x: Index, m: map<Key, Entry>)
    requires Indexes(x, m) && x.expanding
    ensures Indexes(Migrated(x), m)
  {
    MigrateDistinct(x, m);
    MigrateSound(x, m);
    MigrateComplete(x, m);
    MigratedDrained(x, m);
  }

  /** Everything before the cursor is gone from the old table. */
  lemma OldDrained(x: Index, m: map<Key, Entry>, i: nat)
    requires Indexes(x, m) && x.expanding && i < x.cursor
    ensures x.old_[i] == []
  {
    if x.old_[i] != [] {
      assert Holds(x, true, i, x.old_[i][0]);
    }
  }

  /** When the last bucket has been moved the old table is empty. */
  lemma MigratedDrained(x: Index, m: map<Key, Entry>)
    requires Indexes(x, m) && x.expanding
    ensures !Migrated(x).expanding ==> Empty(Migrated(x).old_)
  {
    forall i: nat | i < x.cursor ensures x.old_[i] == [] {
      OldDrained(x, m, i);
    }
  }

  // ---------- the code ----------

  /** The loop that assoc_find and assoc_delete share. */
  method Scan(bucket: Bucket, k: Key) returns (depth: nat)
    ensures depth == IndexOf(bucket, k)
  {
    depth := 0;
    while depth < |bucket| && bucket[depth].key != k
      invariant depth <= |bucket|
      invariant forall j :: 0 <= j < depth ==> bucket[j].key != k
    {
      depth := depth + 1;
    }
  }

  class Table {
    var primary: array<Bucket>
    var old_: array<Bucket>
    var nhashItem: nat
    var hashPower: nat
    var expanding: bool
    var expandBucket: nat
    const fixedPower: bool
    const slot: (Key, nat) -> nat
    ghost var entries: map<Key, Entry>

    ghost function Value(): Index
      reads this, primary, old_
    {
      Index(primary[..], old_[..], hashPower, expanding, expandBucket, slot)
    }

    ghost predicate Valid()
      reads this, primary, old_
    {
      primary != old_ && Indexes(Value(), entries) && nhashItem == |entries|
    }

    /** assoc_init; power is settings.hash_power, 0 for the default. */
    constructor (power: nat)
      ensures Valid() && fresh(primary) && fresh(old_)
      ensures entries == map[] && !expanding && fixedPower == (power > 0)
      ensures forall k, p: nat :: slot(k, p) == Masked(Hash.OfKey(k), p)
      ensures hashPower == if power > 0 then power else 16
    {
      var p := if power > 0 then power else 16;
      hashPower, fixedPower, slot := p, power > 0, (k, p) => Masked(Hash.OfKey(k), p);
      nhashItem, expanding, expandBucket := 0, false, 0;
      primary := new Bucket[HashSize(p)](_ => []);
      old_ := new Bucket[0](_ => []);
      entries := map[];
      new;
      assert forall o, i: nat :: At(Value(), o, i) == [];
    }

    /** assoc_get_bucket */
    method GetBucket(k: Key) returns (inOld: bool, i: nat, bucket: Bucket)
      requires Shape(Value())
      ensures inOld == InOld(Value(), k) && i == Place(Value(), k) && bucket == Picked(Value(), k)
    {
      var oldbucket := slot(k, hashPower - 1);
      var curbucket := slot(k, hashPower);
      if expanding && oldbucket >= expandBucket {
        return true, oldbucket, old_[oldbucket];
      }
      return false, curbucket, primary[curbucket];
    }

    /** assoc_find */
    method Find(k: Key) returns (r: Option<Entry>)
      requires Valid()
      ensures r == if k in entries then Some(entries[k]) else None
    {
      PickedDecides(Value(), entries, k);
      var inOld, i, bucket := GetBucket(k);
      var depth := Scan(bucket, k);
      return if depth < |bucket| then Some(bucket[depth]) else None;
    }

    /** Relink the bucket picked for k. */
    method SetBucket(k: Key, inOld: bool, i: nat, b: Bucket)
      requires Shape(Value()) && primary != old_
      requires inOld == InOld(Value(), k) && i == Place(Value(), k)
      modifies primary, old_
      ensures Value() == Put(old(Value()), k, b)
    {
      if inOld {
        old_[i] := b;
        assert primary[..] == old(primary[..]);
      } else {
        primary[i] := b;
        assert old_[..] == old(old_[..]);
      }
    }

    /** assoc_expand_needed */
    predicate ExpandNeeded()
      reads this
    {
      !fixedPower && !expanding && nhashItem > HashSize(hashPower) * 3 / 2
    }

    /** The body of assoc_expand once the new table is there. */
    method SwapTables(table: array<Bucket>)
      requires table.Length == HashSize(hashPower + 1)
      requires forall i :: 0 <= i < table.Length ==> table[i] == []
      modifies this`primary, this`old_, this`hashPower, this`expanding, this`expandBucket
      ensures primary == table && old_ == old(primary)
      ensures Value() == Expanded(old(Value()))
    {
      old_ := primary;
      primary := table;
      hashPower := hashPower + 1;
      expanding := true;
      expandBucket := 0;
      assert primary[..] == seq(HashSize(hashPower), _ => []);
    }

    /** assoc_expand: on failure, carry on with the present table. */
    method Expand(allocOk: bool)
      requires Valid() && !expanding
      modifies this`primary, this`old_, this`hashPower, this`expanding, this`expandBucket
      ensures Valid()
      ensures Value() == if allocOk then Expanded(old(Value())) else old(Value())
      ensures if allocOk then fresh(primary) && old_ == old(primary) else unchanged(this)
    {
      if allocOk {
        Enlarge();
      }
    }

    /** A table of twice the size, to be filled bucket by bucket. */
    method Enlarge()
      requires Valid() && !expanding
      modifies this`primary, this`old_, this`hashPower, this`expanding, this`expandBucket
      ensures Valid() && Value() == Expanded(old(Value())) && fresh(primary) && old_ == old(primary)
    {
      ExpandKeeps(Value(), entries);
      ghost var x := Value();
      var table := new Bucket[HashSize(hashPower + 1)](_ => []);
      assert Value() == x;
      SwapTables(table);
    }

    /** The new entry at the head of its bucket. */
    method Link(e: Entry)
      requires Valid() && e.key !in entries
      modifies primary, old_
      ensures Indexes(Value(), entries[e.key := e])
    {
      InsertKeeps(Value(), entries, e);
      var inOld, i, bucket := GetBucket(e.key);
      SetBucket(e.key, inOld, i, [e] + bucket);
    }

    /** The same, counted. */
    method Add(e: Entry)
      requires Valid() && e.key !in entries
      modifies this`entries, this`nhashItem, primary, old_
      ensures Valid() && entries == old(entries)[e.key := e]
    {
      Link(e);
      ghost var x := Value();
      entries := entries[e.key := e];
      nhashItem := nhashItem + 1;
      assert Value() == x;
    }

    /** assoc_insert; allocOk says whether a larger table can be had if one is
        wanted.  An expansion under way is left alone. */
    method Insert(e: Entry, allocOk: bool)
      requires Valid() && e.key !in entries
      modifies this, primary, old_
      ensures Valid() && entries == old(entries)[e.key := e]
      ensures primary == old(primary) || fresh(primary)
      ensures old_ == old(old_) || old_ == old(primary)
      ensures old(expanding) ==> expanding && hashPower == old(hashPower) && expandBucket == old(expandBucket)
      ensures Starts(old(Progress()), Progress(), |entries|, old(primary.Length), allocOk && !fixedPower)
    {
      Add(e);
      if ExpandNeeded() {
        Expand(allocOk);
      }
    }

    /** The entry of k out of its bucket. */
    method Unlink(k: Key)
      requires Valid() && k in entries
      modifies primary, old_
      ensures Indexes(Value(), entries - {k})
    {
      DeleteKeeps(Value(), entries, k);
      var inOld, i, bucket := GetBucket(k);
      var at := Scan(bucket, k);
      SetBucket(k, inOld, i, Without(bucket, at));
    }

    /** assoc_delete */
    method Delete(k: Key)
      requires Valid() && k in entries
      modifies this`entries, this`nhashItem, primary, old_
      ensures Valid() && entries == old(entries) - {k}
    {
      Unlink(k);
      ghost var x := Value();
      OneLess(entries, k);
      nhashItem := nhashItem - 1;
      entries := entries - {k};
      assert Value() == x;
    }

    /** Relink the first entry of the bucket at the cursor. */
    method MoveEntry()
      requires Shape(Value()) && expanding && primary != old_ && old_[expandBucket] != []
      modifies primary, old_
      ensures var b, x := old(old_[expandBucket]), old(Value());
              && old_[..] == x.old_[x.cursor := b[1..]]
              && primary[..] == x.primary[x.slot(b[0].key, x.power) := [b[0]] + x.primary[x.slot(b[0].key, x.power)]]
    {
      var it := old_[expandBucket][0];
      var newBucket := slot(it.key, hashPower);
      old_[expandBucket] := old_[expandBucket][1..];
      primary[newBucket] := [it] + primary[newBucket];
    }

    /** Move the bucket at the cursor, entry by entry, and step the cursor. */
    method DrainBucket()
      requires Shape(Value()) && expanding && primary != old_
      modifies this`expanding, this`expandBucket, primary, old_
      ensures Value() == Migrated(old(Value()))
      ensures expandBucket == old(expandBucket) + 1 && (expanding <==> expandBucket != HashSize(hashPower - 1))
    {
      ghost var x := Value();
      ghost var b := old_[expandBucket];
      ghost var j := 0;
      assert b[..0] == [] && b[0..] == b;
      while old_[expandBucket] != []
        invariant expandBucket == x.cursor && expanding
        invariant 0 <= j <= |b|
        invariant old_[..] == x.old_[x.cursor := b[j..]]
        invariant primary[..] == MoveAll(x.primary, b[..j], x.power, x.slot)
        decreases |b| - j
      {
        assert old_[expandBucket] == old_[..][expandBucket] == b[j..];
        assert b[..j+1][..j] == b[..j];
        MoveEntry();
        j := j + 1;
      }
      assert old_[expandBucket] == old_[..][expandBucket] == b[j..];
      assert b[..j] == b;
      expandBucket := expandBucket + 1;
      if expandBucket == HashSize(hashPower - 1) {
        expanding := false;
      }
    }

    /** One turn of the maintenance loop; the last one leaves the old table empty. */
    method MoveBucket()
      requires Valid() && expanding
      modifies this`expanding, this`expandBucket, primary, old_
      ensures Valid() && Value() == Migrated(old(Value()))
      ensures expandBucket == old(expandBucket) + 1 && (expanding <==> expandBucket != HashSize(hashPower - 1))
    {
      MigrateKeeps(Value(), entries);
      DrainBucket();
    }

    /** How far an expansion is. */
    function Progress(): Phase
      reads this
    {
      Phase(expanding, hashPower, expandBucket)
    }

    /** One turn of the maintenance thread. */
    method Maintain()
      requires Valid() && expanding
      modifies this`expanding, this`expandBucket, primary, old_
      ensures Valid() && Advances(old(Progress()), Progress(), MoveOp)
    {
      InsideOld(Value());
      ghost var t := Progress();
      MoveBucket();
      Moved(t, Progress());
    }

    /** The maintenance thread left alone: as many moves as the old table has
        buckets to go, and then the expansion is over. */
    method MoveAllBuckets() returns (moves: nat)
      requires Valid()
      modifies this`expanding, this`expandBucket, primary, old_
      ensures Valid() && !expanding && Empty(old_[..])
      ensures moves == if old(expanding) then old(ToGo(Progress())) else 0
    {
      moves := 0;
      InsideOld(Value());
      while expanding
        invariant Valid()
        invariant if old(expanding) then moves + ToGo(Progress()) == old(ToGo(Progress())) else moves == 0
        invariant old(expanding) ==> (expanding <==> ToGo(Progress()) > 0) && ToGo(Progress()) >= 0
        decreases expanding, ToGo(Progress())
      {
        Maintain();
        moves := moves + 1;
      }
    }

    /** One operation or move. */
    method ExecuteOne(op: Op) returns (reply: Option<Entry>)
      requires Valid() && LegalOp(entries, op)
      modifies this, primary, old_
      ensures Valid() && entries == Apply(old(entries), op) && reply == Reply(old(entries), op)
      ensures primary == old(primary) || fresh(primary)
      ensures old_ == old(old_) || old_ == old(primary)
      ensures Advances(old(Progress()), Progress(), op)
    {
      reply := None;
      match op {
        case FindOp(k) =>
          InsideOld(Value());
          reply := Find(k);
        case MoveOp =>
          if expanding {
            Maintain();
          }
        case _ => Change(op);
      }
    }

    /** An insertion or a deletion. */
    method Change(op: Op)
      requires Valid() && LegalOp(entries, op) && (op.InsertOp? || op.DeleteOp?)
      modifies this, primary, old_
      ensures Valid() && entries == Apply(old(entries), op)
      ensures primary == old(primary) || fresh(primary)
      ensures old_ == old(old_) || old_ == old(primary)
      ensures Advances(old(Progress()), Progress(), op)
    {
      InsideOld(Value());
      if op.InsertOp? {
        Insert(op.e, op.allocOk);
      } else {
        Delete(op.k);
      }
    }

    /** Any interleaving of operations and moves answers as the map does.  An expansion
        under way goes on through whatever operations there are for exactly as many
        moves as the old table has buckets left, and with the last of them it ends and
        leaves the old table empty. */
    method Execute(ops: seq<Op>) returns (replies: seq<Option<Entry>>)
      requires Valid() && Legal(entries, ops)
      modifies this, primary, old_
      ensures Valid() && entries == EntriesAfter(old(entries), ops)
      ensures replies == Replies(old(entries), ops)
      ensures Ran(old(Progress()), Progress(), ops) && (!expanding ==> Empty(old_[..]))
      decreases |ops|
    {
      if ops == [] {
        return [];
      }
      InsideOld(Value());
      ghost var t := Progress();
      var reply := ExecuteOne(ops[0]);
      ghost var t1 := Progress();
      var rest := Execute(ops[1..]);
      RanFirst(t, t1, Progress(), ops);
      return [reply] + rest;
    }
  }

  // ---------- how an expansion goes on ----------

  datatype Phase = Phase(expanding: bool, power: nat, cursor: nat)

  /** The buckets that the old table has left. */
  function ToGo(t: Phase): int {
    if t.power == 0 then 0 else HashSize(t.power - 1) - t.cursor
  }

  lemma InsideOld(x: Index)
    requires Shape(x)
    ensures x.expanding ==> ToGo(Phase(true, x.power, x.cursor)) > 0
  {
  }

  /** An insertion starts an expansion if it may, exactly when there are then more than one
      and a half entries to a bucket. */
  predicate Starts(t: Phase, t': Phase, entries: nat, buckets: nat, may: bool) {
    !t.expanding ==>
      && (t'.expanding <==> may && 2 * entries > 3 * buckets)
      && t'.power == t.power + (if t'.expanding then 1 else 0)
  }

  /** What one operation or move does to an expansion under way. */
  predicate Advances(t: Phase, t': Phase, op: Op) {
    t.expanding ==>
      && t'.power == t.power && t'.cursor == t.cursor + (if op.MoveOp? then 1 else 0)
      && (t'.expanding <==> ToGo(t') > 0)
  }

  lemma Moved(t: Phase, t': Phase)
    requires t.expanding && ToGo(t) > 0 && t.power > 0 && t'.power == t.power && t'.cursor == t.cursor + 1
    requires t'.expanding <==> t'.cursor != HashSize(t'.power - 1)
    ensures Advances(t, t', MoveOp)
  {
  }

  /** What a run does: fewer moves than there are buckets left leave it under way, that
      much further on; and as many, the last one just made, end it. */
  predicate Ran(t: Phase, t': Phase, ops: seq<Op>) {
    && (ops == [] ==> t' == t)
    && (t.expanding && Moves(ops) < ToGo(t) ==>
          t'.expanding && t'.power == t.power && t'.cursor == t.cursor + Moves(ops))
    && (t.expanding && Moves(ops) == ToGo(t) && ops != [] && ops[|ops|-1].MoveOp? ==> !t'.expanding)
  }

  lemma RanFirst(t: Phase, t1: Phase, t': Phase, ops: seq<Op>)
    requires ops != [] && Advances(t, t1, ops[0]) && Ran(t1, t', ops[1..]) && (t.expanding ==> ToGo(t) > 0)
    ensures Ran(t, t', ops)
  {
    MovesFirst(ops);
    if |ops| > 1 {
      MovesFirst(ops[1..]);
    }
  }

  lemma OneLess(m: map<Key, Entry>, k: Key)
    requires k in m
    ensures |m - {k}| == |m| - 1
  {
    assert (m - {k}).Keys == m.Keys - {k};
  }

  // ---------- whole runs ----------

  datatype Op = FindOp(k: Key) | InsertOp(e: Entry, allocOk: bool) | DeleteOp(k: Key) | MoveOp

  function Apply(m: map<Key, Entry>, op: Op): map<Key, Entry> {
    match op
    case InsertOp(e, _) => m[e.key := e]
    case DeleteOp(k) => m - {k}
    case _ => m
  }

  /** How many bucket moves there are among the operations. */
  function Moves(ops: seq<Op>): nat {
    if ops == [] then 0 else Moves(ops[1..]) + if ops[0].MoveOp? then 1 else 0
  }

  lemma {:induction false} MovesFirst(ops: seq<Op>)
    requires ops != []
    ensures |ops| > 1 ==> ops[1..][|ops[1..]|-1] == ops[|ops|-1]
    ensures ops[|ops|-1].MoveOp? ==> Moves(ops) > 0
    decreases |ops|
  {
    if |ops| > 1 {
      MovesFirst(ops[1..]);
    }
  }

  predicate LegalOp(m: map<Key, Entry>, op: Op) {
    (op.InsertOp? ==> op.e.key !in m) && (op.DeleteOp? ==> op.k in m)
  }

  /** Callers insert only absent keys and delete only present ones. */
  predicate Legal(m: map<Key, Entry>, ops: seq<Op>)
    decreases |ops|
  {
    ops == [] || (LegalOp(m, ops[0]) && Legal(Apply(m, ops[0]), ops[1..]))
  }

  function EntriesAfter(m: map<Key, Entry>, ops: seq<Op>): map<Key, Entry>
    decreases |ops|
  {
    if ops == [] then m else EntriesAfter(Apply(m, ops[0]), ops[1..])
  }

  function Replies(m: map<Key, Entry>, ops: seq<Op>): seq<Option<Entry>>
    decreases |ops|
  {
    if ops == [] then [] else [Reply(m, ops[0])] + Replies(Apply(m, ops[0]), ops[1..])
  }

  function Reply(m: map<Key, Entry>, op: Op): Option<Entry> {
    if op.FindOp? && op.k in m then Some(m[op.k]) else None
  }
}
