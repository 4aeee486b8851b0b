/** The sorted, length-prefixed key lists of mc_sqltrig.c.

    A list is a byte buffer holding, for each key, one length byte followed by
    the key's bytes.  The abstract value is a strictly sorted sequence of keys,
    and SortedUnique shows that such a sequence is determined by its set of
    members; so the buffers refine finite sets of keys. */
module Keylist {
  import opened Bytes

  // ---------- the order ----------

  /** memcmp on two buffers of the same length. */
  function MemCmp(a: Bytes, b: Bytes): (r: int)
    requires |a| == |b|
    ensures r == 0 <==> a == b
  {
    if a == [] then 0
    else if a[0] != b[0] then a[0] - b[0]
    else
      assert a == [a[0]] + a[1..] && b == [b[0]] + b[1..];
      MemCmp(a[1..], b[1..])
  }

  /** trig_compare_key: positive when key1 stands before key2 in a list. */
  function CompareKey(key1: Key, key2: Key): (r: int)
    ensures r == 0 <==> key1 == key2
  {
    if |key2| - |key1| != 0 then |key2| - |key1| else MemCmp(key1, key2)
  }

  predicate Before(a: Key, b: Key) {
    CompareKey(a, b) > 0
  }

  /** What the order is, without memcmp: shorter keys first, and among keys of
      one length the one with the larger byte at the first difference. */
  ghost predicate ShorterThenDescending(a: Key, b: Key) {
    || |a| < |b|
    || (|a| == |b| && exists i :: 0 <= i < |a| && a[..i] == b[..i] && a[i] > b[i])
  }

  lemma {:induction false} MemCmpFirstDifference(a: Bytes, b: Bytes, i: nat)
    requires |a| == |b| && i < |a|
    requires a[..i] == b[..i] && a[i] != b[i]
    ensures MemCmp(a, b) == a[i] as int - b[i] as int
  {
    if i > 0 {
      assert a[0] == a[..i][0] == b[..i][0] == b[0];
      assert a[1..][..i-1] == a[..i][1..] == b[..i][1..] == b[1..][..i-1];
      MemCmpFirstDifference(a[1..], b[1..], i - 1);
    }
  }

  lemma {:induction false} FirstDifference(a: Bytes, b: Bytes) returns (i: nat)
    requires |a| == |b| && a != b
    ensures i < |a| && a[..i] == b[..i] && a[i] != b[i]
  {
    if a[0] != b[0] {
      i := 0;
    } else {
      assert a == [a[0]] + a[1..] && b == [b[0]] + b[1..];
      i := FirstDifference(a[1..], b[1..]);
      assert a[..i+1] == [a[0]] + a[1..][..i] && b[..i+1] == [b[0]] + b[1..][..i];
      i := i + 1;
    }
  }

  lemma BeforeMeaning(a: Key, b: Key)
    ensures Before(a, b) <==> ShorterThenDescending(a, b)
  {
    if |a| == |b| && a != b {
      var i := FirstDifference(a, b);
      MemCmpFirstDifference(a, b, i);
      if ShorterThenDescending(a, b) {
        var j :| 0 <= j < |a| && a[..j] == b[..j] && a[j] > b[j];
        MemCmpFirstDifference(a, b, j);
      }
    }
  }

  lemma {:induction false} MemCmpFlips(a: Bytes, b: Bytes)
    requires |a| == |b|
    ensures MemCmp(a, b) == -MemCmp(b, a)
  {
    if a != [] && a[0] == b[0] {
      MemCmpFlips(a[1..], b[1..]);
    }
  }

  lemma {:induction false} MemCmpTransitive(a: Bytes, b: Bytes, c: Bytes)
    requires |a| == |b| == |c|
    requires MemCmp(a, b) > 0 && MemCmp(b, c) > 0
    ensures MemCmp(a, c) > 0
  {
    if a != [] && a[0] == b[0] == c[0] {
      MemCmpTransitive(a[1..], b[1..], c[1..]);
    }
  }

  /** The comparison is a strict total order. */
  lemma BeforeIsStrictTotalOrder(a: Key, b: Key, c: Key)
    ensures !Before(a, a)
    ensures Before(a, b) ==> !Before(b, a)
    ensures a == b || Before(a, b) || Before(b, a)
    ensures Before(a, b) && Before(b, c) ==> Before(a, c)
  {
    if |a| == |b| {
      MemCmpFlips(a, b);
      if |b| == |c| && MemCmp(a, b) > 0 && MemCmp(b, c) > 0 {
        MemCmpTransitive(a, b, c);
      }
    }
  }

  // ---------- sorted sequences as sets ----------

  ghost predicate Sorted(ks: seq<Key>) {
    forall i, j :: 0 <= i < j < |ks| ==> Before(ks[i], ks[j])
  }

  lemma SortedDistinct(ks: seq<Key>)
    requires Sorted(ks)
    ensures forall i, j :: 0 <= i < j < |ks| ==> ks[i] != ks[j]
  {
    forall i, j | 0 <= i < j < |ks| ensures ks[i] != ks[j] {
      BeforeIsStrictTotalOrder(ks[i], ks[j], ks[j]);
    }
  }

  lemma HeadIsLeast(ks: seq<Key>, x: Key)
    requires Sorted(ks) && x in ks
    ensures x == ks[0] || Before(ks[0], x)
  {
  }

  /** A sorted sequence is determined by its members. */
  lemma {:induction false} SortedUnique(a: seq<Key>, b: seq<Key>)
    requires Sorted(a) && Sorted(b)
    requires forall x :: x in a <==> x in b
    ensures a == b
  {
    assert b != [] ==> b[0] in a;
    if a != [] {
      assert a[0] in b;
      HeadIsLeast(a, b[0]);
      HeadIsLeast(b, a[0]);
      BeforeIsStrictTotalOrder(a[0], b[0], a[0]);
      SortedDistinct(a);
      SortedDistinct(b);
      forall x ensures x in a[1..] <==> x in b[1..] {
        assert x in a <==> x == a[0] || x in a[1..];
        assert x in b <==> x == b[0] || x in b[1..];
      }
      SortedUnique(a[1..], b[1..]);
    }
  }

  /** The list with one more member. */
  function Insert(ks: seq<Key>, k: Key): (r: seq<Key>) {
    if ks == [] then [k]
    else if Before(ks[0], k) then [ks[0]] + Insert(ks[1..], k)
    else if ks[0] == k then ks
    else [k] + ks
  }

  /** The list with one member fewer. */
  function Remove(ks: seq<Key>, k: Key): (r: seq<Key>) {
    if ks == [] then []
    else if ks[0] == k then ks[1..]
    else [ks[0]] + Remove(ks[1..], k)
  }

  lemma {:induction false} InsertMembers(ks: seq<Key>, k: Key)
    ensures forall x :: x in Insert(ks, k) <==> x == k || x in ks
  {
    if ks != [] && Before(ks[0], k) {
      InsertMembers(ks[1..], k);
      assert ks == [ks[0]] + ks[1..];
    }
  }

  lemma {:induction false} InsertSorted(ks: seq<Key>, k: Key)
    requires Sorted(ks)
    ensures Sorted(Insert(ks, k))
  {
    if ks == [] {
    } else if Before(ks[0], k) {
      InsertSorted(ks[1..], k);
      InsertMembers(ks[1..], k);
      ConsSorted(ks[0], Insert(ks[1..], k));
    } else if ks[0] != k {
      BeforeIsStrictTotalOrder(ks[0], k, k);
      forall x | x in ks ensures Before(k, x) {
        HeadIsLeast(ks, x);
        BeforeIsStrictTotalOrder(k, ks[0], x);
      }
      ConsSorted(k, ks);
    }
  }

  lemma ConsSorted(k: Key, ks: seq<Key>)
    requires Sorted(ks) && forall x :: x in ks ==> Before(k, x)
    ensures Sorted([k] + ks)
  {
    var r := [k] + ks;
    forall i, j | 0 <= i < j < |r| ensures Before(r[i], r[j]) {
      assert r[j] == ks[j-1];
      if i > 0 { assert r[i] == ks[i-1]; }
    }
  }

  lemma {:induction false} RemoveMembers(ks: seq<Key>, k: Key)
    requires Sorted(ks)
    ensures Sorted(Remove(ks, k))
    ensures forall x :: x in Remove(ks, k) <==> x != k && x in ks
  {
    if ks != [] {
      SortedDistinct(ks);
      assert ks == [ks[0]] + ks[1..];
      if ks[0] != k {
        RemoveMembers(ks[1..], k);
        ConsSorted(ks[0], Remove(ks[1..], k));
      }
    }
  }

  /** Removing what was added gives back the same list, hence the same bytes. */
  lemma RemoveAfterInsert(ks: seq<Key>, k: Key)
    requires Sorted(ks) && k !in ks
    ensures Remove(Insert(ks, k), k) == ks
    ensures Encode(Remove(Insert(ks, k), k)) == Encode(ks)
  {
    InsertSorted(ks, k);
    InsertMembers(ks, k);
    RemoveMembers(Insert(ks, k), k);
    SortedUnique(Remove(Insert(ks, k), k), ks);
  }

  lemma InsertAfterRemove(ks: seq<Key>, k: Key)
    requires Sorted(ks) && k in ks
    ensures Insert(Remove(ks, k), k) == ks
  {
    RemoveMembers(ks, k);
    InsertSorted(Remove(ks, k), k);
    InsertMembers(Remove(ks, k), k);
    SortedUnique(Insert(Remove(ks, k), k), ks);
  }

  // ---------- the byte encoding ----------

  function Entry(k: Key): (r: Bytes) {
    [|k| as Byte] + k
  }

  function Encode(ks: seq<Key>): (r: Bytes) {
    if ks == [] then [] else Entry(ks[0]) + Encode(ks[1..])
  }

  lemma {:induction false} EncodeConcat(a: seq<Key>, b: seq<Key>)
    ensures Encode(a + b) == Encode(a) + Encode(b)
  {
    if a == [] {
      assert a + b == b;
    } else {
      assert (a + b)[1..] == a[1..] + b;
      EncodeConcat(a[1..], b);
      assert Encode(a + b) == Entry(a[0]) + (Encode(a[1..]) + Encode(b));
    }
  }

  /** The encoding loses nothing. */
  lemma {:induction false} EncodeInjective(a: seq<Key>, b: seq<Key>)
    requires Encode(a) == Encode(b)
    ensures a == b
  {
    if a == [] || b == [] {
      assert a == [] ==> |Encode(a)| == 0;
      assert b == [] ==> |Encode(b)| == 0;
    } else {
      var e := Encode(a);
      assert e[0] == |a[0]| && e[0] == |b[0]|;
      assert e[1..1+|a[0]|] == a[0] && e[1..1+|b[0]|] == b[0];
      assert e[1+|a[0]|..] == Encode(a[1..]) && e[1+|b[0]|..] == Encode(b[1..]);
      EncodeInjective(a[1..], b[1..]);
      assert a == [a[0]] + a[1..] && b == [b[0]] + b[1..];
    }
  }

  /** How the buffer splits around its j-th entry; every cursor step needs it. */
  lemma SplitAt(ks: seq<Key>, j: nat)
    requires j < |ks|
    ensures Encode(ks) == Encode(ks[..j]) + Entry(ks[j]) + Encode(ks[j+1..])
    ensures Encode(ks[..j+1]) == Encode(ks[..j]) + Entry(ks[j])
    ensures |Encode(ks[..j])| < |Encode(ks)|
    ensures var off := |Encode(ks[..j])|;
            Encode(ks)[off] == |ks[j]| && Encode(ks)[off+1..off+1+|ks[j]|] == ks[j]
  {
    EncodeConcat(ks[..j], ks[j..]);
    assert ks == ks[..j] + ks[j..];
    EncodeConcat(ks[..j], [ks[j]]);
    assert ks[..j+1] == ks[..j] + [ks[j]];
    assert Encode([ks[j]]) == Entry(ks[j]) + Encode([]);
    assert ks[j..][1..] == ks[j+1..];
    assert Encode(ks[j..]) == Entry(ks[j]) + Encode(ks[j+1..]);
    EntryAt(Encode(ks[..j]), ks[j], Encode(ks[j+1..]));
  }

  lemma EntryAt(before: Bytes, k: Key, after: Bytes)
    ensures var off, all := |before|, before + Entry(k) + after;
            |all| > off + |k| && all[off] == |k| && all[off+1..off+1+|k|] == k
    ensures before + (Entry(k) + after) == before + Entry(k) + after
  {
  }

  /** The cursor has passed all keys exactly when its offset is the length. */
  lemma AtEnd(ks: seq<Key>, j: nat)
    requires j <= |ks|
    ensures |Encode(ks[..j])| <= |Encode(ks)|
    ensures |Encode(ks[..j])| == |Encode(ks)| <==> j == |ks|
  {
    EncodeConcat(ks[..j], ks[j..]);
    assert ks == ks[..j] + ks[j..];
    assert j < |ks| ==> |Encode(ks[j..])| > 0;
  }

  // ---------- the buffer operations ----------

  /** trig_check_keylist: the early exit never misses a key. */
  method CheckKeylist(list: Bytes, ghost keys: seq<Key>, newKey: Key) returns (found: bool)
    requires Sorted(keys) && list == Encode(keys)
    ensures found <==> newKey in keys
  {
    AtEnd(keys, 0);
    if |list| == 0 {
      return false;
    }
    var off := 0;
    ghost var j := 0;
    while off < |list|
      invariant 0 <= j <= |keys| && off == |Encode(keys[..j])|
      invariant forall x :: x in keys[..j] ==> Before(x, newKey)
      invariant off <= |list| && (j == |keys| <==> off == |list|)
      decreases |keys| - j
    {
      SplitAt(keys, j);
      var len := list[off];
      var key: Key := list[off+1..off+1+len];
      var cmp := CompareKey(key, newKey);
      if cmp == 0 {
        return true;
      } else if cmp < 0 {
        NotAfterLarger(keys, j, newKey);
        return false;
      }
      off := off + 1 + len;
      j := j + 1;
      AtEnd(keys, j);
    }
    assert keys[..j] == keys;
    BeforeIsStrictTotalOrder(newKey, newKey, newKey);
    return false;
  }

  lemma NotAfterLarger(keys: seq<Key>, j: nat, newKey: Key)
    requires Sorted(keys) && j < |keys|
    requires forall x :: x in keys[..j] ==> Before(x, newKey)
    requires CompareKey(keys[j], newKey) < 0
    ensures newKey !in keys
  {
    BeforeIsStrictTotalOrder(keys[j], newKey, newKey);
    BeforeIsStrictTotalOrder(newKey, newKey, newKey);
    forall i | 0 <= i < |keys| ensures keys[i] != newKey {
      if i < j {
        assert keys[i] in keys[..j];
      } else if i > j {
        BeforeIsStrictTotalOrder(newKey, keys[j], keys[i]);
      }
    }
  }

  /** Where a prefix of smaller keys ends, Insert puts the new key there. */
  lemma {:induction false} InsertAt(keys: seq<Key>, j: nat, k: Key)
    requires j <= |keys|
    requires forall x :: x in keys[..j] ==> Before(x, k)
    requires j < |keys| ==> !Before(keys[j], k) && keys[j] != k
    ensures Insert(keys, k) == keys[..j] + [k] + keys[j..]
  {
    if j > 0 {
      assert keys[0] in keys[..j];
      forall x | x in keys[1..][..j-1] ensures Before(x, k) {
        assert x in keys[..j];
      }
      InsertAt(keys[1..], j - 1, k);
    }
  }

  lemma {:induction false} RemoveAt(keys: seq<Key>, j: nat, k: Key)
    requires j < |keys| && keys[j] == k && k !in keys[..j]
    ensures Remove(keys, k) == keys[..j] + keys[j+1..]
  {
    if j > 0 {
      assert keys[0] in keys[..j];
      assert keys[1..][..j-1] == keys[..j][1..];
      RemoveAt(keys[1..], j - 1, k);
    }
  }

  /** The first loop of trig_keylist_addkey: the offset where the key belongs, or
      None when it is already there. */
  method FindSlot(list: Bytes, ghost keys: seq<Key>, newKey: Key) returns (at: Option<nat>, ghost j: nat)
    requires Sorted(keys) && list == Encode(keys)
    ensures newKey in keys <==> at.None?
    ensures at.Some? ==> j <= |keys| && at.value == |Encode(keys[..j])| <= |list|
    ensures at.Some? ==> Insert(keys, newKey) == keys[..j] + [newKey] + keys[j..]
  {
    var off := 0;
    j := 0;
    AtEnd(keys, 0);
    while off < |list|
      invariant 0 <= j <= |keys| && off == |Encode(keys[..j])|
      invariant forall x :: x in keys[..j] ==> Before(x, newKey)
      invariant off <= |list| && (j == |keys| <==> off == |list|)
      decreases |keys| - j
    {
      SplitAt(keys, j);
      var len := list[off];
      var key: Key := list[off+1..off+1+len];
      var cmp := CompareKey(key, newKey);
      if cmp < 0 {
        BeforeIsStrictTotalOrder(key, newKey, newKey);
        NotAfterLarger(keys, j, newKey);
        break;
      } else if cmp > 0 {
        off := off + 1 + len;
        j := j + 1;
        AtEnd(keys, j);
      } else {
        return None, j;
      }
    }
    assert j == |keys| ==> keys[..j] == keys;
    BeforeIsStrictTotalOrder(newKey, newKey, newKey);
    InsertAt(keys, j, newKey);
    at := Some(off);
  }

  /** trig_keylist_addkey, for a destination other than the old list.  Returns
      the new length, or None when the key is already present, in which case
      nothing is written. */
  method AddKey(dest: array<Byte>, list: Bytes, ghost keys: seq<Key>, newKey: Key)
      returns (listlen: Option<nat>)
    requires Sorted(keys) && list == Encode(keys)
    requires dest.Length >= |list| + |newKey| + 1
    modifies dest
    ensures newKey in keys <==> listlen.None?
    ensures newKey in keys ==> dest[..] == old(dest[..])
    ensures newKey !in keys ==>
              && listlen == Some(|list| + |newKey| + 1)
              && dest[..listlen.value] == Encode(Insert(keys, newKey))
              && dest[listlen.value..] == old(dest[listlen.value..])
  {
    var at, j := FindSlot(list, keys, newKey);
    if at.None? {
      return None;
    }
    var off := at.value;
    InsertBytes(keys, j, newKey);
    Fill(dest, off, list, newKey);
    listlen := Some(|list| + |newKey| + 1);
  }

  /** The second half of trig_keylist_addkey: old head, old tail, then the entry
      in the gap between them. */
  method Fill(dest: array<Byte>, off: nat, list: Bytes, newKey: Key)
    requires off <= |list| && dest.Length >= |list| + |newKey| + 1
    modifies dest
    ensures dest[..] == list[..off] + Entry(newKey) + list[off..] + old(dest[|list|+|newKey|+1..])
  {
    Overlay(dest[..], list[..off], Entry(newKey), list[off..]);
    Copy(dest, 0, list[..off]);
    Copy(dest, off + |newKey| + 1, list[off..]);
    Copy(dest, off, Entry(newKey));
  }

  /** Three copies, the last into the gap, amount to one. */
  lemma Overlay(was: Bytes, head: Bytes, mid: Bytes, tail: Bytes)
    requires |head| + |mid| + |tail| <= |was|
    ensures Written(Written(Written(was, 0, head), |head| + |mid|, tail), |head|, mid)
         == head + mid + tail + was[|head|+|mid|+|tail|..]
  {
    var d1 := Written(was, 0, head);
    var d2 := Written(d1, |head| + |mid|, tail);
    assert d2[..|head|] == head;
    assert d2[|head|+|mid|..] == tail + d1[|head|+|mid|+|tail|..];
  }

  lemma InsertBytes(keys: seq<Key>, j: nat, k: Key)
    requires j <= |keys|
    ensures |Encode(keys[..j])| <= |Encode(keys)|
    ensures var off := |Encode(keys[..j])|;
            Encode(keys[..j] + [k] + keys[j..]) ==
              Encode(keys)[..off] + Entry(k) + Encode(keys)[off..]
  {
    EncodeConcat(keys[..j], keys[j..]);
    assert keys == keys[..j] + keys[j..];
    EncodeConcat(keys[..j] + [k], keys[j..]);
    EncodeConcat(keys[..j], [k]);
    assert Encode([k]) == Entry(k) + Encode([]);
    assert Encode([k]) == Entry(k);
  }

  lemma RemoveBytes(keys: seq<Key>, j: nat, k: Key)
    requires j < |keys| && keys[j] == k && k !in keys[..j]
    ensures |Encode(keys[..j])| + |k| + 1 <= |Encode(keys)|
    ensures var off := |Encode(keys[..j])|;
            Encode(Remove(keys, k)) == Encode(keys)[..off] + Encode(keys)[off+|k|+1..]
  {
    RemoveAt(keys, j, k);
    EncodeConcat(keys[..j], keys[j+1..]);
    SplitAt(keys, j);
  }

  lemma StillAhead(keys: seq<Key>, j: nat, key: Key)
    requires j <= |keys| && key in keys && key !in keys[..j]
    ensures j < |keys|
  {
    assert keys == keys[..j] + keys[j..];
  }

  /** The first loop of trig_keylist_rmvkey. */
  method FindKey(list: Bytes, ghost keys: seq<Key>, key: Key) returns (off: nat, ghost j: nat)
    requires list == Encode(keys) && key in keys
    ensures j < |keys| && keys[j] == key && key !in keys[..j]
    ensures off == |Encode(keys[..j])|
  {
    off, j := 0, 0;
    AtEnd(keys, 0);
    while off < |list|
      invariant 0 <= j < |keys| && off == |Encode(keys[..j])| < |list|
      invariant key !in keys[..j]
      decreases |keys| - j
    {
      SplitAt(keys, j);
      var len := list[off];
      var cur: Key := list[off+1..off+1+len];
      if CompareKey(cur, key) == 0 {
        break;
      }
      off := off + 1 + len;
      j := j + 1;
      assert keys[..j] == keys[..j-1] + [keys[j-1]];
      StillAhead(keys, j, key);
      AtEnd(keys, j);
    }
  }

  /** trig_keylist_rmvkey: the destination is exactly the list without the key.
      Callers check membership first; an absent key would overrun dest. */
  method RemoveKey(dest: array<Byte>, list: Bytes, ghost keys: seq<Key>, key: Key)
      returns (listlen: nat)
    requires list == Encode(keys)
    requires key in keys && dest.Length == |list| - |key| - 1
    modifies dest
    ensures listlen == dest.Length && dest[..] == Encode(Remove(keys, key))
  {
    var off, j := FindKey(list, keys, key);
    RemoveBytes(keys, j, key);
    var rest := off + |key| + 1;
    ghost var was := dest[..];
    Copy(dest, 0, list[..off]);
    assert dest[..] == list[..off] + was[off..];
    Copy(dest, off, list[rest..]);
    assert dest[..] == list[..off] + list[rest..];
    listlen := |list| - |key| - 1;
  }

  /** trig_keylist_next: one step of the cursor.  The ghost index says how many
      keys were visited before. */
  method Next(list: Bytes, ghost keys: seq<Key>, cursor: Option<nat>, ghost visited: nat)
      returns (key: Option<Key>, cursor': Option<nat>)
    requires list == Encode(keys) && visited <= |keys|
    requires cursor.None? ==> visited == 0
    requires cursor.Some? ==> visited > 0 && cursor.value == |Encode(keys[..visited-1])|
    ensures visited < |keys| ==>
              && key == Some(keys[visited])
              && cursor' == Some(|Encode(keys[..visited])|)
    ensures visited == |keys| ==> key == None
  {
    AtEnd(keys, 0);
    AtEnd(keys, visited);
    if |list| == 0 {
      return None, cursor;
    }
    var off := 0;
    if cursor.Some? {
      SplitAt(keys, visited - 1);
      off := cursor.value + list[cursor.value] + 1;
    }
    assert off == |Encode(keys[..visited])|;
    cursor' := Some(off);
    if visited < |keys| { SplitAt(keys, visited); }
    if off < |list| {
      return Some(list[off+1..off+1+list[off]]), cursor';
    }
    return None, cursor';
  }

  /** The loop every transaction command runs over its key list: the cursor
      visits each key once, in list order, and then stops. */
  method VisitAll(list: Bytes, ghost keys: seq<Key>) returns (visited: seq<Key>)
    requires list == Encode(keys)
    ensures visited == keys
  {
    visited := [];
    var key, cursor := Next(list, keys, None, 0);
    while key.Some?
      invariant |visited| <= |keys| && visited == keys[..|visited|]
      invariant |visited| < |keys| ==>
                  && key == Some(keys[|visited|])
                  && cursor == Some(|Encode(keys[..|visited|])|)
      invariant |visited| == |keys| ==> key == None
      decreases |keys| - |visited|
    {
      visited := visited + [key.value];
      key, cursor := Next(list, keys, cursor, |visited|);
    }
  }
}
