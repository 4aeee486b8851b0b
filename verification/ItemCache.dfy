/** The item layer of mc_items.c: the maps it changes in place, the order in which
    each command looks items up, and the lazy dropping of expired ones.

    Fields may hold items that have expired; the ghost field view is what is still
    alive, and each method computes the matching function of LeaseSpec on it. */
module ItemCache {
  import opened Basics
  import opened Bytes
  import opened LeaseSpec
  import Keylist
  import Counters

  // ---------- lazily expiring maps ----------

  /** Always true.  The invariants below are quantified over keys marked with it,
      so that the verifier applies them to the keys a method names. */
  predicate At(k: Key) { true }

  /** live is what has not expired in m. */
  ghost predicate Alive<T>(m: map<Key, Timed<T>>, live: map<Key, Timed<T>>, now: nat) {
    forall k {:trigger At(k)} :: At(k) ==>
      Lookup(live, k) == if k in m && LiveAt(m[k].exp, now) then Some(m[k]) else None
  }

  lemma AliveIsLive<T>(m: map<Key, Timed<T>>, live: map<Key, Timed<T>>, now: nat)
    ensures Alive(m, live, now) <==> live == Live(m, now)
  {
    if Alive(m, live, now) {
      forall k ensures Lookup(live, k) == Lookup(Live(m, now), k) {
        assert At(k);
      }
      SameMap(live, Live(m, now));
    }
  }

  /** _item_get: an expired item is unlinked on the way. */
  method Get<T>(m: map<Key, Timed<T>>, ghost live: map<Key, Timed<T>>, k: Key, now: nat)
      returns (m': map<Key, Timed<T>>, r: Option<Timed<T>>)
    requires Alive(m, live, now)
    ensures Alive(m', live, now)
    ensures r == Lookup(live, k)
    ensures r.Some? ==> k in m && m[k] == r.value && LiveAt(r.value.exp, now)
    ensures m' == m || m' == m - {k}
  {
    assert At(k);
    if k !in m {
      return m, None;
    }
    if m[k].exp != 0 && m[k].exp <= now {
      return m - {k}, None;
    }
    return m, Some(m[k]);
  }

  lemma LaterAlive<T>(m: map<Key, Timed<T>>, live: map<Key, Timed<T>>, now: nat, later: nat)
    requires Alive(m, live, now) && now <= later
    ensures Alive(m, Live(live, later), later)
  {
  }

  /** The payload after an operation, by the code's own parser and printer. */
  method ApplyNow(op: Op, v: Value) returns (r: Option<Value>)
    ensures r == ApplyOp(op, v)
  {
    match op
    case Append(data) => r := Some(v + data);
    case Prepend(data) => r := Some(data + v);
    case Incr(d) =>
      var n := Counters.StrToU64(v);
      r := if n.None? then None else Some(Counters.Print(Counters.Bump(n.value, true, d)));
    case Decr(d) =>
      var n := Counters.StrToU64(v);
      r := if n.None? then None else Some(Counters.Print(Counters.Bump(n.value, false, d)));
  }

  class Store {
    var values: map<Key, Timed<Item>>
    var leases: map<Key, Timed<Lease>>
    var versions: map<Key, Timed<Item>>
    var marks: set<Key>
    var trans: map<Tid, Timed<seq<Key>>>
    var nextToken: Token
    var now: nat
    const life: nat
    ghost var view: Cache

    ghost predicate Sorted()
      reads this
    {
      && (forall t {:trigger At(t)} :: At(t) && t in trans ==> Keylist.Sorted(trans[t].it))
      && (forall k {:trigger At(k)} :: At(k) && k in leases && leases[k].it.QInv? ==>
            Keylist.Sorted(leases[k].it.tids))
    }

    /** view is what is alive, and lists inside items are sorted, as every writer
        of one leaves them. */
    ghost predicate Valid()
      reads this
    {
      && life > 0
      && Alive(values, view.values, now) && Alive(leases, view.leases, now)
      && Alive(versions, view.versions, now) && Alive(trans, view.trans, now)
      && view.marks == marks && view.nextToken == nextToken && view.now == now && view.life == life
      && Sorted()
    }

    /** lease_init and an empty index; leaseExpiry is settings.lease_token_expiry,
        in milliseconds. */
    constructor (leaseExpiry: nat)
      ensures Valid()
      ensures view == Cache(map[], map[], map[], {}, map[], LEASE_START, 0, life)
      ensures life == 1 + (if leaseExpiry < 1000 then 1 else leaseExpiry / 1000)
    {
      values, leases, versions, marks, trans := map[], map[], map[], {}, map[];
      nextToken, now := LEASE_START, 0;
      var exptime := leaseExpiry / 1000;
      if exptime == 0 {
        exptime := 1;
      }
      life := exptime + 1;
      view := Cache(map[], map[], map[], {}, map[], LEASE_START, 0, exptime + 1);
    }

    /** The clock. */
    method Advance(d: nat)
      requires Valid()
      modifies this`now, this`view
      ensures Valid() && view == Tick(old(view), d)
    {
      LaterAlive(values, view.values, now, now + d);
      LaterAlive(leases, view.leases, now, now + d);
      LaterAlive(versions, view.versions, now, now + d);
      LaterAlive(trans, view.trans, now, now + d);
      now := now + d;
      view := Tick(view, d);
    }

    // ---------- the pieces commands are made of ----------

    method GetValue(k: Key) returns (r: Option<Timed<Item>>)
      requires Valid()
      modifies this`values
      ensures Valid() && r == Lookup(view.values, k)
    {
      values, r := Get(values, view.values, k, now);
    }

    method GetLease(k: Key) returns (r: Option<Timed<Lease>>)
      requires Valid()
      modifies this`leases
      ensures Valid() && r == Lookup(view.leases, k)
      ensures r.Some? ==> LiveAt(r.value.exp, now)
      ensures r.Some? && r.value.it.QInv? ==> Keylist.Sorted(r.value.it.tids)
    {
      assert At(k);
      leases, r := Get(leases, view.leases, k, now);
    }

    method GetVersion(k: Key) returns (r: Option<Timed<Item>>)
      requires Valid()
      modifies this`versions
      ensures Valid() && r == Lookup(view.versions, k)
    {
      versions, r := Get(versions, view.versions, k, now);
    }

    method GetTrans(tid: Tid) returns (r: Option<Timed<seq<Key>>>)
      requires Valid()
      modifies this`trans
      ensures Valid() && r == Lookup(view.trans, tid)
      ensures r.Some? ==> Keylist.Sorted(r.value.it)
    {
      assert At(tid);
      trans, r := Get(trans, view.trans, tid, now);
    }

    /** _item_create_lease or _item_create_reserved_item, then _item_store */
    method PutLease(k: Key, l: Lease)
      requires Valid() && (l.QInv? ==> Keylist.Sorted(l.tids))
      modifies this`leases, this`view
      ensures Valid()
      ensures view == old(view).(leases := old(view).leases[k := Timed(l, Expiry(old(view)))])
    {
      leases := leases[k := Timed(l, now + life)];
      view := view.(leases := view.leases[k := Timed(l, now + life)]);
    }

    /** _item_unlink of a lease */
    method DropLease(k: Key)
      requires Valid()
      modifies this`leases, this`view
      ensures Valid() && view == old(view).(leases := old(view).leases - {k})
    {
      leases := leases - {k};
      view := view.(leases := view.leases - {k});
    }

    method PutValue(k: Key, x: Timed<Item>)
      requires Valid()
      modifies this`values, this`view
      ensures Valid() && view == old(view).(values := Put(old(view).values, k, x, now))
    {
      values := values[k := x];
      view := view.(values := Put(view.values, k, x, now));
    }

    method DropValue(k: Key)
      requires Valid()
      modifies this`values, this`view
      ensures Valid() && view == old(view).(values := old(view).values - {k})
    {
      values := values - {k};
      view := view.(values := view.values - {k});
    }

    method PutVersion(k: Key, x: Timed<Item>)
      requires Valid() && LiveAt(x.exp, now)
      modifies this`versions, this`view
      ensures Valid() && view == old(view).(versions := old(view).versions[k := x])
    {
      versions := versions[k := x];
      view := view.(versions := view.versions[k := x]);
    }

    method DropVersion(k: Key)
      requires Valid()
      modifies this`versions, this`view
      ensures Valid() && view == old(view).(versions := old(view).versions - {k})
    {
      versions := versions - {k};
      view := view.(versions := view.versions - {k});
    }

    method SetMark(k: Key, on: bool)
      requires Valid()
      modifies this`marks, this`view
      ensures Valid()
      ensures view == old(view).(marks := if on then old(view).marks + {k} else old(view).marks - {k})
    {
      marks := if on then marks + {k} else marks - {k};
      view := view.(marks := marks);
    }

    method DropTrans(tid: Tid)
      requires Valid()
      modifies this`trans, this`view
      ensures Valid() && view == old(view).(trans := old(view).trans - {tid})
    {
      trans := trans - {tid};
      view := view.(trans := view.trans - {tid});
    }

    /** lease_next_token */
    method NextToken() returns (token: Token)
      requires Valid()
      modifies this`nextToken, this`view
      ensures Valid() && token == old(view).nextToken
      ensures view == old(view).(nextToken := old(view).nextToken + 1)
    {
      token := nextToken;
      nextToken := nextToken + 1;
      view := view.(nextToken := nextToken);
    }

    /** _item_assoc_key_tid */
    method AssocKeyTid(found: Option<Timed<seq<Key>>>, k: Key, tid: Tid)
      requires Valid() && found == Lookup(view.trans, tid)
      requires found.Some? ==> Keylist.Sorted(found.value.it)
      modifies this`trans, this`view
      ensures Valid() && view == old(view).(trans := AssocKey(old(view), tid, k))
    {
      if found.None? || k !in found.value.it {
        var keys := if found.Some? then found.value.it else [];
        Keylist.InsertSorted(keys, k);
        var x := Timed(Keylist.Insert(keys, k), now + life);
        trans := trans[tid := x];
        view := view.(trans := view.trans[tid := x]);
      }
    }

    /** _item_assoc_tid_lease */
    method AssocTidLease(found: Option<Timed<Lease>>, k: Key, tid: Tid)
      requires Valid() && found == Lookup(view.leases, k)
      requires found.Some? ==> found.value.it.QInv? && Keylist.Sorted(found.value.it.tids)
      modifies this`leases, this`view
      ensures Valid()
      ensures view == old(view).(leases := old(view).leases[k := JoinLease(old(view), tid, k)])
    {
      if found.None? || tid !in found.value.it.tids {
        var tids := if found.Some? then found.value.it.tids else [];
        Keylist.InsertSorted(tids, tid);
        PutLease(k, QInv(Keylist.Insert(tids, tid)));
      }
    }

    /** _item_remove_tid_lease */
    method RemoveTidLease(found: Timed<Lease>, k: Key, tid: Tid)
      requires Valid() && Lookup(view.leases, k) == Some(found)
      requires found.it.QInv? && Keylist.Sorted(found.it.tids)
      modifies this`leases, this`view
      ensures Valid()
      ensures view == old(view).(leases :=
                match LeaveLease(old(view), tid, found)
                case Some(l) => old(view).leases[k := l]
                case None => old(view).leases - {k})
    {
      if tid in found.it.tids {
        if |found.it.tids| == 1 {
          DropLease(k);
          return;
        }
        Keylist.RemoveMembers(found.it.tids, tid);
        PutLease(k, QInv(Keylist.Remove(found.it.tids, tid)));
      }
    }

    // ---------- iqget, iqset, unlease, delete ----------

    /** The branches of item_iqget that return no value. */
    method MissItem(k: Key, token: Token, it: Option<Timed<Item>>, lease_it: Option<Timed<Lease>>, pending: int)
        returns (r: IqReply)
      requires Valid() && it == Lookup(view.values, k) && lease_it == Lookup(view.leases, k)
      requires pending == PendingOf(view, k)
      modifies this
      ensures Valid() && (view, r) == IqMiss(old(view), k, token)
    {
      if lease_it.None? {
        if it.Some? {
          DropValue(k);
        }
        assert view.values == old(view).values - {k};
        var t := NextToken();
        PutLease(k, I(t));
        return Leased(t, pending);
      }
      if LeaseValue(lease_it.value.it) == token {
        return NoValue;
      }
      return Miss(pending);
    }

    /** item_iqget */
    method IqGetItem(k: Key, token: Token, tid: Option<Tid>, override: bool) returns (r: IqReply)
      requires Valid()
      modifies this
      ensures Valid() && (view, r) == IqGet(old(view), k, token, tid, override)
    {
      var trans_it: Option<Timed<seq<Key>>> := None;
      if tid.Some? {
        trans_it := GetTrans(tid.value);
      }
      var it := GetValue(k);
      var pending := 0;
      if it.None? {
        if k in marks { pending := 1; }
      } else {
        pending := it.value.it.p;
      }
      var lease_it := GetLease(k);
      if trans_it.None? || k !in trans_it.value.it {
        if it.Some? && lease_it.Some? && lease_it.value.it.QRef? && lease_it.value.it.token == token {
          return NoValue;
        }
        if it.Some? && !override {
          return Hit(it.value.it);
        }
        r := MissItem(k, token, it, lease_it, pending);
        return;
      }
      if lease_it.Some? && lease_it.value.it.QInc? {
        var pv_it := GetVersion(k);
        if pv_it.Some? {
          return Hit(pv_it.value.it);
        }
      }
      return NoValue;
    }

    /** _item_store for an IQSET request */
    method IqSetItem(k: Key, token: Token, v: Bytes, exp: nat, cfg: int) returns (stored: bool)
      requires Valid()
      modifies this
      ensures Valid() && (view, stored) == IqSet(old(view), k, token, v, exp, cfg)
    {
      if |v| == 0 {
        return false;
      }
      var oit := GetValue(k);
      var lease_it := GetLease(k);
      if lease_it.None? || !lease_it.value.it.I? {
        return false;
      }
      if lease_it.value.it.token != token {
        return false;
      }
      DropLease(k);
      var p := 0;
      if k in marks {
        p := 1;
        SetMark(k, false);
      }
      assert view.marks == old(view).marks - {k};
      PutValue(k, Timed(Item(v, p, cfg), exp));
      return true;
    }

    /** item_get_and_unlease */
    method GetAndUnlease(k: Key, token: Token)
      requires Valid()
      modifies this
      ensures Valid() && view == Unlease(old(view), k, token)
    {
      var lease_it := GetLease(k);
      if lease_it.Some? && LeaseValue(lease_it.value.it) == token {
        DropLease(k);
      }
    }

    /** item_get_and_delete, leases kept */
    method GetAndDelete(k: Key) returns (found: bool)
      requires Valid()
      modifies this
      ensures Valid() && (view, found) == Delete(old(view), k)
    {
      var it := GetValue(k);
      if it.Some? {
        DropValue(k);
      }
      assert view.values == old(view).values - {k};
      return it.Some?;
    }

    // ---------- qareg, dar ----------

    /** The first half of item_quarantine_and_register: void an I lease and put
        the transaction on the shared Q lease. */
    method ShareLease(tid: Tid, k: Key)
      requires Valid() && Registrable(view, k)
      modifies this`leases, this`view
      ensures Valid()
      ensures view == old(view).(leases := old(view).leases[k := JoinLease(old(view), tid, k)])
    {
      var lease_it := GetLease(k);
      if lease_it.Some? && lease_it.value.it.I? {
        DropLease(k);
        lease_it := None;
      }
      AssocTidLease(lease_it, k, tid);
      assert view.leases == old(view).leases[k := JoinLease(old(view), tid, k)];
    }

    /** Its end: the value expires with the lease. */
    method TieExpiry(k: Key)
      requires Valid()
      modifies this`values, this`leases, this`view
      ensures Valid()
      ensures view == old(view).(values :=
                if k in old(view).values && k in old(view).leases
                then old(view).values[k := old(view).values[k].(exp := old(view).leases[k].exp)]
                else old(view).values)
    {
      var it := GetValue(k);
      var lease_it := GetLease(k);
      if it.Some? {
        if lease_it.Some? {
          PutValue(k, it.value.(exp := lease_it.value.exp));
        }
      }
    }

    /** item_quarantine_and_register */
    method QuarantineAndRegister(tid: Tid, k: Key)
      requires Valid() && Registrable(view, k)
      modifies this
      ensures Valid() && view == QaReg(old(view), tid, k)
    {
      var trans_it := GetTrans(tid);
      ShareLease(tid, k);
      AssocKeyTid(trans_it, k, tid);
      TieExpiry(k);
    }

    /** One round of the loop of item_delete_and_release. */
    method DarKey(k: Key, tid: Tid)
      requires Valid()
      modifies this`values, this`leases, this`view
      ensures Valid() && view == DarOn(old(view), tid, {k})
    {
      ghost var c := view;
      var it := GetValue(k);
      if it.Some? {
        DropValue(k);
      }
      assert view.values == c.values - {k};
      var lease_it := GetLease(k);
      if lease_it.Some? {
        if lease_it.value.it.QInv? {
          RemoveTidLease(lease_it.value, k, tid);
        } else {
          DropLease(k);
        }
      }
      DarOne(c, tid, k);
    }

    /** item_delete_and_release */
    method DeleteAndRelease(tid: Tid) returns (ok: bool)
      requires Valid()
      modifies this
      ensures Valid() && (view, ok) == Dar(old(view), tid)
    {
      ghost var c := view;
      var trans_it := GetTrans(tid);
      if trans_it.None? {
        return false;
      }
      var keys := trans_it.value.it;
      for i := 0 to |keys|
        invariant Valid() && view == DarEach(c, tid, keys[..i])
      {
        DarKey(keys[i], tid);
        assert keys[..i+1][..i] == keys[..i];
      }
      assert keys[..|keys|] == keys;
      Keylist.SortedDistinct(keys);
      DarAll(c, tid, keys);
      DropTrans(tid);
      return true;
    }

    // ---------- qaread, swap, iqincr and its kin ----------

    /** Take a Q lease for the transaction and copy the published value. */
    method TakeLease(tid: Tid, trans_it: Option<Timed<seq<Key>>>, k: Key, it: Option<Timed<Item>>, refresh: bool)
        returns (token: Token)
      requires Valid() && trans_it == Lookup(view.trans, tid) && it == Lookup(view.values, k)
      requires trans_it.Some? ==> Keylist.Sorted(trans_it.value.it)
      modifies this`leases, this`versions, this`trans, this`nextToken, this`view
      ensures Valid() && token == old(view).nextToken
      ensures view == Quarantine(old(view), tid, k, if refresh then QRef(token) else QInc(token))
    {
      token := NewLease(k, refresh);
      CopyValue(k, it);
      AssocKeyTid(trans_it, k, tid);
    }

    /** _item_create_lease for a Q lease */
    method NewLease(k: Key, refresh: bool) returns (token: Token)
      requires Valid()
      modifies this`leases, this`nextToken, this`view
      ensures Valid() && token == old(view).nextToken
      ensures var l := if refresh then QRef(token) else QInc(token);
              view == old(view).(leases := old(view).leases[k := Timed(l, Expiry(old(view)))],
                                 nextToken := old(view).nextToken + 1)
    {
      token := NextToken();
      PutLease(k, if refresh then QRef(token) else QInc(token));
    }

    /** _item_create_pending_version, filled from the value */
    method CopyValue(k: Key, it: Option<Timed<Item>>)
      requires Valid() && it == Lookup(view.values, k)
      modifies this`versions, this`view
      ensures Valid() && view == old(view).(versions := Snapshot(old(view), k))
    {
      if it.Some? {
        PutVersion(k, Timed(it.value.it.(cfg := -1), now + life));
      }
    }

    /** item_quarantine_and_read */
    method QuarantineAndRead(tid: Tid, k: Key, token: Token) returns (r: QaReply)
      requires Valid()
      modifies this
      ensures Valid() && (view, r) == QaRead(old(view), tid, k, token)
    {
      var trans_it := GetTrans(tid);
      var lease_it := GetLease(k);
      if lease_it.Some? && !lease_it.value.it.I? {
        if !lease_it.value.it.QInv? && lease_it.value.it.token == token {
          var pv_it := GetVersion(k);
          if pv_it.Some? {
            return QaReply(token, Some(pv_it.value.it.val), pv_it.value.it.p);
          }
          return QaReply(token, None, if k in marks then 1 else 0);
        }
        return QaReply(LEASE_HOTMISS, None, 0);
      }
      var orig_it := GetValue(k);
      var t := TakeLease(tid, trans_it, k, orig_it, true);
      if orig_it.Some? {
        return QaReply(t, Some(orig_it.value.it.val), orig_it.value.it.p);
      }
      return QaReply(t, None, if k in marks then 1 else 0);
    }

    /** item_swap */
    method SwapItem(k: Key, token: Token, v: Bytes) returns (r: SwapReply)
      requires Valid()
      modifies this
      ensures Valid() && (view, r) == Swap(old(view), k, token, v)
    {
      var lease_it := GetLease(k);
      if lease_it.None? || LeaseValue(lease_it.value.it) != token {
        return SwapNotFound;
      }
      if |v| == 0 {
        return Swapped;
      }
      var pending := 0;
      var pv_it := GetVersion(k);
      if pv_it.Some? {
        pending := pv_it.value.it.p;
      } else if k in marks {
        pending := 1;
        SetMark(k, false);
      }
      assert pv_it.None? ==> view.marks == old(view).marks - {k};
      PutVersion(k, Timed(Item(v, pending, -1), now + life));
      return Swapped;
    }

    /** _item_add_delta_iq and _item_append_prepend_iq on a version just found */
    method ReworkItem(k: Key, pv: Timed<Item>, op: Op, token: Token) returns (r: OpReply)
      requires Valid() && Lookup(view.versions, k) == Some(pv)
      modifies this`versions, this`view
      ensures Valid() && (view, r) == Rework(old(view), k, op, token)
    {
      assert At(k);
      var v := ApplyNow(op, pv.it.val);
      if v.None? {
        return OpClientError(token, pv.it.p);
      }
      PutVersion(k, pv.(it := pv.it.(val := v.value)));
      return OpLease(token, pv.it.p);
    }

    /** The branch of both commands that finds no Q lease. */
    method FirstOpItem(tid: Tid, trans_it: Option<Timed<seq<Key>>>, k: Key, it: Option<Timed<Item>>, op: Op)
        returns (r: OpReply)
      requires Valid() && trans_it == Lookup(view.trans, tid) && it == Lookup(view.values, k)
      requires trans_it.Some? ==> Keylist.Sorted(trans_it.value.it)
      requires k in view.leases ==> view.leases[k].it.I?
      modifies this
      ensures Valid() && (view, r) == IqOp(old(view), tid, k, op)
    {
      var pending := if k in marks then 1 else 0;
      var token := TakeLease(tid, trans_it, k, it, false);
      if it.None? {
        return OpNoValue(token, pending);
      }
      var copy := Timed(it.value.it.(cfg := -1), now + life);
      r := ReworkItem(k, copy, op, token);
    }

    /** _item_iqincr_iqdecr and item_iqappend_iqprepend */
    method IqOpItem(tid: Tid, k: Key, op: Op) returns (r: OpReply)
      requires Valid()
      modifies this
      ensures Valid() && (view, r) == IqOp(old(view), tid, k, op)
    {
      var it := GetValue(k);
      var trans_it := GetTrans(tid);
      var lease_it := GetLease(k);
      var pending := if k in marks then 1 else 0;
      if lease_it.None? || lease_it.value.it.I? {
        r := FirstOpItem(tid, trans_it, k, it, op);
        return;
      }
      if trans_it.None? || k !in trans_it.value.it {
        return OpAbort;
      }
      var token := LeaseValue(lease_it.value.it);
      var pv_it := GetVersion(k);
      if pv_it.None? {
        return OpNoValue(token, pending);
      }
      r := ReworkItem(k, pv_it.value, op, token);
    }

    // ---------- commit, release ----------

    /** The end of a round of item_commit: publish or drop, then the mark. */
    method PublishKey(k: Key, inv: bool, pv_it: Option<Timed<Item>>, pending: int, cfg: int)
      requires Valid() && pv_it == Lookup(view.versions, k)
      modifies this`values, this`versions, this`marks, this`view
      ensures Valid()
      ensures var c := old(view);
              view == c.(
                values := if !inv && k in c.versions
                          then c.values[k := Timed(Item(c.versions[k].it.val, pending % 256, cfg), 0)]
                          else c.values - {k},
                versions := c.versions - {k},
                marks := if MarkAfter(c, k, pending) then c.marks + {k} else c.marks - {k})
    {
      ghost var c := view;
      var present := PublishValue(k, inv, pv_it, pending, cfg);
      MarkKey(k, present, pending);
      assert view.marks == if MarkAfter(c, k, pending) then c.marks + {k} else c.marks - {k};
      if pv_it.Some? {
        DropVersion(k);
      }
      assert view.versions == c.versions - {k};
    }

    /** The value: the pending version, or none; returns whether there was either. */
    method PublishValue(k: Key, inv: bool, pv_it: Option<Timed<Item>>, pending: int, cfg: int) returns (present: bool)
      requires Valid() && pv_it == Lookup(view.versions, k)
      modifies this`values, this`view
      ensures Valid() && present == (k in old(view).values || k in old(view).versions)
      ensures var c := old(view);
              view == c.(values := if !inv && k in c.versions
                                   then c.values[k := Timed(Item(c.versions[k].it.val, pending % 256, cfg), 0)]
                                   else c.values - {k})
    {
      ghost var c := view;
      if pv_it.Some? {
        PutValue(k, Timed(Item(pv_it.value.it.val, pending % 256, cfg), 0));
      }
      var it := GetValue(k);
      if it.Some? && (pv_it.None? || inv) {
        DropValue(k);
      }
      assert view.values == if !inv && k in c.versions
                            then c.values[k := Timed(Item(c.versions[k].it.val, pending % 256, cfg), 0)]
                            else c.values - {k};
      return it.Some?;
    }

    /** The mark: gone where there was a value, else as the pending flag asks. */
    method MarkKey(k: Key, present: bool, pending: int)
      requires Valid()
      modifies this`marks, this`view
      ensures Valid()
      ensures view == old(view).(marks := if present || pending == 0 then old(view).marks - {k}
                                          else if pending == 1 then old(view).marks + {k} else old(view).marks)
    {
      if present {
        SetMark(k, false);
      } else if pending == 1 && k !in marks {
        SetMark(k, true);
      } else if pending == 0 && k in marks {
        SetMark(k, false);
      }
    }

    /** One round of the loop of item_commit. */
    method CommitKey(k: Key, tid: Tid, pending: int, cfg: int)
      requires Valid()
      modifies this
      ensures Valid()
      ensures view == CommitOn(old(view), tid, Taken(old(view), {k}), pending, cfg)
    {
      ghost var c := view;
      var lease_it := GetLease(k);
      var pv_it := GetVersion(k);
      CommitOne(c, tid, k, pending, cfg);
      if lease_it.None? {
        return;
      }
      if lease_it.value.it.I? {
        return;
      }
      if lease_it.value.it.QInv? {
        RemoveTidLease(lease_it.value, k, tid);
      } else {
        DropLease(k);
      }
      PublishKey(k, lease_it.value.it.QInv?, pv_it, pending, cfg);
    }

    /** item_commit */
    method CommitItems(tid: Tid, pending: int, cfg: int) returns (ok: bool)
      requires Valid()
      modifies this
      ensures Valid() && (view, ok) == Commit(old(view), tid, pending, cfg)
    {
      ghost var c := view;
      var trans_it := GetTrans(tid);
      if trans_it.None? {
        return false;
      }
      var keys := trans_it.value.it;
      for i := 0 to |keys|
        invariant Valid() && view == CommitEach(c, tid, keys[..i], pending, cfg)
      {
        CommitKey(keys[i], tid, pending, cfg);
        assert keys[..i+1][..i] == keys[..i];
      }
      assert keys[..|keys|] == keys;
      Keylist.SortedDistinct(keys);
      CommitAll(c, tid, keys, pending, cfg);
      DropTrans(tid);
      return true;
    }

    /** One round of the loop of item_release. */
    method ReleaseKey(k: Key)
      requires Valid()
      modifies this
      ensures Valid() && view == ReleaseOn(old(view), Taken(old(view), {k}))
    {
      ghost var c := view;
      var lease_it := GetLease(k);
      var pv_it := GetVersion(k);
      if lease_it.None? || lease_it.value.it.I? {
        assert Taken(c, {k}) == {};
        assert ReleaseOn(c, {}) == c by {
          assert c.leases - {} == c.leases && c.versions - {} == c.versions;
        }
        return;
      }
      assert Taken(c, {k}) == {k};
      DropLease(k);
      if pv_it.Some? {
        DropVersion(k);
      }
      assert view.versions == c.versions - {k};
    }

    /** item_release */
    method ReleaseItems(tid: Tid) returns (ok: bool)
      requires Valid()
      modifies this
      ensures Valid() && (view, ok) == Release(old(view), tid)
    {
      ghost var c := view;
      var trans_it := GetTrans(tid);
      if trans_it.None? {
        return false;
      }
      var keys := trans_it.value.it;
      for i := 0 to |keys|
        invariant Valid() && view == ReleaseEach(c, keys[..i])
      {
        ReleaseKey(keys[i]);
        assert keys[..i+1][..i] == keys[..i];
      }
      assert keys[..|keys|] == keys;
      Keylist.SortedDistinct(keys);
      ReleaseAll(c, keys);
      DropTrans(tid);
      return true;
    }
  }

  // ---------- loops over a key list ----------

  lemma DarNothing(c: Cache, tid: Tid)
    ensures DarOn(c, tid, {}) == c
  {
    assert c.values - {} == c.values;
    assert DarOn(c, tid, {}).leases == c.leases;
  }

  lemma SameMap<V>(a: map<Key, V>, b: map<Key, V>)
    requires forall x :: Lookup(a, x) == Lookup(b, x)
    ensures a == b
  {
    forall x ensures x in a <==> x in b {
      assert Lookup(a, x) == Lookup(b, x);
    }
    forall x | x in a ensures a[x] == b[x] {
      assert Lookup(a, x) == Lookup(b, x);
    }
  }

  lemma DarLookup(c: Cache, tid: Tid, ks: set<Key>, x: Key)
    ensures Lookup(DarOn(c, tid, ks).leases, x)
         == if x in ks && x in c.leases then DarLease(c, tid, x) else Lookup(c.leases, x)
  {
  }

  lemma DarOne(c: Cache, tid: Tid, k: Key)
    ensures DarOn(c, tid, {k}) == c.(
              values := c.values - {k},
              leases :=
                if k !in c.leases then c.leases
                else match DarLease(c, tid, k)
                     case Some(l) => c.leases[k := l]
                     case None => c.leases - {k})
  {
    var leases := if k !in c.leases then c.leases
                  else match DarLease(c, tid, k)
                       case Some(l) => c.leases[k := l]
                       case None => c.leases - {k};
    forall x ensures Lookup(DarOn(c, tid, {k}).leases, x) == Lookup(leases, x) {
      DarLookup(c, tid, {k}, x);
    }
    SameMap(DarOn(c, tid, {k}).leases, leases);
  }

  /** Handling one more key is handling the larger set at once. */
  lemma DarTwice(c: Cache, tid: Tid, ks: set<Key>, k: Key, x: Key)
    requires k !in ks
    ensures Lookup(DarOn(DarOn(c, tid, ks), tid, {k}).leases, x) == Lookup(DarOn(c, tid, ks + {k}).leases, x)
  {
    DarLookup(c, tid, ks, x);
    DarLookup(DarOn(c, tid, ks), tid, {k}, x);
    DarLookup(c, tid, ks + {k}, x);
  }

  lemma DarMore(c: Cache, tid: Tid, ks: set<Key>, k: Key)
    requires k !in ks
    ensures DarOn(DarOn(c, tid, ks), tid, {k}) == DarOn(c, tid, ks + {k})
  {
    var c1 := DarOn(c, tid, ks);
    assert c.values - ks - {k} == c.values - (ks + {k});
    forall x ensures Lookup(DarOn(c1, tid, {k}).leases, x) == Lookup(DarOn(c, tid, ks + {k}).leases, x) {
      DarTwice(c, tid, ks, k, x);
    }
    SameMap(DarOn(c1, tid, {k}).leases, DarOn(c, tid, ks + {k}).leases);
  }

  /** The rounds of the loop, one key after the other. */
  ghost function DarEach(c: Cache, tid: Tid, keys: seq<Key>): Cache {
    if keys == [] then c
    else DarOn(DarEach(c, tid, keys[..|keys|-1]), tid, {keys[|keys|-1]})
  }

  lemma {:induction false} DarAll(c: Cache, tid: Tid, keys: seq<Key>)
    requires NoDuplicates(keys)
    ensures DarEach(c, tid, keys) == DarOn(c, tid, SetOf(keys))
  {
    if keys == [] {
      DarNothing(c, tid);
      assert SetOf(keys) == {};
    } else {
      var n := |keys| - 1;
      DarAll(c, tid, keys[..n]);
      DarMore(c, tid, SetOf(keys[..n]), keys[n]);
      assert SetOf(keys) == SetOf(keys[..n]) + {keys[n]};
    }
  }

  lemma CommitLookup(c: Cache, tid: Tid, ks: set<Key>, pending: int, cfg: int, x: Key)
    requires Taken(c, ks) == ks
    ensures var c' := CommitOn(c, tid, ks, pending, cfg);
            && Lookup(c'.values, x) == (
                 if x !in ks then Lookup(c.values, x)
                 else if Publishes(c, x) then Some(Timed(Item(c.versions[x].it.val, pending % 256, cfg), 0))
                 else None)
            && Lookup(c'.leases, x) == (if x in ks then CommitLease(c, tid, x) else Lookup(c.leases, x))
            && Lookup(c'.versions, x) == (if x in ks then None else Lookup(c.versions, x))
            && (x in c'.marks <==> if x in ks then MarkAfter(c, x, pending) else x in c.marks)
  {
    assert x in ks ==> x in Taken(c, ks);
  }

  lemma SameCache(a: Cache, b: Cache)
    requires forall x :: Lookup(a.values, x) == Lookup(b.values, x)
    requires forall x :: Lookup(a.leases, x) == Lookup(b.leases, x)
    requires forall x :: Lookup(a.versions, x) == Lookup(b.versions, x)
    requires forall x :: x in a.marks <==> x in b.marks
    requires a.trans == b.trans && a.nextToken == b.nextToken && a.now == b.now && a.life == b.life
    ensures a == b
  {
    SameMap(a.values, b.values);
    SameMap(a.leases, b.leases);
    SameMap(a.versions, b.versions);
  }

  lemma CommitNothing(c: Cache, tid: Tid, pending: int, cfg: int)
    ensures CommitOn(c, tid, {}, pending, cfg) == c
    ensures Taken(c, {}) == {}
  {
    assert Taken(c, {}) == {};
    var c' := CommitOn(c, tid, {}, pending, cfg);
    forall x
      ensures Lookup(c'.values, x) == Lookup(c.values, x) && Lookup(c'.leases, x) == Lookup(c.leases, x)
      ensures Lookup(c'.versions, x) == Lookup(c.versions, x) && (x in c'.marks <==> x in c.marks)
    {
      CommitLookup(c, tid, {}, pending, cfg, x);
    }
    SameCache(c', c);
  }

  lemma CommitOne(c: Cache, tid: Tid, k: Key, pending: int, cfg: int)
    ensures CommitOn(c, tid, Taken(c, {k}), pending, cfg) ==
            if k !in c.leases || c.leases[k].it.I? then c
            else c.(
              values := if Publishes(c, k)
                        then c.values[k := Timed(Item(c.versions[k].it.val, pending % 256, cfg), 0)]
                        else c.values - {k},
              leases := match CommitLease(c, tid, k)
                        case Some(l) => c.leases[k := l]
                        case None => c.leases - {k},
              versions := c.versions - {k},
              marks := if MarkAfter(c, k, pending) then c.marks + {k} else c.marks - {k})
  {
    if k !in c.leases || c.leases[k].it.I? {
      assert Taken(c, {k}) == {};
      CommitNothing(c, tid, pending, cfg);
    } else {
      assert Taken(c, {k}) == {k};
      var c' := CommitOn(c, tid, {k}, pending, cfg);
      var r := c.(
        values := if Publishes(c, k)
                  then c.values[k := Timed(Item(c.versions[k].it.val, pending % 256, cfg), 0)]
                  else c.values - {k},
        leases := match CommitLease(c, tid, k)
                  case Some(l) => c.leases[k := l]
                  case None => c.leases - {k},
        versions := c.versions - {k},
        marks := if MarkAfter(c, k, pending) then c.marks + {k} else c.marks - {k});
      forall x
        ensures Lookup(c'.values, x) == Lookup(r.values, x) && Lookup(c'.leases, x) == Lookup(r.leases, x)
        ensures Lookup(c'.versions, x) == Lookup(r.versions, x) && (x in c'.marks <==> x in r.marks)
      {
        CommitLookup(c, tid, {k}, pending, cfg, x);
      }
      SameCache(c', r);
    }
  }

  lemma CommitMore(c: Cache, tid: Tid, ks: set<Key>, k: Key, pending: int, cfg: int)
    requires k !in ks
    ensures var c1 := CommitOn(c, tid, Taken(c, ks), pending, cfg);
            CommitOn(c1, tid, Taken(c1, {k}), pending, cfg) == CommitOn(c, tid, Taken(c, ks + {k}), pending, cfg)
  {
    var t, t' := Taken(c, ks), Taken(c, ks + {k});
    assert Taken(c, t) == t && Taken(c, t') == t';
    var c1 := CommitOn(c, tid, t, pending, cfg);
    CommitLookup(c, tid, t, pending, cfg, k);
    assert Lookup(c1.leases, k) == Lookup(c.leases, k);
    var s := Taken(c1, {k});
    assert k in s <==> k in t';
    assert t' == t + s && Taken(c1, s) == s;
    var a, b := CommitOn(c1, tid, s, pending, cfg), CommitOn(c, tid, t', pending, cfg);
    forall x
      ensures Lookup(a.values, x) == Lookup(b.values, x) && Lookup(a.leases, x) == Lookup(b.leases, x)
      ensures Lookup(a.versions, x) == Lookup(b.versions, x) && (x in a.marks <==> x in b.marks)
    {
      CommitTwice(c, tid, t, s, pending, cfg, x);
    }
    SameCache(a, b);
  }

  lemma CommitTwice(c: Cache, tid: Tid, t: set<Key>, s: set<Key>, pending: int, cfg: int, x: Key)
    requires t !! s && Taken(c, t) == t && Taken(c, t + s) == t + s
    requires var c1 := CommitOn(c, tid, t, pending, cfg); Taken(c1, s) == s
    ensures var c1 := CommitOn(c, tid, t, pending, cfg);
            var a, b := CommitOn(c1, tid, s, pending, cfg), CommitOn(c, tid, t + s, pending, cfg);
            && Lookup(a.values, x) == Lookup(b.values, x) && Lookup(a.leases, x) == Lookup(b.leases, x)
            && Lookup(a.versions, x) == Lookup(b.versions, x) && (x in a.marks <==> x in b.marks)
  {
    var c1 := CommitOn(c, tid, t, pending, cfg);
    CommitLookup(c, tid, t, pending, cfg, x);
    CommitLookup(c1, tid, s, pending, cfg, x);
    CommitLookup(c, tid, t + s, pending, cfg, x);
    if x in s {
      SameCommit(c, c1, tid, pending, x);
    }
  }

  /** What commit makes of a key depends on that key only. */
  lemma SameCommit(c: Cache, c1: Cache, tid: Tid, pending: int, x: Key)
    requires Lookup(c1.values, x) == Lookup(c.values, x) && Lookup(c1.leases, x) == Lookup(c.leases, x)
    requires Lookup(c1.versions, x) == Lookup(c.versions, x) && (x in c1.marks <==> x in c.marks)
    requires Expiry(c1) == Expiry(c)
    ensures (Publishes(c1, x) <==> Publishes(c, x)) && (x in c.versions ==> c1.versions[x] == c.versions[x])
    ensures x in c.leases ==> CommitLease(c1, tid, x) == CommitLease(c, tid, x)
    ensures MarkAfter(c1, x, pending) <==> MarkAfter(c, x, pending)
  {
    assert x in c.leases ==> c1.leases[x] == c.leases[x];
  }

  /** The rounds of the loop, one key after the other. */
  ghost function CommitEach(c: Cache, tid: Tid, keys: seq<Key>, pending: int, cfg: int): Cache {
    if keys == [] then c
    else
      var c1 := CommitEach(c, tid, keys[..|keys|-1], pending, cfg);
      CommitOn(c1, tid, Taken(c1, {keys[|keys|-1]}), pending, cfg)
  }

  lemma {:induction false} CommitAll(c: Cache, tid: Tid, keys: seq<Key>, pending: int, cfg: int)
    requires NoDuplicates(keys)
    ensures CommitEach(c, tid, keys, pending, cfg)
         == CommitOn(c, tid, Taken(c, SetOf(keys)), pending, cfg)
  {
    if keys == [] {
      CommitNothing(c, tid, pending, cfg);
      assert SetOf(keys) == {};
    } else {
      var n := |keys| - 1;
      CommitAll(c, tid, keys[..n], pending, cfg);
      CommitMore(c, tid, SetOf(keys[..n]), keys[n], pending, cfg);
      assert SetOf(keys) == SetOf(keys[..n]) + {keys[n]};
    }
  }

  lemma ReleaseNothing(c: Cache)
    ensures ReleaseOn(c, Taken(c, {})) == c
  {
    assert Taken(c, {}) == {};
    assert c.leases - {} == c.leases && c.versions - {} == c.versions;
  }

  lemma ReleaseMore(c: Cache, ks: set<Key>, k: Key)
    requires k !in ks
    ensures var c1 := ReleaseOn(c, Taken(c, ks));
            ReleaseOn(c1, Taken(c1, {k})) == ReleaseOn(c, Taken(c, ks + {k}))
  {
    var c1 := ReleaseOn(c, Taken(c, ks));
    var s, t, t' := Taken(c1, {k}), Taken(c, ks), Taken(c, ks + {k});
    assert t' == t + s;
    assert c.leases - t - s == c.leases - t' && c.versions - t - s == c.versions - t';
  }

  ghost function ReleaseEach(c: Cache, keys: seq<Key>): Cache {
    if keys == [] then c
    else
      var c1 := ReleaseEach(c, keys[..|keys|-1]);
      ReleaseOn(c1, Taken(c1, {keys[|keys|-1]}))
  }

  lemma {:induction false} ReleaseAll(c: Cache, keys: seq<Key>)
    requires NoDuplicates(keys)
    ensures ReleaseEach(c, keys) == ReleaseOn(c, Taken(c, SetOf(keys)))
  {
    if keys == [] {
      ReleaseNothing(c);
      assert SetOf(keys) == {};
    } else {
      var n := |keys| - 1;
      ReleaseAll(c, keys[..n]);
      ReleaseMore(c, SetOf(keys[..n]), keys[n]);
      assert SetOf(keys) == SetOf(keys[..n]) + {keys[n]};
    }
  }
}
