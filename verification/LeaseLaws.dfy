/** Short dialogues with the cache, from any state: what one client is told after what
    it or another has done. */
module LeaseLaws {
  import opened Bytes
  import opened LeaseSpec
  import Keylist

  function Ask(c: Cache, k: Key): IqReply { IqGet(c, k, 0, None, false).1 }

  // ---------- readers ----------

  /** A reader that is given a lease and stores a value with it is believed; from then on
      readers get that value, with its stamp and the pending flag that the miss reported,
      until it expires, and then a reader is given a lease with nothing pending. */
  lemma StoredUntilExpiry(c: Cache, k: Key, token: Token, from: Option<Tid>, override: bool,
                          v: Value, exp: nat, cfg: int, d: nat)
    requires IqGet(c, k, token, from, override).1.Leased? && k !in c.values
    ensures var (c1, r) := IqGet(c, k, token, from, override);
            var (c2, ok) := IqSet(c1, k, r.token, v, exp, cfg);
            && ok && k !in c2.leases
            && Ask(Tick(c2, d), k) ==
               if exp == 0 || c.now + d < exp then Hit(Item(v, r.pending, cfg)) else Leased(c.nextToken + 1, 0)
  {
    IqGetCases(c, k, token, from, override);
  }

  /** A lease lasts its life and no longer: until then another reader is told to wait and
      the holder that there is still no value; after it the next reader is given the next
      token, and the old one stores nothing. */
  lemma LeaseLastsItsLife(c: Cache, k: Key, v: Bytes, exp: nat, cfg: int, d: nat)
    requires k !in c.values && k !in c.leases && c.life > 0 && c.nextToken >= LEASE_START
    ensures var c1 := IqGet(c, k, 0, None, false).0;
            var c2 := Tick(c1, d);
            if d < c.life then
              && Ask(c2, k) == Miss(PendingOf(c, k))
              && IqGet(c2, k, c.nextToken, None, false) == (c2, NoValue)
            else
              && Ask(c2, k) == Leased(c.nextToken + 1, PendingOf(c, k))
              && !IqSet(c2, k, c.nextToken, v, exp, cfg).1
  {
  }

  /** Whoever is given a lease, also by overriding a cached value, leaves nothing for other
      readers to hit: they wait, and the flag they are told is that of the mark. */
  lemma GrantGivesUpValue(c: Cache, k: Key, token: Token, from: Option<Tid>, override: bool)
    requires IqGet(c, k, token, from, override).1.Leased? && c.nextToken >= LEASE_START
    ensures var c1 := IqGet(c, k, token, from, override).0;
            Ask(c1, k) == Miss(if k in c.marks then 1 else 0)
  {
    IqGetCases(c, k, token, from, override);
  }

  /** Only the token of the key's own I lease stores a value, and only once; an empty value
      is never stored. */
  lemma StoresOnce(c: Cache, k: Key, token: Token, v: Bytes, exp: nat, cfg: int, v': Bytes, exp': nat, cfg': int)
    ensures var (c1, ok) := IqSet(c, k, token, v, exp, cfg);
            && (ok <==> v != [] && Lookup(c.leases, k).Some? && c.leases[k].it == I(token))
            && (!ok ==> c1 == c)
            && (ok ==> IqSet(c1, k, token, v', exp', cfg') == (c1, false))
  {
  }

  /** unlease with the reader's token lets the next reader in and shuts the first out;
      with any other token it does nothing. */
  lemma UnleaseLetsIn(c: Cache, k: Key, t: Token, token: Token, v: Bytes, exp: nat, cfg: int)
    requires k !in c.values && k in c.leases && c.leases[k].it == I(t)
    ensures var c1 := Unlease(c, k, token);
            if token == t then
              Ask(c1, k) == Leased(c.nextToken, PendingOf(c, k)) && !IqSet(c1, k, t, v, exp, cfg).1
            else c1 == c
  {
  }

  /** A deleted value is gone, and the next reader is given a lease if nobody has one. */
  lemma DeletedIsMissed(c: Cache, k: Key)
    ensures var (c1, found) := Delete(c, k);
            && (found <==> k in c.values)
            && !Ask(c1, k).Hit?
            && (k !in c.leases ==> Ask(c1, k).Leased?)
  {
  }

  // ---------- writers ----------

  /** Registering a writer leaves readers the cached value, shuts out the reader that was
      about to store one, and, once the writer is done, leaves no value: the next reader is
      given a lease. */
  lemma WriterShutsOutReader(c: Cache, tid: Tid, k: Key, t: Token, v: Bytes, exp: nat, cfg: int)
    requires tid !in c.trans && (k in c.leases ==> c.leases[k].it == I(t)) && c.life > 0
    ensures var c1 := QaReg(c, tid, k);
            var (c2, done) := Dar(c1, tid);
            && Ask(c1, k) == (if k in c.values then Hit(c.values[k].it) else Miss(PendingOf(c, k)))
            && !IqSet(c1, k, t, v, exp, cfg).1
            && done && k !in c2.leases && Ask(c2, k).Leased?
            && (forall x :: x != k ==>
                  Lookup(c2.values, x) == Lookup(c.values, x) && Lookup(c2.leases, x) == Lookup(c.leases, x))
            && c2.trans == c.trans
  {
    var c1 := QaReg(c, tid, k);
    assert c1.leases[k].it == QInv([tid]);
    assert c1.trans[tid].it == [k];
    assert KeysOf(c1, tid) == {k};
    assert c1.trans - {tid} == c.trans;
  }

  /** A quarantine lasts its life and no longer: then the lease, the copy of the value and
      the transaction's list are gone together, and the published value is not. */
  lemma QuarantineLastsItsLife(c: Cache, tid: Tid, k: Key, d: nat)
    requires tid !in c.trans && k !in c.versions && (k in c.leases ==> c.leases[k].it.I?) && c.life > 0
    ensures var c1 := Tick(QaRead(c, tid, k, 0).0, d);
            && (k in c1.leases <==> d < c.life)
            && (k in c1.versions <==> k in c.values && d < c.life)
            && (tid in c1.trans <==> d < c.life)
            && c1.values == Live(c.values, c.now + d)
  {
  }

  /** swap is believed exactly when its token is that of the key's lease.  A value that is
      not empty then becomes the pending version, for a life from now; the flag told with
      it stays what it was, and a mark that it came from is used up. */
  lemma SwapTells(c: Cache, k: Key, token: Token, v: Bytes, d: nat)
    requires c.life > 0
    ensures var (c1, r) := Swap(c, k, token, v);
            && (r.Swapped? <==> k in c.leases && LeaseValue(c.leases[k].it) == token)
            && (r.SwapNotFound? || v == [] ==> c1 == c)
            && (r.Swapped? && v != [] ==>
                  && ItemVal(c1.versions, k) == Some(v) && VersionPending(c1, k) == VersionPending(c, k)
                  && (k in Tick(c1, d).versions <==> d < c.life)
                  && (k in c1.marks <==> k in c.marks && k in c.versions)
                  && c1.versions - {k} == c.versions - {k} && c1.values == c.values && c1.leases == c.leases)
  {
    var c1 := Swap(c, k, token, v).0;
    assert c1.versions - {k} == c.versions - {k};
  }

  /** A key read for refresh and the value replaced: the transaction has the key alone. */
  ghost predicate Refreshed(c: Cache, tid: Tid, k: Key, v: Value, c': Cache) {
    && c'.values == c.values && k in c'.leases && c'.leases[k].it.QRef? && c'.leases - {k} == c.leases - {k}
    && ItemVal(c'.versions, k) == Some(v) && c'.versions - {k} == c.versions
    && tid in c'.trans && c'.trans[tid].it == [k] && c'.trans - {tid} == c.trans
  }

  lemma RefreshIs(c: Cache, tid: Tid, k: Key, v: Value)
    requires tid !in c.trans && k !in c.versions && (k in c.leases ==> c.leases[k].it.I?)
    ensures var (c1, r) := QaRead(c, tid, k, 0);
            var (c2, s) := Swap(c1, k, r.token, v);
            r.item == ItemVal(c.values, k) && s == Swapped && Refreshed(c, tid, k, v, c2)
  {
    var (c1, r) := QaRead(c, tid, k, 0);
    var c2 := Swap(c1, k, r.token, v).0;
    assert c2.trans[tid].it == Keylist.Insert([], k) == [k];
    assert c2.trans - {tid} == c.trans;
    assert c2.versions - {k} == c.versions;
    assert c2.leases - {k} == c.leases - {k};
  }

  /** Committing it publishes the new value under the commit's stamp and flag, and changes
      no other key. */
  lemma RefreshCommitted(c: Cache, tid: Tid, k: Key, v: Value, c2: Cache, pending: int, cfg: int)
    requires Refreshed(c, tid, k, v, c2)
    ensures var (c3, done) := Commit(c2, tid, pending, cfg);
            && done && Ask(c3, k) == Hit(Item(v, pending % 256, cfg)) && k !in c3.leases
            && c3.values - {k} == c.values - {k} && c3.leases == c.leases - {k}
            && c3.versions == c.versions && c3.trans == c.trans
  {
    assert Taken(c2, KeysOf(c2, tid)) == {k};
    var c3 := Commit(c2, tid, pending, cfg).0;
    assert c3.leases == c.leases - {k};
    assert c3.values - {k} == c.values - {k};
  }

  /** Releasing it leaves what was there. */
  lemma RefreshReleased(c: Cache, tid: Tid, k: Key, v: Value, c2: Cache)
    requires Refreshed(c, tid, k, v, c2)
    ensures var (c3, done) := Release(c2, tid);
            && done && c3.values == c.values && c3.leases == c.leases - {k}
            && c3.versions == c.versions && c3.trans == c.trans
  {
    assert Taken(c2, KeysOf(c2, tid)) == {k};
  }

  /** Reading a key for refresh, replacing the value and committing publishes the new
      value under the commit's stamp and flag; releasing instead leaves what was there. */
  lemma RefreshRoundTrip(c: Cache, tid: Tid, k: Key, v: Value, pending: int, cfg: int)
    requires tid !in c.trans && k !in c.versions && (k in c.leases ==> c.leases[k].it.I?)
    ensures var (c1, r) := QaRead(c, tid, k, 0);
            var (c2, s) := Swap(c1, k, r.token, v);
            var c3, c4 := Commit(c2, tid, pending, cfg).0, Release(c2, tid).0;
            && r.item == ItemVal(c.values, k) && s == Swapped
            && Ask(c3, k) == Hit(Item(v, pending % 256, cfg)) && c3.values - {k} == c.values - {k}
            && c4.values == c.values
            && c3.leases == c4.leases == c.leases - {k}
            && c3.versions == c4.versions == c.versions && c3.trans == c4.trans == c.trans
  {
    RefreshIs(c, tid, k, v);
    var (c1, r) := QaRead(c, tid, k, 0);
    var c2 := Swap(c1, k, r.token, v).0;
    RefreshCommitted(c, tid, k, v, c2, pending, cfg);
    RefreshReleased(c, tid, k, v, c2);
  }

  /** A transaction whose keys are all under shared leases ends the same way by commit as
      by dar: the same values and leases are left. */
  lemma CommitOfInvalidationIsDar(c: Cache, tid: Tid, pending: int, cfg: int)
    requires tid in c.trans
    requires forall k :: k in KeysOf(c, tid) ==> k in c.leases && c.leases[k].it.QInv?
    ensures var (c1, done) := Commit(c, tid, pending, cfg);
            var (c2, done') := Dar(c, tid);
            done == done' && c1.values == c2.values && c1.leases == c2.leases && c1.trans == c2.trans
  {
    var ks := KeysOf(c, tid);
    assert Taken(c, ks) == ks;
    CommitOnShared(c, tid, ks, pending, cfg);
  }

  lemma CommitOnShared(c: Cache, tid: Tid, ks: set<Key>, pending: int, cfg: int)
    requires forall k :: k in ks ==> k in c.leases && c.leases[k].it.QInv?
    ensures CommitOn(c, tid, ks, pending, cfg).values == c.values - ks
    ensures CommitOn(c, tid, ks, pending, cfg).leases == DarOn(c, tid, ks).leases
  {
    assert forall k :: k in ks ==> CommitLease(c, tid, k) == DarLease(c, tid, k);
  }
}
