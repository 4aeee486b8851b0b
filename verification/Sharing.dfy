/** Who is on the shared Q leases of the invalidation protocol, over whole runs.

    A book is kept of registrations alone: which transactions have registered for a key
    and not yet given it up, when that last changed, and which keys each transaction has
    gathered since its list began.  It looks at no lease and no list of the cache; the
    claim is that the cache says the same at every moment of every run of module
    Freshness. */
module Sharing {
  import opened Bytes
  import opened LeaseSpec
  import Keylist
  import F = Freshness

  datatype List = List(keys: set<Key>, since: nat)

  datatype Book = Book(holders: set<(Tid, Key)>, renewed: map<Key, nat>, lists: map<Tid, List>, now: nat, life: nat)

  predicate Over(since: nat, b: Book, later: nat) { since + b.life <= later }

  /** A transaction registers for a key: it joins the holders unless it is one, and the
      key joins its list unless it is on it. */
  function Register(b: Book, tid: Tid, k: Key): Book {
    var listed := tid in b.lists && k in b.lists[tid].keys;
    var keys := if tid in b.lists then b.lists[tid].keys else {};
    b.(holders := b.holders + {(tid, k)},
       renewed := if (tid, k) in b.holders then b.renewed else b.renewed[k := b.now],
       lists := if listed then b.lists else b.lists[tid := List(keys + {k}, b.now)])
  }

  /** A transaction gives up the keys on its list. */
  function GiveUp(b: Book, tid: Tid): Book {
    if tid !in b.lists then b
    else
      var ks := b.lists[tid].keys;
      b.(holders := (set x | x in b.holders && !(x.0 == tid && x.1 in ks)),
         renewed := (map k | k in b.renewed :: if k in ks && (tid, k) in b.holders then b.now else b.renewed[k]),
         lists := b.lists - {tid})
  }

  /** Time passes: what nobody has renewed for a lease's life is over. */
  function Pass(b: Book, d: nat): Book {
    var later := b.now + d;
    b.(holders := (set x | x in b.holders && x.1 in b.renewed && !Over(b.renewed[x.1], b, later)),
       lists := (map tid | tid in b.lists && !Over(b.lists[tid].since, b, later) :: b.lists[tid]),
       now := later)
  }

  function Recorded(b: Book, s: F.Step): Book {
    match s
    case QaRegStep(tid, k) => Register(b, tid, k)
    case DarStep(tid) => GiveUp(b, tid)
    case TickStep(d) => Pass(b, d)
    case _ => b
  }

  function RecordedAll(b: Book, steps: seq<F.Step>): Book
    decreases |steps|
  {
    if steps == [] then b else RecordedAll(Recorded(b, steps[0]), steps[1..])
  }

  function Opened(c: Cache): Book { Book({}, map[], map[], c.now, c.life) }

  // ---------- the claim ----------

  predicate OnLease(c: Cache, tid: Tid, k: Key) {
    F.Quarantined(c, k) && tid in c.leases[k].it.tids
  }

  ghost predicate LeasesAgree(b: Book, c: Cache) {
    && (forall tid, k :: OnLease(c, tid, k) <==> (tid, k) in b.holders)
    && (forall k :: F.Quarantined(c, k) ==>
          && Keylist.Sorted(c.leases[k].it.tids) && c.leases[k].it.tids != []
          && k in b.renewed && c.leases[k].exp == b.renewed[k] + b.life)
  }

  ghost predicate ListsAgree(b: Book, c: Cache) {
    && (forall tid :: tid in c.trans <==> tid in b.lists)
    && (forall tid :: tid in c.trans ==>
          SetOf(c.trans[tid].it) == b.lists[tid].keys && c.trans[tid].exp == b.lists[tid].since + b.life)
  }

  ghost predicate Agrees(b: Book, c: Cache) {
    b.now == c.now && b.life == c.life && b.life > 0 && LeasesAgree(b, c) && ListsAgree(b, c)
  }

  // ---------- every step keeps it ----------

  /** Commands that leave Q leases and lists alone. */
  lemma SameLeases(b: Book, c: Cache, c': Cache)
    requires Agrees(b, c) && c'.now == c.now && c'.life == c.life && c'.trans == c.trans
    requires forall k :: F.Quarantined(c, k) || F.Quarantined(c', k) ==>
               k in c.leases && k in c'.leases && c'.leases[k] == c.leases[k]
    ensures Agrees(b, c')
  {
    forall tid, k ensures OnLease(c', tid, k) <==> OnLease(c, tid, k) {
    }
  }

  lemma RegisterLeases(b: Book, c: Cache, tid: Tid, k: Key)
    requires Agrees(b, c) && Registrable(c, k)
    ensures LeasesAgree(Register(b, tid, k), QaReg(c, tid, k))
  {
    var b', c' := Register(b, tid, k), QaReg(c, tid, k);
    var shared := F.Quarantined(c, k);
    var tids := if shared then c.leases[k].it.tids else [];
    Keylist.InsertMembers(tids, tid);
    Keylist.InsertSorted(tids, tid);
    forall t, x ensures OnLease(c', t, x) <==> (t, x) in b'.holders {
      assert OnLease(c, t, x) <==> (t, x) in b.holders;
      assert x == k && !shared ==> !OnLease(c, t, x);
    }
    assert OnLease(c, tid, k) <==> (tid, k) in b.holders;
  }

  lemma RegisterLists(b: Book, c: Cache, tid: Tid, k: Key)
    requires Agrees(b, c) && Registrable(c, k)
    ensures ListsAgree(Register(b, tid, k), QaReg(c, tid, k))
  {
    var keys := if tid in c.trans then c.trans[tid].it else [];
    Keylist.InsertMembers(keys, k);
    assert SetOf(Keylist.Insert(keys, k)) == SetOf(keys) + {k};
  }

  lemma GiveUpLeases(b: Book, c: Cache, tid: Tid)
    requires Agrees(b, c)
    ensures LeasesAgree(GiveUp(b, tid), Dar(c, tid).0)
  {
    if tid in c.trans {
      var b', c' := GiveUp(b, tid), Dar(c, tid).0;
      forall t, k ensures OnLease(c', t, k) <==> (t, k) in b'.holders {
        GivenUp(b, c, tid, k);
        assert OnLease(c, t, k) <==> (t, k) in b.holders;
      }
      forall k | F.Quarantined(c', k)
        ensures Keylist.Sorted(c'.leases[k].it.tids) && c'.leases[k].it.tids != []
        ensures k in b'.renewed && c'.leases[k].exp == b'.renewed[k] + b'.life
      {
        GivenUp(b, c, tid, k);
      }
    }
  }

  /** What dar does to one key's Q lease: it stays as it was unless the transaction is on
      it and gives the key up; then the transaction leaves it, and the last one takes the
      lease along. */
  lemma GivenUp(b: Book, c: Cache, tid: Tid, k: Key)
    requires Agrees(b, c) && tid in c.trans
    ensures var c' := Dar(c, tid).0;
            if OnLease(c, tid, k) && InTrans(c, tid, k) then
              && (F.Quarantined(c', k) <==> c.leases[k].it.tids != [tid])
              && (F.Quarantined(c', k) ==>
                    && (forall t :: t in c'.leases[k].it.tids <==> t in c.leases[k].it.tids && t != tid)
                    && Keylist.Sorted(c'.leases[k].it.tids) && c'.leases[k].it.tids != []
                    && c'.leases[k].exp == c.now + c.life)
            else
              && (F.Quarantined(c', k) <==> F.Quarantined(c, k))
              && (F.Quarantined(c, k) ==> c'.leases[k] == c.leases[k])
  {
    if F.Quarantined(c, k) && InTrans(c, tid, k) {
      var tids := c.leases[k].it.tids;
      Keylist.RemoveMembers(tids, tid);
      if tid in tids && |tids| > 1 {
        Keylist.SortedDistinct(tids);
        var other := if tids[0] == tid then tids[1] else tids[0];
        assert other in tids && other != tid;
        assert other in Keylist.Remove(tids, tid);
      }
    }
  }

  lemma PassAgrees(b: Book, c: Cache, d: nat)
    requires Agrees(b, c)
    ensures Agrees(Pass(b, d), Tick(c, d))
  {
    var b', c' := Pass(b, d), Tick(c, d);
    forall t, k ensures OnLease(c', t, k) <==> (t, k) in b'.holders {
      assert OnLease(c, t, k) <==> (t, k) in b.holders;
    }
  }

  lemma StepAgrees(b: Book, w: F.World, s: F.Step)
    requires Agrees(b, w.c) && F.Enabled(w, s)
    ensures Agrees(Recorded(b, s), F.After(w, s).c)
  {
    match s
    case QaRegStep(tid, k) =>
      RegisterLeases(b, w.c, tid, k);
      RegisterLists(b, w.c, tid, k);
    case DarStep(tid) => GiveUpLeases(b, w.c, tid);
    case TickStep(d) => PassAgrees(b, w.c, d);
    case IqGetStep(k, token, from, override) =>
      IqGetCases(w.c, k, token, from, override);
      SameLeases(b, w.c, F.After(w, s).c);
    case _ => SameLeases(b, w.c, F.After(w, s).c);
  }

  lemma {:induction false} RunAgrees(b: Book, w: F.World, steps: seq<F.Step>)
    requires Agrees(b, w.c) && F.ValidRun(w, steps)
    ensures Agrees(RecordedAll(b, steps), F.Final(w, steps).c)
    decreases |steps|
  {
    if steps != [] {
      StepAgrees(b, w, steps[0]);
      RunAgrees(Recorded(b, steps[0]), F.After(w, steps[0]), steps[1..]);
    }
  }

  /** In every run, the transactions on a key's Q lease are exactly those that have
      registered for it and not given it up, the lease lasts a life from the last change
      among them, and each transaction's list holds exactly what it has gathered. */
  lemma LeasesSayWhoRegistered(w: F.World, steps: seq<F.Step>)
    requires F.Init(w) && F.ValidRun(w, steps)
    ensures Agrees(RecordedAll(Opened(w.c), steps), F.Final(w, steps).c)
  {
    RunAgrees(Opened(w.c), w, steps);
  }

  /** In every run, while somebody is registered for a key, no reader gets a lease on it,
      whatever others register or give up. */
  lemma NoReaderWhileRegistered(w: F.World, steps: seq<F.Step>, tid: Tid, k: Key,
                                token: Token, from: Option<Tid>, override: bool)
    requires F.Init(w) && F.ValidRun(w, steps)
    requires (tid, k) in RecordedAll(Opened(w.c), steps).holders
    ensures var c := F.Final(w, steps).c;
            OnLease(c, tid, k) && !IqGet(c, k, token, from, override).1.Leased?
  {
    LeasesSayWhoRegistered(w, steps);
    var c := F.Final(w, steps).c;
    assert OnLease(c, tid, k);
    IqGetCases(c, k, token, from, override);
  }

  /** In every run, a dar that gives a key up drops its Q lease exactly when nobody else
      is registered for it. */
  lemma LastOneDropsLease(w: F.World, steps: seq<F.Step>, tid: Tid, k: Key)
    requires F.Init(w) && F.ValidRun(w, steps)
    requires var b := RecordedAll(Opened(w.c), steps); (tid, k) in b.holders && tid in b.lists && k in b.lists[tid].keys
    ensures var b, c' := RecordedAll(Opened(w.c), steps), Dar(F.Final(w, steps).c, tid).0;
            k !in c'.leases <==> forall t :: (t, k) in b.holders ==> t == tid
  {
    LeasesSayWhoRegistered(w, steps);
    var b, c := RecordedAll(Opened(w.c), steps), F.Final(w, steps).c;
    assert OnLease(c, tid, k);
    GivenUp(b, c, tid, k);
    var tids := c.leases[k].it.tids;
    Keylist.SortedDistinct(tids);
    assert forall t :: t in tids <==> OnLease(c, t, k);
    if |tids| > 1 {
      var other := if tids[0] == tid then tids[1] else tids[0];
      assert OnLease(c, other, k);
    }
  }
}
