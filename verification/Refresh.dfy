/** Freshness of the refresh and incremental techniques over whole runs.

    Writers quarantine a key, change the database and give their pending version the
    same value before they commit; readers take an I lease, read the database and fill
    the cache.  Added to the runs of module Isolation: the database, what it held when
    each quarantine began, and what each reader has read. */
module Refresh {
  import opened Bytes
  import opened LeaseSpec
  import Keylist
  import I = Isolation
  import F = Freshness

  datatype World = World(
    iso: I.World,
    db: map<Key, Value>,
    base: map<Key, Option<Value>>,
    readers: map<Token, F.Reader>)

  datatype Step =
    | Command(s: I.Step)
    | DbRead(reader: Token)
    | Fill(reader: Token, exp: nat, cfg: int)
    | DbWrite(tid: Tid, k: Key, v: Option<Value>)

  /** The pending versions of tid's keys are what the database holds. */
  ghost predicate UpToDate(w: World, tid: Tid) {
    forall k :: InTrans(w.iso.c, tid, k) && k in w.iso.c.versions ==>
      Lookup(w.db, k) == Some(w.iso.c.versions[k].it.val)
  }

  /** Writers have changed k in the database since its quarantine began. */
  predicate Overtaken(w: World, k: Key) {
    k in w.base && Lookup(w.db, k) != w.base[k]
  }

  /** No cached key of tid has been changed in the database. */
  ghost predicate Untouched(w: World, tid: Tid) {
    forall k :: InTrans(w.iso.c, tid, k) && k in w.iso.c.values ==> !Overtaken(w, k)
  }

  /** What clients keep to, besides what module Isolation asks.  A reader stores only what
      it read after it got its lease; a writer changes k only while k is on its list and
      leased; it commits once its versions say what it has written, and releases only
      what it has not changed. */
  ghost predicate Enabled(w: World, s: Step) {
    match s
    case Command(c) =>
      && I.Enabled(w.iso, c) && !c.IqSetStep?
      && (c.CommitStep? ==> UpToDate(w, c.tid)) && (c.ReleaseStep? ==> Untouched(w, c.tid))
    case DbRead(t) => t in w.readers && w.readers[t].k in w.db
    case Fill(t, _, _) => t in w.readers && w.readers[t].HasRead?
    case DbWrite(tid, k, _) => I.QLeased(w.iso.c, k) && InTrans(w.iso.c, tid, k)
  }

  /** The key on which a command takes a new Q lease. */
  ghost function Quarantining(c: Cache, s: I.Step): Option<Key> {
    if (s.QaReadStep? || s.IqOpStep?) && !I.QLeased(c, s.k) then Some(s.k) else None
  }

  ghost function AfterCommand(w: World, s: I.Step): World {
    var q := Quarantining(w.iso.c, s);
    var iso := I.After(w.iso, s);
    var granted := s.IqGetStep? && IqGet(w.iso.c, s.k, s.token, s.from, s.override).1.Leased?;
    World(iso, w.db,
          if q.Some? then w.base[q.value := Lookup(w.db, q.value)] else w.base,
          if granted then w.readers[w.iso.c.nextToken := F.Granted(s.k)] else w.readers)
  }

  ghost function After(w: World, s: Step): World
    requires Enabled(w, s)
  {
    match s
    case Command(c) => AfterCommand(w, c)
    case DbRead(t) =>
      var k := w.readers[t].k;
      w.(readers := w.readers[t := F.HasRead(k, w.db[k])])
    case Fill(t, exp, cfg) =>
      var r := w.readers[t];
      w.(iso := I.After(w.iso, I.IqSetStep(r.k, t, r.v, exp, cfg)))
    case DbWrite(_, k, v) => w.(db := if v.Some? then w.db[k := v.value] else w.db - {k})
  }

  ghost predicate ValidRun(w: World, steps: seq<Step>)
    decreases |steps|
  {
    steps == [] || (Enabled(w, steps[0]) && ValidRun(After(w, steps[0]), steps[1..]))
  }

  ghost function Final(w: World, steps: seq<Step>): World
    requires ValidRun(w, steps)
    decreases |steps|
  {
    if steps == [] then w else Final(After(w, steps[0]), steps[1..])
  }

  predicate Init(w: World) {
    I.Init(w.iso) && w.base == map[] && w.readers == map[]
  }

  // ---------- the claim and the invariant ----------

  predicate FreshAt(w: World, k: Key)
    requires k in w.iso.c.values
  {
    Lookup(w.db, k) == Some(w.iso.c.values[k].it.val)
  }

  /** Whatever is cached and not quarantined is what the database holds. */
  ghost predicate Fresh(w: World) {
    forall k :: k in w.iso.c.values && !I.QLeased(w.iso.c, k) ==> FreshAt(w, k)
  }

  /** A quarantined value is the one from before the quarantine. */
  ghost predicate Kept(w: World) {
    forall k :: k in w.iso.c.values && I.QLeased(w.iso.c, k) ==>
      k in w.base && w.base[k] == Some(w.iso.c.values[k].it.val)
  }

  predicate ReaderOk(w: World, k: Key)
    requires k in w.iso.c.leases
  {
    var l := w.iso.c.leases[k].it;
    l.I? ==>
      && l.token in w.readers && w.readers[l.token].k == k
      && (w.readers[l.token].HasRead? ==> Lookup(w.db, k) == Some(w.readers[l.token].v))
  }

  ghost predicate ReadersOk(w: World) {
    && (forall k :: k in w.iso.c.leases ==> ReaderOk(w, k))
    && (forall t :: t in w.readers ==> t < w.iso.c.nextToken)
  }

  ghost predicate Inv(w: World) {
    I.Inv(w.iso) && Fresh(w) && Kept(w) && ReadersOk(w)
  }

  // ---------- every step keeps it ----------

  /** Commands that leave values, leases and tokens alone. */
  lemma SameItems(w: World, w': World)
    requires Inv(w) && I.Inv(w'.iso) && w' == w.(iso := w'.iso)
    requires w'.iso.c.values == w.iso.c.values && w'.iso.c.leases == w.iso.c.leases
    requires w'.iso.c.nextToken == w.iso.c.nextToken
    ensures Inv(w')
  {
  }

  /** Values and I leases may go away at any time. */
  lemma FewerItems(w: World, w': World)
    requires Inv(w) && I.Inv(w'.iso) && w' == w.(iso := w'.iso) && w'.iso.c.nextToken == w.iso.c.nextToken
    requires forall k :: k in w'.iso.c.values ==> k in w.iso.c.values && w'.iso.c.values[k] == w.iso.c.values[k]
    requires forall k :: k in w'.iso.c.leases ==> k in w.iso.c.leases && w'.iso.c.leases[k] == w.iso.c.leases[k]
    requires forall k :: I.QLeased(w.iso.c, k) ==> I.QLeased(w'.iso.c, k)
    ensures Inv(w')
  {
    forall k | k in w'.iso.c.values ensures I.QLeased(w'.iso.c, k) <==> I.QLeased(w.iso.c, k) {
    }
  }

  lemma QuarantineKeeps(w: World, tid: Tid, k: Key, l: Lease, iso: I.World)
    requires Inv(w) && !I.QLeased(w.iso.c, k) && IsQ(l) && I.Inv(iso)
    requires var c := Quarantine(w.iso.c, tid, k, l);
             iso.c.values == c.values && iso.c.leases == c.leases && iso.c.nextToken == c.nextToken
    ensures Inv(w.(iso := iso, base := w.base[k := Lookup(w.db, k)]))
  {
  }

  lemma QaReadKeeps(w: World, tid: Tid, k: Key, token: Token)
    requires Inv(w)
    ensures Inv(AfterCommand(w, I.QaReadStep(tid, k, token)))
  {
    I.QaReadKeeps(w.iso, tid, k, token);
    var iso := I.After(w.iso, I.QaReadStep(tid, k, token));
    if I.QLeased(w.iso.c, k) {
      SameItems(w, w.(iso := iso));
    } else {
      QuarantineKeeps(w, tid, k, QRef(w.iso.c.nextToken), iso);
    }
  }

  /** An operation changes no value, and takes a lease only on a key without a Q lease. */
  lemma IqOpItems(c: Cache, tid: Tid, k: Key, op: Op)
    ensures var c' := IqOp(c, tid, k, op).0;
            var c1 := if I.QLeased(c, k) then c else Quarantine(c, tid, k, QInc(c.nextToken));
            c'.values == c1.values && c'.leases == c1.leases && c'.nextToken == c1.nextToken
  {
  }

  lemma IqOpKeeps(w: World, tid: Tid, k: Key, op: Op)
    requires Inv(w)
    ensures Inv(AfterCommand(w, I.IqOpStep(tid, k, op)))
  {
    I.IqOpKeeps(w.iso, tid, k, op);
    IqOpItems(w.iso.c, tid, k, op);
    var iso := I.After(w.iso, I.IqOpStep(tid, k, op));
    if I.QLeased(w.iso.c, k) {
      SameItems(w, w.(iso := iso));
    } else {
      QuarantineKeeps(w, tid, k, QInc(w.iso.c.nextToken), iso);
    }
  }

  lemma SwapKeeps(w: World, k: Key, token: Token, data: Bytes)
    requires Inv(w) && token in w.iso.qTokens
    ensures Inv(AfterCommand(w, I.SwapStep(k, token, data)))
  {
    I.SwapKeeps(w.iso, k, token, data);
    SameItems(w, AfterCommand(w, I.SwapStep(k, token, data)));
  }

  lemma IqGetKeeps(w: World, k: Key, token: Token, from: Option<Tid>, override: bool)
    requires Inv(w)
    ensures Inv(AfterCommand(w, I.IqGetStep(k, token, from, override)))
  {
    I.IqGetKeeps(w.iso, k, token, from, override);
    IqGetCases(w.iso.c, k, token, from, override);
    GrantKeeps(w, k, AfterCommand(w, I.IqGetStep(k, token, from, override)).iso);
  }

  lemma GrantKeeps(w: World, k: Key, iso: I.World)
    requires Inv(w) && I.Inv(iso)
    ensures k !in w.iso.c.leases && iso.c == GrantI(w.iso.c, k).(values := w.iso.c.values - {k}) ==>
              Inv(w.(iso := iso, readers := w.readers[w.iso.c.nextToken := F.Granted(k)]))
  {
  }

  /** Commit publishes the versions, which are what the database holds. */
  lemma CommitKeeps(w: World, tid: Tid, pending: int, cfg: int)
    requires Inv(w) && UpToDate(w, tid)
    ensures Inv(AfterCommand(w, I.CommitStep(tid, pending, cfg)))
  {
    I.CommitKeeps(w.iso, tid, pending, cfg);
    if tid in w.iso.c.trans {
      I.OwnKeys(w.iso, tid);
      I.CommitShape(w.iso.c, tid, pending, cfg);
      var w' := AfterCommand(w, I.CommitStep(tid, pending, cfg));
      forall k | k in w'.iso.c.values && !I.QLeased(w'.iso.c, k) ensures FreshAt(w', k) {
        CommittedIsFresh(w, tid, pending, cfg, k);
      }
      forall k | k in w'.iso.c.values && I.QLeased(w'.iso.c, k)
        ensures k in w'.base && w'.base[k] == Some(w'.iso.c.values[k].it.val)
      {
        I.CommitOther(w.iso.c, tid, pending, cfg, k);
      }
    }
  }

  lemma CommittedIsFresh(w: World, tid: Tid, pending: int, cfg: int, k: Key)
    requires Inv(w) && UpToDate(w, tid)
    requires var c' := Commit(w.iso.c, tid, pending, cfg).0; k in c'.values && !I.QLeased(c', k)
    ensures Lookup(w.db, k) == Some(Commit(w.iso.c, tid, pending, cfg).0.values[k].it.val)
  {
    if InTrans(w.iso.c, tid, k) {
      I.OwnKeys(w.iso, tid);
      assert I.QLeased(w.iso.c, k);
    } else {
      I.CommitOther(w.iso.c, tid, pending, cfg, k);
    }
  }

  lemma ReleaseKeeps(w: World, tid: Tid)
    requires Inv(w) && Untouched(w, tid)
    ensures Inv(AfterCommand(w, I.ReleaseStep(tid)))
  {
    I.ReleaseKeeps(w.iso, tid);
    if tid in w.iso.c.trans {
      I.OwnKeys(w.iso, tid);
      var w' := AfterCommand(w, I.ReleaseStep(tid));
      forall k | k in w'.iso.c.values && !I.QLeased(w'.iso.c, k) ensures FreshAt(w', k) {
        assert I.QLeased(w.iso.c, k) ==> InTrans(w.iso.c, tid, k);
      }
    }
  }

  lemma CommandKeeps(w: World, s: I.Step)
    requires Inv(w) && Enabled(w, Command(s))
    ensures Inv(AfterCommand(w, s))
  {
    match s
    case QaReadStep(tid, k, token) => QaReadKeeps(w, tid, k, token);
    case SwapStep(k, token, data) => SwapKeeps(w, k, token, data);
    case IqOpStep(tid, k, op) => IqOpKeeps(w, tid, k, op);
    case CommitStep(tid, pending, cfg) => CommitKeeps(w, tid, pending, cfg);
    case ReleaseStep(tid) => ReleaseKeeps(w, tid);
    case IqGetStep(k, token, from, override) => IqGetKeeps(w, k, token, from, override);
    case _ =>
      I.StepKeeps(w.iso, s);
      FewerItems(w, AfterCommand(w, s));
  }

  /** What a reader stores under its live I lease is still what the database holds. */
  lemma FillKeeps(w: World, t: Token, exp: nat, cfg: int)
    requires Inv(w) && Enabled(w, Fill(t, exp, cfg))
    ensures Inv(After(w, Fill(t, exp, cfg)))
  {
    var r := w.readers[t];
    I.IqSetKeeps(w.iso, r.k, t, r.v, exp, cfg);
  }

  /** A write under a Q lease finds neither an I lease nor an unquarantined value. */
  lemma DbWriteKeeps(w: World, tid: Tid, k: Key, v: Option<Value>)
    requires Inv(w) && Enabled(w, DbWrite(tid, k, v))
    ensures Inv(After(w, DbWrite(tid, k, v)))
  {
  }

  lemma StepKeeps(w: World, s: Step)
    requires Inv(w) && Enabled(w, s)
    ensures Inv(After(w, s))
  {
    match s
    case Command(c) => CommandKeeps(w, c);
    case Fill(t, exp, cfg) => FillKeeps(w, t, exp, cfg);
    case DbWrite(tid, k, v) => DbWriteKeeps(w, tid, k, v);
    case DbRead(t) =>
  }

  lemma {:induction false} RunKeeps(w: World, steps: seq<Step>)
    requires Inv(w) && ValidRun(w, steps)
    ensures Inv(Final(w, steps))
    decreases |steps|
  {
    if steps != [] {
      StepKeeps(w, steps[0]);
      RunKeeps(After(w, steps[0]), steps[1..]);
    }
  }

  /** In every run, a cached value whose key is not quarantined is current. */
  lemma NoStaleValue(w: World, steps: seq<Step>)
    requires Init(w) && ValidRun(w, steps)
    ensures Fresh(Final(w, steps))
  {
    RunKeeps(w, steps);
  }

  /** In every run, iqget from outside a transaction returns the database value, or
      during a quarantine the value from when it began. */
  lemma NoStaleRead(w: World, steps: seq<Step>, k: Key, token: Token, tid: Option<Tid>, override: bool)
    requires Init(w) && ValidRun(w, steps)
    requires tid.Some? ==> !InTrans(Final(w, steps).iso.c, tid.value, k)
    requires IqGet(Final(w, steps).iso.c, k, token, tid, override).1.Hit?
    ensures var f := Final(w, steps);
            var v := IqGet(f.iso.c, k, token, tid, override).1.item.val;
            if I.QLeased(f.iso.c, k) then k in f.base && f.base[k] == Some(v) else Lookup(f.db, k) == Some(v)
  {
    RunKeeps(w, steps);
  }

  // ---------- what clients keep to is needed ----------

  /** Commit leaves every value fresh exactly when its versions are what the database
      holds. */
  lemma CommitKeepsExactlyWhen(w: World, tid: Tid, pending: int, cfg: int)
    requires Inv(w) && tid in w.iso.c.trans
    ensures Fresh(AfterCommand(w, I.CommitStep(tid, pending, cfg))) <==> UpToDate(w, tid)
  {
    var w' := AfterCommand(w, I.CommitStep(tid, pending, cfg));
    if UpToDate(w, tid) {
      CommitKeeps(w, tid, pending, cfg);
    } else {
      var k :| InTrans(w.iso.c, tid, k) && k in w.iso.c.versions && Lookup(w.db, k) != Some(w.iso.c.versions[k].it.val);
      I.OwnKeys(w.iso, tid);
      I.CommitShape(w.iso.c, tid, pending, cfg);
      assert k in KeysOf(w.iso.c, tid);
      assert k in w'.iso.c.values && !FreshAt(w', k);
    }
  }

  /** Release leaves every value fresh exactly when the database still holds, for each of
      the transaction's cached keys, what it held when the quarantine began. */
  lemma ReleaseKeepsExactlyWhen(w: World, tid: Tid)
    requires Inv(w) && tid in w.iso.c.trans
    ensures Fresh(AfterCommand(w, I.ReleaseStep(tid))) <==> Untouched(w, tid)
  {
    var w' := AfterCommand(w, I.ReleaseStep(tid));
    if Untouched(w, tid) {
      ReleaseKeeps(w, tid);
    } else {
      var k :| InTrans(w.iso.c, tid, k) && k in w.iso.c.values && Overtaken(w, k);
      I.OwnKeys(w.iso, tid);
      assert I.QLeased(w.iso.c, k) && k in w'.iso.c.values && !I.QLeased(w'.iso.c, k) && !FreshAt(w', k);
    }
  }

  // ---------- when Q leases run out ----------

  ghost function AfterTick(w: World, d: nat): World {
    w.(iso := w.iso.(c := Tick(w.iso.c, d)))
  }

  /** qaread ties the expiry of the version to the lease but not that of the value.  The
      clock keeps every value fresh exactly when no value of a key that writers have
      changed outlives the key's Q lease. */
  lemma TickKeepsExactlyWhen(w: World, d: nat)
    requires Inv(w)
    ensures var later := w.iso.c.now + d;
            Fresh(AfterTick(w, d)) <==>
            forall k :: I.QLeased(w.iso.c, k) && !LiveAt(w.iso.c.leases[k].exp, later) &&
                        k in w.iso.c.values && LiveAt(w.iso.c.values[k].exp, later) ==>
              !Overtaken(w, k)
  {
    var w', later := AfterTick(w, d), w.iso.c.now + d;
    forall k
      ensures k in w'.iso.c.values <==> k in w.iso.c.values && LiveAt(w.iso.c.values[k].exp, later)
      ensures k in w'.iso.c.values ==> w'.iso.c.values[k] == w.iso.c.values[k]
      ensures I.QLeased(w'.iso.c, k) <==> I.QLeased(w.iso.c, k) && LiveAt(w.iso.c.leases[k].exp, later)
    {
    }
    forall k | k in w'.iso.c.values && !I.QLeased(w'.iso.c, k)
      ensures FreshAt(w', k) <==> !I.QLeased(w.iso.c, k) || !Overtaken(w, k)
    {
    }
  }

  /** It happens: for every key, writer and new value a run from an empty cache ends where
      the passing of a lease's life makes iqget answer with the old value and no lease. */
  lemma ExpiryExposesStale(w: World, k: Key, tid: Tid, v: Value)
    requires Init(w) && k in w.db && w.db[k] != v
    ensures exists steps :: ValidRun(w, steps) && HitsOld(Final(w, steps), k)
  {
    var steps, f := OvertakingRun(w, k, tid, v);
    assert HitsOld(f, k);
  }

  /** A lease's life later the key has no lease, and iqget finds a value that is not the
      database's. */
  ghost predicate HitsOld(w: World, k: Key) {
    var c := Tick(w.iso.c, w.iso.c.life);
    var r := IqGet(c, k, 0, None, false).1;
    k !in c.leases && r.Hit? && Lookup(w.db, k) != Some(r.item.val)
  }

  lemma OneStep(w: World, s: Step, rest: seq<Step>, f: World)
    requires Enabled(w, s) && ValidRun(After(w, s), rest) && Final(After(w, s), rest) == f
    ensures ValidRun(w, [s] + rest) && Final(w, [s] + rest) == f
  {
    assert ([s] + rest)[1..] == rest;
  }

  /** A reader fills the cache and a writer overtakes the value under a Q lease. */
  lemma OvertakingRun(w: World, k: Key, tid: Tid, v: Value) returns (steps: seq<Step>, f: World)
    requires Init(w) && k in w.db && w.db[k] != v
    ensures ValidRun(w, steps) && Final(w, steps) == f
    ensures k in f.iso.c.values && f.iso.c.values[k].exp == 0 && f.iso.c.values[k].it.val == w.db[k]
    ensures k in f.iso.c.leases && f.iso.c.leases[k].exp == f.iso.c.now + f.iso.c.life && f.iso.c.life > 0
    ensures Lookup(f.db, k) == Some(v)
  {
    var s0, s1, s2 := Command(I.IqGetStep(k, 0, None, false)), DbRead(LEASE_START), Fill(LEASE_START, 0, 0);
    var s3, s4 := Command(I.QaReadStep(tid, k, 0)), DbWrite(tid, k, Some(v));
    var w1 := After(w, s0);
    assert w1.iso.c.leases == map[k := Timed(LeaseSpec.I(LEASE_START), Expiry(w.iso.c))];
    var w2 := After(w1, s1);
    var w3 := After(w2, s2);
    var w4 := After(w3, s3);
    assert w4.iso.c.trans[tid].it == Keylist.Insert([], k) == [k];
    f := After(w4, s4);
    OneStep(w4, s4, [], f);
    OneStep(w3, s3, [s4] + [], f);
    OneStep(w2, s2, [s3] + ([s4] + []), f);
    OneStep(w1, s1, [s2] + ([s3] + ([s4] + [])), f);
    OneStep(w, s0, [s1] + ([s2] + ([s3] + ([s4] + []))), f);
    steps := [s0] + ([s1] + ([s2] + ([s3] + ([s4] + []))));
  }
}
