/** The invalidation protocol over whole runs.

    Readers take an I lease, read the database and fill the cache; writers
    quarantine a key, change the database and then delete the cached value.  The
    database, what each reader has read and what the database held when a
    quarantine began are added to the cache state here. */
module Freshness {
  import opened Bytes
  import opened LeaseSpec
  import Keylist

  datatype Reader = Granted(k: Key) | HasRead(k: Key, v: Value)

  datatype World = World(
    c: Cache,
    db: map<Key, Value>,
    base: map<Key, Option<Value>>,
    readers: map<Token, Reader>)

  predicate Quarantined(c: Cache, k: Key) {
    k in c.leases && c.leases[k].it.QInv?
  }

  datatype Step =
    | IqGetStep(k: Key, token: Token, from: Option<Tid>, override: bool)
    | DbReadStep(reader: Token)
    | IqSetStep(reader: Token, exp: nat, cfg: int)
    | QaRegStep(tid: Tid, k: Key)
    | DbWriteStep(tid: Tid, k: Key, v: Option<Value>)
    | DarStep(tid: Tid)
    | UnleaseStep(k: Key, token: Token)
    | DeleteStep(k: Key)
    | EvictStep(k: Key)
    | TickStep(d: nat)

  /** What clients keep to.  A reader stores only what it read after it got its
      lease; a writer changes k only while it is on k's live Q lease; and nobody
      gives unlease the number that stands for "not a token". */
  predicate Enabled(w: World, s: Step) {
    match s
    case DbReadStep(t) => t in w.readers && w.readers[t].k in w.db
    case IqSetStep(t, _, _) => t in w.readers && w.readers[t].HasRead?
    case DbWriteStep(tid, k, _) => Quarantined(w.c, k) && tid in w.c.leases[k].it.tids
    case QaRegStep(_, k) => Registrable(w.c, k)
    case UnleaseStep(_, token) => token != NOT_A_TOKEN
    case _ => true
  }

  function After(w: World, s: Step): World
    requires Enabled(w, s)
  {
    match s
    case IqGetStep(k, token, tid, override) =>
      var (c, reply) := IqGet(w.c, k, token, tid, override);
      w.(c := c,
         readers := if reply.Leased? then w.readers[reply.token := Granted(k)] else w.readers)
    case DbReadStep(t) =>
      var k := w.readers[t].k;
      w.(readers := w.readers[t := HasRead(k, w.db[k])])
    case IqSetStep(t, exp, cfg) =>
      var r := w.readers[t];
      w.(c := IqSet(w.c, r.k, t, r.v, exp, cfg).0)
    case QaRegStep(tid, k) =>
      w.(c := QaReg(w.c, tid, k),
         base := if Quarantined(w.c, k) then w.base else w.base[k := Lookup(w.db, k)])
    case DbWriteStep(tid, k, v) =>
      w.(db := if v.Some? then w.db[k := v.value] else w.db - {k})
    case DarStep(tid) => w.(c := Dar(w.c, tid).0)
    case UnleaseStep(k, token) => w.(c := Unlease(w.c, k, token))
    case DeleteStep(k) => w.(c := Delete(w.c, k).0)
    case EvictStep(k) => w.(c := w.c.(values := w.c.values - {k}))
    case TickStep(d) => w.(c := Tick(w.c, d))
  }

  predicate ValidRun(w: World, steps: seq<Step>)
    decreases |steps|
  {
    steps == [] || (Enabled(w, steps[0]) && ValidRun(After(w, steps[0]), steps[1..]))
  }

  function Final(w: World, steps: seq<Step>): World
    requires ValidRun(w, steps)
    decreases |steps|
  {
    if steps == [] then w else Final(After(w, steps[0]), steps[1..])
  }

  predicate Init(w: World) {
    && w.c.values == map[] && w.c.leases == map[] && w.c.versions == map[] && w.c.trans == map[]
    && w.c.marks == {} && w.c.nextToken == LEASE_START && w.c.life > 0
    && w.base == map[] && w.readers == map[]
  }

  // ---------- the claim ----------

  predicate FreshAt(w: World, k: Key)
    requires k in w.c.values
  {
    Lookup(w.db, k) == Some(w.c.values[k].it.val)
  }

  /** Whatever is cached and not quarantined is what the database holds. */
  ghost predicate Fresh(w: World) {
    forall k :: k in w.c.values && !Quarantined(w.c, k) ==> FreshAt(w, k)
  }

  // ---------- the invariant ----------

  /** A quarantined value is the one from before the first overlapping writer,
      and dies with the lease. */
  ghost predicate ValuesOk(w: World) {
    forall k :: k in w.c.values ==>
      if Quarantined(w.c, k)
      then k in w.base && w.base[k] == Some(w.c.values[k].it.val) && w.c.values[k].exp == w.c.leases[k].exp
      else FreshAt(w, k)
  }

  predicate LeaseOk(w: World, k: Key)
    requires k in w.c.leases
  {
    match w.c.leases[k].it
    case I(t) =>
      && t in w.readers && w.readers[t].k == k
      && (w.readers[t].HasRead? ==> Lookup(w.db, k) == Some(w.readers[t].v))
    case QInv(_) => k in w.base
    case _ => false
  }

  ghost predicate LeasesOk(w: World) {
    forall k :: k in w.c.leases ==> LeaseOk(w, k)
  }

  ghost predicate Inv(w: World) {
    && ValuesOk(w) && LeasesOk(w)
    && (forall t :: t in w.readers ==> t < w.c.nextToken)
  }

  lemma QaRegKeeps(w: World, tid: Tid, k: Key)
    requires Inv(w)
    ensures Registrable(w.c, k)
    ensures Inv(After(w, QaRegStep(tid, k)))
  {
  }

  lemma DarKeeps(w: World, tid: Tid)
    requires Inv(w)
    ensures Inv(After(w, DarStep(tid)))
  {
  }

  lemma TickKeeps(w: World, d: nat)
    requires Inv(w)
    ensures Inv(After(w, TickStep(d)))
  {
  }

  lemma IqGetKeeps(w: World, k: Key, token: Token, from: Option<Tid>, override: bool)
    requires Inv(w)
    ensures Inv(After(w, IqGetStep(k, token, from, override)))
  {
    IqGetCases(w.c, k, token, from, override);
    GrantKeeps(w, k);
  }

  lemma GrantKeeps(w: World, k: Key)
    requires Inv(w)
    ensures k !in w.c.leases ==>
              Inv(w.(c := GrantI(w.c, k).(values := w.c.values - {k}),
                     readers := w.readers[w.c.nextToken := Granted(k)]))
  {
  }

  lemma IqSetKeeps(w: World, t: Token, exp: nat, cfg: int)
    requires Inv(w) && Enabled(w, IqSetStep(t, exp, cfg))
    ensures Inv(After(w, IqSetStep(t, exp, cfg)))
  {
  }

  lemma DbReadKeeps(w: World, t: Token)
    requires Inv(w) && Enabled(w, DbReadStep(t))
    ensures Inv(After(w, DbReadStep(t)))
  {
  }

  lemma DbWriteKeeps(w: World, tid: Tid, k: Key, v: Option<Value>)
    requires Inv(w) && Enabled(w, DbWriteStep(tid, k, v))
    ensures Inv(After(w, DbWriteStep(tid, k, v)))
  {
  }

  lemma StepKeeps(w: World, s: Step)
    requires Inv(w) && Enabled(w, s)
    ensures Inv(After(w, s))
  {
    match s
    case QaRegStep(tid, k) => QaRegKeeps(w, tid, k);
    case DarStep(tid) => DarKeeps(w, tid);
    case TickStep(d) => TickKeeps(w, d);
    case IqGetStep(k, token, from, override) => IqGetKeeps(w, k, token, from, override);
    case IqSetStep(t, exp, cfg) => IqSetKeeps(w, t, exp, cfg);
    case DbReadStep(t) => DbReadKeeps(w, t);
    case DbWriteStep(tid, k, v) => DbWriteKeeps(w, tid, k, v);
    case _ =>
  }

  lemma {:induction false} RunKeeps(w: World, steps: seq<Step>)
    requires Inv(w) && ValidRun(w, steps)
    ensures Inv(Final(w, steps))
    decreases |steps|
  {
    if steps != [] {
      StepKeeps(w, steps[0]);
      RunKeeps(After(w, steps[0]), steps[1..]);
    }
  }

  /** In every run, a cached value whose key is not quarantined is current. */
  lemma NoStaleValue(w: World, steps: seq<Step>)
    requires Init(w) && ValidRun(w, steps)
    ensures Fresh(Final(w, steps))
  {
    RunKeeps(w, steps);
  }

  /** In every run, iqget outside a quarantine returns the database value; during
      one it returns the value from when the quarantine began, never a mixture. */
  lemma NoStaleRead(w: World, steps: seq<Step>, k: Key, token: Token, tid: Option<Tid>, override: bool)
    requires Init(w) && ValidRun(w, steps)
    requires IqGet(Final(w, steps).c, k, token, tid, override).1.Hit?
    ensures var f := Final(w, steps);
            var v := IqGet(f.c, k, token, tid, override).1.item.val;
            if Quarantined(f.c, k) then k in f.base && f.base[k] == Some(v)
            else Lookup(f.db, k) == Some(v)
  {
    RunKeeps(w, steps);
  }

  // ---------- two commands that do not keep the claim ----------

  /** Writers have changed k in the database since its quarantine began. */
  predicate Overtaken(w: World, k: Key) {
    k in w.base && Lookup(w.db, k) != w.base[k]
  }

  lemma OvertakenIsStale(w: World, k: Key)
    requires Inv(w) && Quarantined(w.c, k) && k in w.c.values
    ensures FreshAt(w, k) <==> !Overtaken(w, k)
  {
  }

  /** unlease compares its argument with -1 read as a token, which is what any
      shared Q lease yields.  It keeps the claim unless given that number for a
      quarantined cached key whose writers have already changed the database. */
  lemma UnleaseKeepsExactlyWhen(w: World, k: Key, token: Token)
    requires Inv(w)
    ensures Fresh(w.(c := Unlease(w.c, k, token))) <==>
            !(token == NOT_A_TOKEN && Quarantined(w.c, k) && k in w.c.values && Overtaken(w, k))
  {
    var w' := w.(c := Unlease(w.c, k, token));
    assert w'.c.values == w.c.values;
    if k in w.c.values && Quarantined(w.c, k) {
      OvertakenIsStale(w, k);
      assert token == NOT_A_TOKEN ==> !Quarantined(w'.c, k);
      assert FreshAt(w', k) == FreshAt(w, k);
    }
  }

  /** item_release drops a shared Q lease for everyone on it and leaves the value.
      It keeps the claim exactly when the database still holds, for each of the
      transaction's quarantined cached keys, what it held when the quarantine
      began. */
  lemma ReleaseKeepsExactlyWhen(w: World, tid: Tid)
    requires Inv(w) && tid in w.c.trans
    ensures Fresh(w.(c := Release(w.c, tid).0)) <==>
            forall k :: k in w.c.trans[tid].it && Quarantined(w.c, k) && k in w.c.values ==> !Overtaken(w, k)
  {
    var w' := w.(c := Release(w.c, tid).0);
    forall k | k in w.c.values ensures FreshAt(w', k) == FreshAt(w, k) {}
    forall k ensures Quarantined(w'.c, k) <==> Quarantined(w.c, k) && k !in w.c.trans[tid].it {}
    forall k | Quarantined(w.c, k) && k in w.c.values ensures FreshAt(w, k) <==> !Overtaken(w, k) {
      OvertakenIsStale(w, k);
    }
  }

  /** Filling the cache from the database. */
  lemma Fill(w: World, k: Key)
    requires Init(w) && k in w.db
    ensures var steps := [IqGetStep(k, 0, None, false), DbReadStep(LEASE_START), IqSetStep(LEASE_START, 0, 0)];
            && ValidRun(w, steps)
            && Final(w, steps).c.leases == map[] && Final(w, steps).c.trans == map[]
            && Final(w, steps).db == w.db
            && k in Final(w, steps).c.values && FreshAt(Final(w, steps), k)
  {
    var s0, s1, s2 := IqGetStep(k, 0, None, false), DbReadStep(LEASE_START), IqSetStep(LEASE_START, 0, 0);
    var w1 := After(w, s0);
    assert w1.c.leases == map[k := Timed(I(LEASE_START), Expiry(w.c))];
    var w2 := After(w1, s1);
    var w3 := After(w2, s2);
    OneStep(w2, [], s2);
    OneStep(w1, [s2], s1);
    OneStep(w, [s1, s2], s0);
    assert [s0] + ([s1] + ([s2] + [])) == [s0, s1, s2];
  }

  /** A writer overtaking the cached value. */
  lemma Overtake(w: World, k: Key, tid: Tid, v: Value)
    requires w.c.leases == map[] && w.c.trans == map[] && k in w.c.values && w.c.values[k].it.val != v
    ensures var steps := [QaRegStep(tid, k), DbWriteStep(tid, k, Some(v))];
            && ValidRun(w, steps)
            && Quarantined(Final(w, steps).c, k) && k in Final(w, steps).c.values
            && InTrans(Final(w, steps).c, tid, k) && !FreshAt(Final(w, steps), k)
  {
    var s0, s1 := QaRegStep(tid, k), DbWriteStep(tid, k, Some(v));
    var w1 := After(w, s0);
    assert w1.c.leases[k].it == QInv(Keylist.Insert([], tid)) == QInv([tid]);
    assert w1.c.trans[tid].it == Keylist.Insert([], k) == [k];
    OneStep(w1, [], s1);
    OneStep(w, [s1], s0);
    assert [s0] + ([s1] + []) == [s0, s1];
  }

  lemma {:induction false} TwoRuns(w: World, one: seq<Step>, two: seq<Step>)
    requires ValidRun(w, one) && ValidRun(Final(w, one), two)
    ensures ValidRun(w, one + two) && Final(w, one + two) == Final(Final(w, one), two)
    decreases |one|
  {
    if one == [] {
      assert one + two == two;
    } else {
      var w1 := After(w, one[0]);
      TwoRuns(w1, one[1..], two);
      OneStep(w, one[1..] + two, one[0]);
      assert one + two == [one[0]] + (one[1..] + two);
    }
  }

  /** Both failures can happen: for every key, writer and new value a run from an
      empty cache ends where release by that writer, and likewise unlease with the
      number that stands for "not a token", leaves a stale value unquarantined. */
  lemma OvertakenIsReachable(w: World, k: Key, tid: Tid, v: Value)
    requires Init(w) && k in w.db && w.db[k] != v
    ensures exists steps :: ValidRun(w, steps) && ExposesStale(Final(w, steps), k, tid)
  {
    var steps := OvertakingRun(w, k, tid, v);
    RunKeeps(w, steps);
    Exposed(Final(w, steps), k, tid);
  }

  lemma OvertakingRun(w: World, k: Key, tid: Tid, v: Value) returns (steps: seq<Step>)
    requires Init(w) && k in w.db && w.db[k] != v
    ensures ValidRun(w, steps)
    ensures var f := Final(w, steps);
            Quarantined(f.c, k) && k in f.c.values && InTrans(f.c, tid, k) && !FreshAt(f, k)
  {
    var one := [IqGetStep(k, 0, None, false), DbReadStep(LEASE_START), IqSetStep(LEASE_START, 0, 0)];
    var two := [QaRegStep(tid, k), DbWriteStep(tid, k, Some(v))];
    Fill(w, k);
    Overtake(Final(w, one), k, tid, v);
    TwoRuns(w, one, two);
    steps := one + two;
  }

  /** Releasing tid, or unleasing k with -1, breaks the claim. */
  ghost predicate ExposesStale(w: World, k: Key, tid: Tid) {
    && tid in w.c.trans && !Fresh(w.(c := Release(w.c, tid).0))
    && !Fresh(w.(c := Unlease(w.c, k, NOT_A_TOKEN)))
  }

  lemma Exposed(w: World, k: Key, tid: Tid)
    requires Inv(w) && Quarantined(w.c, k) && k in w.c.values && InTrans(w.c, tid, k) && !FreshAt(w, k)
    ensures ExposesStale(w, k, tid)
  {
    OvertakenIsStale(w, k);
    ReleaseKeepsExactlyWhen(w, tid);
    UnleaseKeepsExactlyWhen(w, k, NOT_A_TOKEN);
  }

  lemma OneStep(w: World, rest: seq<Step>, s: Step)
    requires Enabled(w, s) && ValidRun(After(w, s), rest)
    ensures ValidRun(w, [s] + rest)
    ensures Final(w, [s] + rest) == Final(After(w, s), rest)
  {
    assert ([s] + rest)[1..] == rest;
  }
}
