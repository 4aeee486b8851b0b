/** The refresh and incremental-update commands over whole runs.

    A transaction quarantines keys, works on private pending versions and then
    commits or releases.  commit and release never compare a lease with the
    transaction that calls them, so that they act on the right leases is a fact
    about whole runs.  Added to the cache state: which tokens came from a Q
    grant, and for each quarantined key who took it, the value published then,
    and what has been done to the pending version since. */
module Isolation {
  import opened Bytes
  import opened LeaseSpec
  import Keylist

  /** One change of a pending version; it may also be evicted. */
  datatype Change = Did(op: Op) | Set(v: Value) | Dropped

  datatype Work = Work(owner: Tid, before: Option<Value>, changes: seq<Change>)

  datatype World = World(c: Cache, qTokens: set<Token>, work: map<Key, Work>)

  ghost function Effect(ch: Change, v: Option<Value>): Option<Value> {
    match ch
    case Did(op) =>
      if v.None? then None
      else if ApplyOp(op, v.value).Some? then ApplyOp(op, v.value) else v
    case Set(x) => Some(x)
    case Dropped => None
  }

  /** What the recorded changes make of the value published at the start. */
  ghost function Replay(before: Option<Value>, changes: seq<Change>): Option<Value> {
    if changes == [] then before
    else Effect(changes[|changes|-1], Replay(before, changes[..|changes|-1]))
  }

  predicate QLeased(c: Cache, k: Key) {
    k in c.leases && IsQ(c.leases[k].it)
  }

  datatype Step =
    | QaReadStep(tid: Tid, k: Key, token: Token)
    | SwapStep(k: Key, token: Token, data: Bytes)
    | IqOpStep(tid: Tid, k: Key, op: Op)
    | CommitStep(tid: Tid, pending: int, cfg: int)
    | ReleaseStep(tid: Tid)
    | IqGetStep(k: Key, token: Token, from: Option<Tid>, override: bool)
    | IqSetStep(k: Key, token: Token, data: Bytes, exp: nat, cfg: int)
    | DeleteStep(k: Key)
    | EvictVersionStep(k: Key)
    | EvictMarkStep(k: Key)
    | TickStep(d: nat)

  /** swap is given tokens of Q leases only, and no Q lease runs out.  Values and
      I leases may expire, and values, versions and marks may be evicted. */
  ghost predicate Enabled(w: World, s: Step) {
    match s
    case SwapStep(_, token, _) => token in w.qTokens
    case TickStep(d) => forall k :: QLeased(w.c, k) ==> LiveAt(w.c.leases[k].exp, w.c.now + d)
    case _ => true
  }

  function Note(w: World, k: Key, ch: Change): map<Key, Work> {
    if k in w.work then w.work[k := w.work[k].(changes := w.work[k].changes + [ch])] else w.work
  }

  /** A new Q lease on k starts a new record. */
  function Begin(w: World, tid: Tid, k: Key): World {
    w.(qTokens := w.qTokens + {w.c.nextToken}, work := w.work[k := Work(tid, ItemVal(w.c.values, k), [])])
  }

  ghost function After(w: World, s: Step): World {
    match s
    case QaReadStep(tid, k, token) =>
      (if QLeased(w.c, k) then w else Begin(w, tid, k)).(c := QaRead(w.c, tid, k, token).0)
    case SwapStep(k, token, data) =>
      var (c, r) := Swap(w.c, k, token, data);
      w.(c := c, work := if r.Swapped? && data != [] then Note(w, k, Set(data)) else w.work)
    case IqOpStep(tid, k, op) =>
      var (c, r) := IqOp(w.c, tid, k, op);
      var w1 := if QLeased(w.c, k) then w else Begin(w, tid, k);
      w1.(c := c, work := if r.OpAbort? then w1.work else Note(w1, k, Did(op)))
    case CommitStep(tid, pending, cfg) => w.(c := Commit(w.c, tid, pending, cfg).0)
    case ReleaseStep(tid) => w.(c := Release(w.c, tid).0)
    case IqGetStep(k, token, from, override) => w.(c := IqGet(w.c, k, token, from, override).0)
    case IqSetStep(k, token, data, exp, cfg) => w.(c := IqSet(w.c, k, token, data, exp, cfg).0)
    case DeleteStep(k) => w.(c := Delete(w.c, k).0)
    case EvictVersionStep(k) =>
      w.(c := w.c.(versions := w.c.versions - {k}), work := Note(w, k, Dropped))
    case EvictMarkStep(k) => w.(c := w.c.(marks := w.c.marks - {k}))
    case TickStep(d) => w.(c := Tick(w.c, d))
  }

  ghost predicate ValidRun(w: World, steps: seq<Step>)
    decreases |steps|
  {
    steps == [] || (Enabled(w, steps[0]) && ValidRun(After(w, steps[0]), steps[1..]))
  }

  ghost function Final(w: World, steps: seq<Step>): World
    decreases |steps|
  {
    if steps == [] then w else Final(After(w, steps[0]), steps[1..])
  }

  predicate Init(w: World) {
    && w.c.values == map[] && w.c.leases == map[] && w.c.versions == map[] && w.c.trans == map[]
    && w.c.marks == {} && w.c.nextToken == LEASE_START && w.c.life > 0
    && w.qTokens == {} && w.work == map[]
  }

  // ---------- the invariant ----------

  /** The record of a quarantined key: its owner's list has it, its version is
      what the record replays to, and a published value is still the one from the
      start.  Version and key list outlive the lease. */
  ghost predicate KeyOk(w: World, k: Key)
    requires QLeased(w.c, k)
  {
    && !w.c.leases[k].it.QInv? && w.c.leases[k].it.token in w.qTokens && 0 < w.c.leases[k].exp <= Expiry(w.c)
    && k in w.work && InTrans(w.c, w.work[k].owner, k)
    && w.c.trans[w.work[k].owner].exp >= w.c.leases[k].exp
    && ItemVal(w.c.versions, k) == Replay(w.work[k].before, w.work[k].changes)
    && (k in w.c.versions ==> w.c.versions[k].exp >= w.c.leases[k].exp)
    && (k in w.c.values ==> Some(w.c.values[k].it.val) == w.work[k].before)
  }

  ghost predicate KeysOk(w: World) {
    forall k :: QLeased(w.c, k) ==> KeyOk(w, k)
  }

  ghost predicate TransOk(w: World) {
    forall tid, k :: InTrans(w.c, tid, k) ==> QLeased(w.c, k) && k in w.work && w.work[k].owner == tid
  }

  ghost predicate VersionsOk(w: World) {
    forall k :: k in w.c.versions ==> QLeased(w.c, k)
  }

  ghost predicate TokensOk(w: World) {
    && (forall t :: t in w.qTokens ==> t < w.c.nextToken)
    && (forall k :: k in w.c.leases && w.c.leases[k].it.I? ==>
          w.c.leases[k].it.token < w.c.nextToken && w.c.leases[k].it.token !in w.qTokens)
  }

  ghost predicate Inv(w: World) {
    w.c.life > 0 && KeysOk(w) && TransOk(w) && VersionsOk(w) && TokensOk(w)
  }

  lemma ReplaySnoc(before: Option<Value>, changes: seq<Change>, ch: Change)
    ensures Replay(before, changes + [ch]) == Effect(ch, Replay(before, changes))
  {
    assert (changes + [ch])[..|changes|] == changes;
  }

  lemma StepKeeps(w: World, s: Step)
    requires Inv(w) && Enabled(w, s)
    ensures Inv(After(w, s))
  {
    match s
    case QaReadStep(tid, k, token) => QaReadKeeps(w, tid, k, token);
    case SwapStep(k, token, data) => SwapKeeps(w, k, token, data);
    case IqOpStep(tid, k, op) => IqOpKeeps(w, tid, k, op);
    case CommitStep(tid, pending, cfg) => CommitKeeps(w, tid, pending, cfg);
    case ReleaseStep(tid) => ReleaseKeeps(w, tid);
    case EvictVersionStep(k) => EvictVersionKeeps(w, k);
    case TickStep(d) => TickKeeps(w, d);
    case IqGetStep(k, token, from, override) => IqGetKeeps(w, k, token, from, override);
    case IqSetStep(k, token, data, exp, cfg) => IqSetKeeps(w, k, token, data, exp, cfg);
    case DeleteStep(k) => FrameKeeps(w, After(w, s));
    case EvictMarkStep(k) => FrameKeeps(w, After(w, s));
  }

  /** The other commands: no quarantined key gains a value or loses its lease. */
  lemma FrameKeeps(w: World, w': World)
    requires Inv(w)
    requires w' == w.(c := w.c.(values := w'.c.values, leases := w'.c.leases, marks := w'.c.marks,
                                nextToken := w'.c.nextToken))
    requires w.c.nextToken <= w'.c.nextToken
    requires forall k :: QLeased(w'.c, k) || QLeased(w.c, k) ==>
               && k in w.c.leases && k in w'.c.leases && w'.c.leases[k] == w.c.leases[k]
               && (k in w'.c.values ==> k in w.c.values && w'.c.values[k] == w.c.values[k])
    requires forall k :: k in w'.c.leases && w'.c.leases[k].it.I? ==>
               || (w'.c.leases[k].it == I(w.c.nextToken) && w.c.nextToken < w'.c.nextToken)
               || (k in w.c.leases && w'.c.leases[k] == w.c.leases[k])
    ensures Inv(w')
  {
    forall k | QLeased(w'.c, k) ensures KeyOk(w', k) { assert KeyOk(w, k); }
    forall tid, k | InTrans(w'.c, tid, k)
      ensures QLeased(w'.c, k) && k in w'.work && w'.work[k].owner == tid
    {
      assert InTrans(w.c, tid, k);
    }
  }

  lemma IqGetKeeps(w: World, k: Key, token: Token, from: Option<Tid>, override: bool)
    requires Inv(w)
    ensures Inv(After(w, IqGetStep(k, token, from, override)))
  {
    IqGetCases(w.c, k, token, from, override);
    FrameKeeps(w, After(w, IqGetStep(k, token, from, override)));
  }

  lemma IqSetKeeps(w: World, k: Key, token: Token, data: Bytes, exp: nat, cfg: int)
    requires Inv(w)
    ensures Inv(After(w, IqSetStep(k, token, data, exp, cfg)))
  {
    FrameKeeps(w, After(w, IqSetStep(k, token, data, exp, cfg)));
  }

  /** Taking a new Q lease on a key that has none. */
  lemma QuarantineKeeps(w: World, tid: Tid, k: Key, l: Lease)
    requires Inv(w) && !QLeased(w.c, k) && (l == QRef(w.c.nextToken) || l == QInc(w.c.nextToken))
    ensures Inv(Begin(w, tid, k).(c := Quarantine(w.c, tid, k, l)))
  {
    var w' := Begin(w, tid, k).(c := Quarantine(w.c, tid, k, l));
    var keys := if tid in w.c.trans then w.c.trans[tid].it else [];
    Keylist.InsertMembers(keys, k);
    assert !InTrans(w.c, tid, k);
    forall t, x | InTrans(w'.c, t, x)
      ensures QLeased(w'.c, x) && x in w'.work && w'.work[x].owner == t
    {
      if t != tid || x != k {
        assert InTrans(w.c, t, x);
      }
    }
    forall x | QLeased(w'.c, x) ensures KeyOk(w', x) {
      if x != k {
        assert QLeased(w.c, x);
      }
    }
  }

  lemma QaReadKeeps(w: World, tid: Tid, k: Key, token: Token)
    requires Inv(w)
    ensures Inv(After(w, QaReadStep(tid, k, token)))
  {
    if !QLeased(w.c, k) {
      QuarantineKeeps(w, tid, k, QRef(w.c.nextToken));
    }
  }

  /** A recorded change of the pending version of a quarantined key. */
  lemma ChangeKeeps(w: World, w': World, k: Key, ch: Change)
    requires Inv(w) && QLeased(w.c, k)
    requires w'.c == w.c.(versions := w'.c.versions, marks := w'.c.marks) && w'.qTokens == w.qTokens
    requires w'.work == Note(w, k, ch)
    requires w'.c.versions - {k} == w.c.versions - {k}
    requires ItemVal(w'.c.versions, k) == Effect(ch, ItemVal(w.c.versions, k))
    requires k in w'.c.versions ==> w'.c.versions[k].exp >= w.c.leases[k].exp
    ensures Inv(w')
  {
    ReplaySnoc(w.work[k].before, w.work[k].changes, ch);
    forall x | QLeased(w'.c, x) ensures KeyOk(w', x) {
      assert KeyOk(w, x);
      if x != k {
        assert x in w'.c.versions <==> x in w'.c.versions - {k};
        assert x in w.c.versions <==> x in w.c.versions - {k};
        assert x in w.c.versions ==> (w.c.versions - {k})[x] == (w'.c.versions - {k})[x];
      }
    }
    forall x | x in w'.c.versions ensures QLeased(w'.c, x) {
      if x != k {
        assert x in w'.c.versions - {k};
        assert x in w.c.versions;
      }
    }
    forall tid, x | InTrans(w'.c, tid, x)
      ensures QLeased(w'.c, x) && x in w'.work && w'.work[x].owner == tid
    {
      assert InTrans(w.c, tid, x);
    }
  }

  lemma SwapKeeps(w: World, k: Key, token: Token, data: Bytes)
    requires Inv(w) && token in w.qTokens
    ensures Inv(After(w, SwapStep(k, token, data)))
  {
    var w' := After(w, SwapStep(k, token, data));
    if Swap(w.c, k, token, data).1.Swapped? && data != [] {
      assert QLeased(w.c, k);
      assert KeyOk(w, k);
      ChangeKeeps(w, w', k, Set(data));
    }
  }

  lemma ReworkKeeps(w: World, k: Key, op: Op, token: Token)
    requires Inv(w) && QLeased(w.c, k)
    ensures Inv(w.(c := Rework(w.c, k, op, token).0, work := Note(w, k, Did(op))))
  {
    assert KeyOk(w, k);
    ChangeKeeps(w, w.(c := Rework(w.c, k, op, token).0, work := Note(w, k, Did(op))), k, Did(op));
  }

  lemma IqOpKeeps(w: World, tid: Tid, k: Key, op: Op)
    requires Inv(w)
    ensures Inv(After(w, IqOpStep(tid, k, op)))
  {
    var w' := After(w, IqOpStep(tid, k, op));
    if QLeased(w.c, k) {
      if InTrans(w.c, tid, k) {
        ReworkKeeps(w, k, op, LeaseValue(w.c.leases[k].it));
      }
    } else {
      FirstOpKeeps(w, tid, k, op);
    }
  }

  lemma FirstOpKeeps(w: World, tid: Tid, k: Key, op: Op)
    requires Inv(w) && !QLeased(w.c, k)
    ensures Inv(After(w, IqOpStep(tid, k, op)))
  {
    var w1 := Begin(w, tid, k).(c := Quarantine(w.c, tid, k, QInc(w.c.nextToken)));
    QuarantineKeeps(w, tid, k, QInc(w.c.nextToken));
    ReworkKeeps(w1, k, op, w.c.nextToken);
    FirstOpIs(w, tid, k, op);
  }

  /** The first operation is the grant followed by the operation, also when there is
      nothing to operate on. */
  lemma FirstOpIs(w: World, tid: Tid, k: Key, op: Op)
    requires !QLeased(w.c, k) && k !in w.c.versions
    ensures var w1 := Begin(w, tid, k).(c := Quarantine(w.c, tid, k, QInc(w.c.nextToken)));
            After(w, IqOpStep(tid, k, op))
            == w1.(c := Rework(w1.c, k, op, w.c.nextToken).0, work := Note(w1, k, Did(op)))
  {
  }

  /** The keys of a transaction are exactly the quarantined keys it owns. */
  lemma OwnKeys(w: World, tid: Tid)
    requires Inv(w) && tid in w.c.trans
    ensures Taken(w.c, KeysOf(w.c, tid)) == KeysOf(w.c, tid)
    ensures forall k :: k in KeysOf(w.c, tid) <==> QLeased(w.c, k) && w.work[k].owner == tid
    ensures forall k :: k in KeysOf(w.c, tid) ==> k in w.c.leases && !w.c.leases[k].it.QInv?
  {
    forall k | k in KeysOf(w.c, tid) ensures QLeased(w.c, k) && w.work[k].owner == tid {
      assert InTrans(w.c, tid, k);
    }
  }

  /** Ending a transaction: its leases, its versions and its list go together. */
  lemma EndKeeps(w: World, w': World, tid: Tid)
    requires Inv(w) && tid in w.c.trans
    requires var ks := KeysOf(w.c, tid);
             && w'.c == w.c.(values := w'.c.values, marks := w'.c.marks, leases := w.c.leases - ks,
                             versions := w.c.versions - ks, trans := w.c.trans - {tid})
             && w'.c.values - ks == w.c.values - ks
    requires w'.qTokens == w.qTokens && w'.work == w.work
    ensures Inv(w')
  {
    OwnKeys(w, tid);
    var ks := KeysOf(w.c, tid);
    forall k | QLeased(w'.c, k) ensures KeyOk(w', k) {
      assert KeyOk(w, k);
      assert k in w'.c.values <==> k in w'.c.values - ks;
      assert k in w.c.values <==> k in w.c.values - ks;
      assert k in w.c.values ==> (w.c.values - ks)[k] == (w'.c.values - ks)[k];
    }
    forall t, k | InTrans(w'.c, t, k)
      ensures QLeased(w'.c, k) && k in w'.work && w'.work[k].owner == t
    {
      assert InTrans(w.c, t, k);
    }
  }

  lemma CommitKeeps(w: World, tid: Tid, pending: int, cfg: int)
    requires Inv(w)
    ensures Inv(After(w, CommitStep(tid, pending, cfg)))
  {
    if tid in w.c.trans {
      OwnKeys(w, tid);
      CommitShape(w.c, tid, pending, cfg);
      EndKeeps(w, After(w, CommitStep(tid, pending, cfg)), tid);
    }
  }

  /** Commit of refresh and incremental leases drops them all. */
  lemma CommitShape(c: Cache, tid: Tid, pending: int, cfg: int)
    requires tid in c.trans && Taken(c, KeysOf(c, tid)) == KeysOf(c, tid)
    requires forall k :: k in KeysOf(c, tid) ==> k in c.leases && !c.leases[k].it.QInv?
    ensures var ks, c' := KeysOf(c, tid), Commit(c, tid, pending, cfg).0;
            && c' == c.(values := c'.values, marks := c'.marks, leases := c.leases - ks,
                        versions := c.versions - ks, trans := c.trans - {tid})
            && c'.values - ks == c.values - ks
  {
  }

  lemma ReleaseKeeps(w: World, tid: Tid)
    requires Inv(w)
    ensures Inv(After(w, ReleaseStep(tid)))
  {
    if tid in w.c.trans {
      OwnKeys(w, tid);
      EndKeeps(w, After(w, ReleaseStep(tid)), tid);
    }
  }

  lemma EvictVersionKeeps(w: World, k: Key)
    requires Inv(w)
    ensures Inv(After(w, EvictVersionStep(k)))
  {
    var w' := After(w, EvictVersionStep(k));
    if QLeased(w.c, k) {
      ChangeKeeps(w, w', k, Dropped);
    } else {
      assert w'.c.versions == w.c.versions;
      forall x | QLeased(w'.c, x) ensures KeyOk(w', x) { assert KeyOk(w, x); }
      forall tid, x | InTrans(w'.c, tid, x)
        ensures QLeased(w'.c, x) && x in w'.work && w'.work[x].owner == tid
      {
        assert InTrans(w.c, tid, x);
      }
    }
  }

  /** While no Q lease runs out, no key list and no version does either. */
  lemma TickKeeps(w: World, d: nat)
    requires Inv(w) && Enabled(w, TickStep(d))
    ensures Inv(After(w, TickStep(d)))
  {
    var w' := After(w, TickStep(d));
    forall k | QLeased(w'.c, k) ensures KeyOk(w', k) { assert KeyOk(w, k); }
    forall tid, k | InTrans(w'.c, tid, k)
      ensures QLeased(w'.c, k) && k in w'.work && w'.work[k].owner == tid
    {
      assert InTrans(w.c, tid, k);
      assert KeyOk(w, k);
    }
  }

  lemma {:induction false} RunKeeps(w: World, steps: seq<Step>)
    requires Inv(w) && ValidRun(w, steps)
    ensures Inv(Final(w, steps))
    decreases |steps|
  {
    if steps != [] {
      StepKeeps(w, steps[0]);
      RunKeeps(After(w, steps[0]), steps[1..]);
    }
  }

  // ---------- the claims ----------

  /** In every run, each quarantined key is on exactly one transaction's list,
      and only quarantined keys are on lists. */
  lemma ExclusiveOwner(w: World, steps: seq<Step>, k: Key)
    requires Init(w) && ValidRun(w, steps)
    ensures var c := Final(w, steps).c;
            && (QLeased(c, k) <==> exists tid :: InTrans(c, tid, k))
            && (forall tid, tid' :: InTrans(c, tid, k) && InTrans(c, tid', k) ==> tid == tid')
  {
    RunKeeps(w, steps);
    var f := Final(w, steps);
    if QLeased(f.c, k) {
      assert KeyOk(f, k);
    }
  }

  /** The values that a step can make visible: none but by commit or iqset. */
  ghost predicate Publishing(s: Step) { s.CommitStep? || s.IqSetStep? }

  /** In any state at all, a command other than commit and iqset changes no published
      value, and iqset changes none of a quarantined key. */
  lemma OnlyCommitPublishes(w: World, s: Step, k: Key)
    ensures var c' := After(w, s).c;
            && (!Publishing(s) && k in c'.values ==> k in w.c.values && c'.values[k] == w.c.values[k])
            && (s.IqSetStep? && QLeased(w.c, k) ==> Lookup(c'.values, k) == Lookup(w.c.values, k))
  {
    if s.ReleaseStep? {
      assert After(w, s).c.values == w.c.values;
    }
  }

  /** A step that ends the transaction tid. */
  predicate Ends(s: Step, tid: Tid) {
    s == ReleaseStep(tid) || (s.CommitStep? && s.tid == tid)
  }

  /** A quarantined key stays with its owner through every step that does not end
      the owner's transaction. */
  lemma StaysWithOwner(w: World, s: Step, k: Key)
    requires Inv(w) && Enabled(w, s) && QLeased(w.c, k) && !Ends(s, w.work[k].owner)
    ensures QLeased(After(w, s).c, k) && k in After(w, s).work
    ensures After(w, s).work[k].owner == w.work[k].owner && After(w, s).work[k].before == w.work[k].before
  {
    assert KeyOk(w, k);
    LeaseStays(w, s, k);
  }

  lemma LeaseStays(w: World, s: Step, k: Key)
    requires Inv(w) && Enabled(w, s) && QLeased(w.c, k) && !Ends(s, w.work[k].owner)
    ensures QLeased(After(w, s).c, k)
  {
    match s
    case CommitStep(tid, pending, cfg) =>
      NotItsKey(w, tid, k);
      NotTaken(w.c, tid, pending, cfg, k);
    case ReleaseStep(tid) => NotItsKey(w, tid, k);
    case _ =>
  }

  lemma NotTaken(c: Cache, tid: Tid, pending: int, cfg: int, k: Key)
    requires tid in c.trans ==> k !in Taken(c, KeysOf(c, tid))
    ensures Lookup(Commit(c, tid, pending, cfg).0.leases, k) == Lookup(c.leases, k)
  {
  }

  /** A key that another transaction owns is none of tid's. */
  lemma NotItsKey(w: World, tid: Tid, k: Key)
    requires Inv(w) && QLeased(w.c, k) && w.work[k].owner != tid
    ensures tid in w.c.trans ==> k !in Taken(w.c, KeysOf(w.c, tid))
  {
    if tid in w.c.trans {
      OwnKeys(w, tid);
    }
  }

  lemma {:induction false} StaysPrivate(w: World, steps: seq<Step>, k: Key)
    requires Inv(w) && QLeased(w.c, k) && ValidRun(w, steps)
    requires forall i :: 0 <= i < |steps| ==> !Ends(steps[i], w.work[k].owner)
    ensures var f := Final(w, steps);
            && QLeased(f.c, k) && k in f.work && f.work[k].owner == w.work[k].owner
            && (k in f.c.values ==> Some(f.c.values[k].it.val) == w.work[k].before)
    decreases |steps|
  {
    assert KeyOk(w, k);
    if steps != [] {
      var w1 := After(w, steps[0]);
      StaysWithOwner(w, steps[0], k);
      StepKeeps(w, steps[0]);
      forall i | 0 <= i < |steps[1..]| ensures !Ends(steps[1..][i], w1.work[k].owner) {
        assert steps[1..][i] == steps[i+1];
      }
      StaysPrivate(w1, steps[1..], k);
    }
  }

  /** In every run, from any moment at which a transaction has quarantined a key until
      it commits or releases, whatever all others do, the key stays its own and readers
      find the value from before the quarantine or none at all. */
  lemma PrivateUntilCommit(w: World, first: seq<Step>, more: seq<Step>, k: Key)
    requires Init(w) && ValidRun(w, first) && ValidRun(Final(w, first), more)
    requires QLeased(Final(w, first).c, k) && k in Final(w, first).work
    requires forall i :: 0 <= i < |more| ==> !Ends(more[i], Final(w, first).work[k].owner)
    ensures var f, e := Final(w, first), Final(Final(w, first), more);
            && QLeased(e.c, k) && k in e.work && e.work[k].owner == f.work[k].owner
            && (k in e.c.values ==> Some(e.c.values[k].it.val) == f.work[k].before)
  {
    RunKeeps(w, first);
    StaysPrivate(Final(w, first), more, k);
  }

  /** In every run, commit publishes for each key of its transaction what that
      transaction's own changes make of the value it started from, which is still
      the published one unless that has been dropped; every other key, published,
      pending, leased or marked, stays as it was. */
  lemma CommitIsAtomic(w: World, steps: seq<Step>, tid: Tid, pending: int, cfg: int)
    requires Init(w) && ValidRun(w, steps) && tid in Final(w, steps).c.trans
    ensures var f := Final(w, steps);
            var c' := Commit(f.c, tid, pending, cfg).0;
            && (forall k :: InTrans(f.c, tid, k) ==>
                  && k in f.work && f.work[k].owner == tid
                  && ItemVal(c'.values, k) == Replay(f.work[k].before, f.work[k].changes)
                  && (k in c'.values ==> c'.values[k] == Timed(Item(c'.values[k].it.val, pending % 256, cfg), 0))
                  && (k in f.c.values ==> f.work[k].before == Some(f.c.values[k].it.val))
                  && k !in c'.leases && k !in c'.versions)
            && (forall k :: !InTrans(f.c, tid, k) ==>
                  && Lookup(c'.values, k) == Lookup(f.c.values, k)
                  && Lookup(c'.leases, k) == Lookup(f.c.leases, k)
                  && Lookup(c'.versions, k) == Lookup(f.c.versions, k)
                  && (k in c'.marks <==> k in f.c.marks))
            && c'.trans == f.c.trans - {tid}
  {
    RunKeeps(w, steps);
    var f := Final(w, steps);
    var c' := Commit(f.c, tid, pending, cfg).0;
    forall k | InTrans(f.c, tid, k)
      ensures
        && k in f.work && f.work[k].owner == tid
        && ItemVal(c'.values, k) == Replay(f.work[k].before, f.work[k].changes)
        && (k in c'.values ==> c'.values[k] == Timed(Item(c'.values[k].it.val, pending % 256, cfg), 0))
        && (k in f.c.values ==> f.work[k].before == Some(f.c.values[k].it.val))
        && k !in c'.leases && k !in c'.versions
    {
      CommitOwn(f, tid, pending, cfg, k);
    }
    forall k | !InTrans(f.c, tid, k)
      ensures
        && Lookup(c'.values, k) == Lookup(f.c.values, k)
        && Lookup(c'.leases, k) == Lookup(f.c.leases, k)
        && Lookup(c'.versions, k) == Lookup(f.c.versions, k)
        && (k in c'.marks <==> k in f.c.marks)
    {
      CommitOther(f.c, tid, pending, cfg, k);
    }
  }

  lemma CommitOwn(f: World, tid: Tid, pending: int, cfg: int, k: Key)
    requires Inv(f) && InTrans(f.c, tid, k)
    ensures var c' := Commit(f.c, tid, pending, cfg).0;
            && k in f.work && f.work[k].owner == tid
            && ItemVal(c'.values, k) == Replay(f.work[k].before, f.work[k].changes)
            && (k in c'.values ==> c'.values[k] == Timed(Item(c'.values[k].it.val, pending % 256, cfg), 0))
            && (k in f.c.values ==> f.work[k].before == Some(f.c.values[k].it.val))
            && k !in c'.leases && k !in c'.versions
  {
    assert QLeased(f.c, k);
    assert KeyOk(f, k);
    assert k in Taken(f.c, KeysOf(f.c, tid));
  }

  lemma CommitOther(c: Cache, tid: Tid, pending: int, cfg: int, k: Key)
    requires !InTrans(c, tid, k)
    ensures var c' := Commit(c, tid, pending, cfg).0;
            && Lookup(c'.values, k) == Lookup(c.values, k)
            && Lookup(c'.leases, k) == Lookup(c.leases, k)
            && Lookup(c'.versions, k) == Lookup(c.versions, k)
            && (k in c'.marks <==> k in c.marks)
  {
    if tid in c.trans {
      assert k !in Taken(c, KeysOf(c, tid));
    }
  }

  /** After commit a key with a value is not marked, and one without is marked exactly
      when the commit was pending, or had a flag of neither kind and found it marked. */
  lemma CommitMarks(w: World, steps: seq<Step>, tid: Tid, pending: int, cfg: int, k: Key)
    requires Init(w) && ValidRun(w, steps) && InTrans(Final(w, steps).c, tid, k)
    ensures var f := Final(w, steps);
            var c' := Commit(f.c, tid, pending, cfg).0;
            k in c'.marks <==>
              k !in f.c.values && k !in f.c.versions && (pending == 1 || (pending != 0 && k in f.c.marks))
  {
    RunKeeps(w, steps);
    OwnKeys(Final(w, steps), tid);
  }

  /** In every run, release gives up exactly the transaction's leases, versions
      and list, and changes no published value. */
  lemma ReleaseIsClean(w: World, steps: seq<Step>, tid: Tid)
    requires Init(w) && ValidRun(w, steps) && tid in Final(w, steps).c.trans
    ensures var f := Final(w, steps);
            var c' := Release(f.c, tid).0;
            && c'.values == f.c.values && c'.marks == f.c.marks && c'.trans == f.c.trans - {tid}
            && (forall k :: k in c'.leases <==> k in f.c.leases && !InTrans(f.c, tid, k))
            && (forall k :: k in c'.versions <==> k in f.c.versions && !InTrans(f.c, tid, k))
            && (forall k :: k in c'.leases ==> c'.leases[k] == f.c.leases[k])
            && (forall k :: k in c'.versions ==> c'.versions[k] == f.c.versions[k])
  {
    RunKeeps(w, steps);
    OwnKeys(Final(w, steps), tid);
  }

  // ---------- two commands that do not keep the claims ----------

  /** unlease of a Q lease leaves the key on its transaction's list.  It keeps
      lists and leases in step exactly when its token is not a Q lease's. */
  lemma UnleaseKeepsExactlyWhen(w: World, k: Key, token: Token)
    requires Inv(w)
    ensures TransOk(w.(c := Unlease(w.c, k, token))) <==>
            !(QLeased(w.c, k) && LeaseValue(w.c.leases[k].it) == token)
  {
    var w' := w.(c := Unlease(w.c, k, token));
    if QLeased(w.c, k) && LeaseValue(w.c.leases[k].it) == token {
      assert KeyOk(w, k);
      assert InTrans(w'.c, w.work[k].owner, k) && !QLeased(w'.c, k);
    } else {
      forall tid, x | InTrans(w'.c, tid, x)
        ensures QLeased(w'.c, x) && x in w'.work && w'.work[x].owner == tid
      {
        assert InTrans(w.c, tid, x);
      }
    }
  }

  /** After such an unlease one transaction's commit publishes another's work. */
  lemma StrangersWorkCommitted(c: Cache, k: Key, one: Tid, two: Tid, v: Value)
    requires one != two && one !in c.trans && two !in c.trans
    requires k !in c.leases && k !in c.values && k !in c.versions
    ensures var c1 := QaRead(c, one, k, 0).0;
            var c2 := Unlease(c1, k, c.nextToken);
            var c3 := QaRead(c2, two, k, 0).0;
            var c4 := Swap(c3, k, c.nextToken + 1, v).0;
            && InTrans(c4, one, k) && InTrans(c4, two, k)
            && ItemVal(Commit(c4, one, 0, 0).0.values, k) == Some(v)
  {
    var c1 := QaRead(c, one, k, 0).0;
    assert c1.trans[one].it == Keylist.Insert([], k) == [k];
    var c2 := Unlease(c1, k, c.nextToken);
    var c3 := QaRead(c2, two, k, 0).0;
    assert c3.trans[two].it == Keylist.Insert([], k) == [k];
    var c4 := Swap(c3, k, c.nextToken + 1, v).0;
    assert k in Taken(c4, KeysOf(c4, one));
  }

  /** swap checks the token but not the kind of lease.  It keeps versions inside
      quarantines exactly when it is not given the token of an I lease. */
  lemma SwapKeepsExactlyWhen(w: World, k: Key, token: Token, data: Bytes)
    requires Inv(w)
    ensures VersionsOk(w.(c := Swap(w.c, k, token, data).0)) <==>
            !(data != [] && k in w.c.leases && w.c.leases[k].it == I(token))
  {
    var w' := w.(c := Swap(w.c, k, token, data).0);
    if data != [] && k in w.c.leases && w.c.leases[k].it == I(token) {
      assert k in w'.c.versions && !QLeased(w'.c, k);
    }
  }

  /** After iqget and a swap with the I token it granted there is a version outside
      any quarantine, and the commit of a later transaction that has only read the
      key publishes it. */
  lemma ReaderSwapCommitted(c: Cache, k: Key, tid: Tid, v: Value)
    requires k !in c.leases && k !in c.values && k !in c.versions && tid !in c.trans
    ensures var (c1, r) := IqGet(c, k, 0, None, false);
            var c2 := Swap(c1, k, c.nextToken, v).0;
            var c3 := QaRead(c2, tid, k, 0).0;
            && r.Leased? && r.token == c.nextToken
            && k in c2.versions && !QLeased(c2, k)
            && ItemVal(Commit(c3, tid, 0, 0).0.values, k) == Some(v)
  {
    var c1 := IqGet(c, k, 0, None, false).0;
    var c2 := Swap(c1, k, c.nextToken, v).0;
    var c3 := QaRead(c2, tid, k, 0).0;
    assert c3.trans[tid].it == Keylist.Insert([], k) == [k];
    assert k in Taken(c3, KeysOf(c3, tid));
  }

  // ---------- when Q leases run out ----------

  /** The clock keeps lists and leases in step exactly when no key list outlives the
      lease of a key on it. */
  lemma TickKeepsExactlyWhen(w: World, d: nat)
    requires Inv(w)
    ensures TransOk(w.(c := Tick(w.c, d))) <==>
            forall tid, k :: InTrans(w.c, tid, k) && LiveAt(w.c.trans[tid].exp, w.c.now + d) ==>
              LiveAt(w.c.leases[k].exp, w.c.now + d)
  {
    var w' := w.(c := Tick(w.c, d));
    forall tid, k ensures InTrans(w'.c, tid, k) <==> InTrans(w.c, tid, k) && LiveAt(w.c.trans[tid].exp, w.c.now + d) {
    }
  }

  /** It happens: a transaction that takes a second key just before the lease of its
      first runs out keeps the first on its list, and its commit then publishes what
      another transaction has written there. */
  lemma ExpiredLeaseStrangersWork(c: Cache, k: Key, j: Key, one: Tid, two: Tid, v: Value)
    requires c.life > 1 && j != k && one != two && c.trans == map[] && c.leases == map[]
    requires c.values == map[] && c.versions == map[]
    ensures var c2 := Tick(QaRead(c, one, k, 0).0, c.life - 1);
            var c4 := Tick(QaRead(c2, one, j, 0).0, 1);
            var c6 := Swap(QaRead(c4, two, k, 0).0, k, c4.nextToken, v).0;
            && InTrans(c6, one, k) && InTrans(c6, two, k)
            && ItemVal(Commit(c6, one, 0, 0).0.values, k) == Some(v)
  {
    var c1 := QaRead(c, one, k, 0).0;
    assert c1.trans[one].it == Keylist.Insert([], k) == [k];
    var c2 := Tick(c1, c.life - 1);
    var c3 := QaRead(c2, one, j, 0).0;
    Keylist.InsertMembers([k], j);
    var c4 := Tick(c3, 1);
    assert InTrans(c4, one, k) && k !in c4.leases && c4.versions == map[];
    ThenCommits(c4, k, one, two, v);
  }

  lemma ThenCommits(c: Cache, k: Key, one: Tid, two: Tid, v: Value)
    requires InTrans(c, one, k) && k !in c.leases && c.values == map[] && one != two && two !in c.trans
    ensures var c' := Swap(QaRead(c, two, k, 0).0, k, c.nextToken, v).0;
            && InTrans(c', one, k) && InTrans(c', two, k)
            && ItemVal(Commit(c', one, 0, 0).0.values, k) == Some(v)
  {
    var c1 := QaRead(c, two, k, 0).0;
    assert c1.trans[two].it == Keylist.Insert([], k) == [k];
    var c' := Swap(c1, k, c.nextToken, v).0;
    assert k in Taken(c', KeysOf(c', one));
  }
}
