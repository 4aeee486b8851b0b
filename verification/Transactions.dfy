/** What a transaction reads and writes, in terms of values.

    Module Isolation says that commit publishes what the recorded changes make of the
    value from the start.  Here is what that is: what each operation does to a payload,
    what a transaction is told while it works, and what one operation or a whole series
    publishes in the end, over every run. */
module Transactions {
  import opened Bytes
  import opened LeaseSpec
  import opened Isolation
  import C = Counters

  // ---------- the operations on payloads ----------

  /** Adding wraps at 64 bits; a payload that is no number, or too large a one to be
      read, is left alone. */
  lemma IncrMeans(v: nat, d: nat)
    ensures ApplyOp(Incr(d), C.Print(v)) ==
            if v <= C.MAX_PARSED then Some(C.Print((v + d) % C.U64)) else None
  {
    C.IncrementOnce(v, d);
  }

  /** Subtracting stops at zero. */
  lemma DecrMeans(v: nat, d: nat)
    ensures ApplyOp(Decr(d), C.Print(v)) ==
            if v <= C.MAX_PARSED then Some(C.Print(if d > v then 0 else v - d)) else None
  {
    C.ParsePrint(v);
    if v <= C.MAX_PARSED {
      C.DecrementClamps(v, d);
    }
  }

  lemma NotANumber(v: Value, d: nat)
    requires forall n: nat :: !C.IsNumeral(v, n)
    ensures ApplyOp(Incr(d), v) == None && ApplyOp(Decr(d), v) == None
  {
    assert C.Parse(v) == None;
  }

  lemma AppendMeans(v: Value, data: Bytes)
    ensures var r := ApplyOp(Append(data), v);
            r.Some? && v <= r.value && r.value[|v|..] == data
  {
    assert (v + data)[|v|..] == data;
  }

  lemma PrependMeans(v: Value, data: Bytes)
    ensures var r := ApplyOp(Prepend(data), v);
            r.Some? && data <= r.value && r.value[|data|..] == v
  {
    assert (data + v)[|data|..] == v;
  }

  // ---------- operations and commit ----------

  /** What is published under k after one operation of tid and its commit. */
  ghost function Published(c: Cache, tid: Tid, k: Key, op: Op, pending: int, cfg: int): Option<Value> {
    ItemVal(Commit(IqOp(c, tid, k, op).0, tid, pending, cfg).0.values, k)
  }

  /** In every run, one operation on a key that is cached and not quarantined, and then
      commit, publish what the operation makes of the cached value. */
  lemma OneOperation(w: World, steps: seq<Step>, tid: Tid, k: Key, op: Op, pending: int, cfg: int)
    requires Init(w) && ValidRun(w, steps)
    requires !QLeased(Final(w, steps).c, k) && k in Final(w, steps).c.values
    ensures var c := Final(w, steps).c;
            Published(c, tid, k, op, pending, cfg) == Effect(Did(op), ItemVal(c.values, k))
  {
    RunKeeps(w, steps);
    var f := Final(w, steps);
    var f1 := After(f, IqOpStep(tid, k, op));
    StepKeeps(f, IqOpStep(tid, k, op));
    FirstOpRecorded(f, tid, k, op);
    assert KeyOk(f1, k);
    ReplaySnoc(f1.work[k].before, [], Did(op));
    CommitOwn(f1, tid, pending, cfg, k);
  }

  lemma FirstOpRecorded(f: World, tid: Tid, k: Key, op: Op)
    requires !QLeased(f.c, k) && k !in f.c.versions
    ensures var f1 := After(f, IqOpStep(tid, k, op));
            QLeased(f1.c, k) && k in f1.work && f1.work[k] == Work(tid, ItemVal(f.c.values, k), [] + [Did(op)])
  {
    FirstOpIs(f, tid, k, op);
  }

  /** In every run, a counter is counted up, wrapping, or down, to zero at least; one
      that is too large to be read is published as it was. */
  lemma CounterPublished(w: World, steps: seq<Step>, tid: Tid, k: Key, v: nat, d: nat, pending: int, cfg: int)
    requires Init(w) && ValidRun(w, steps) && !QLeased(Final(w, steps).c, k)
    requires ItemVal(Final(w, steps).c.values, k) == Some(C.Print(v))
    ensures var c := Final(w, steps).c;
            if v <= C.MAX_PARSED then
              && Published(c, tid, k, Incr(d), pending, cfg) == Some(C.Print((v + d) % C.U64))
              && Published(c, tid, k, Decr(d), pending, cfg) == Some(C.Print(if d > v then 0 else v - d))
            else
              && Published(c, tid, k, Incr(d), pending, cfg) == Some(C.Print(v))
              && Published(c, tid, k, Decr(d), pending, cfg) == Some(C.Print(v))
  {
    OneOperation(w, steps, tid, k, Incr(d), pending, cfg);
    OneOperation(w, steps, tid, k, Decr(d), pending, cfg);
    IncrMeans(v, d);
    DecrMeans(v, d);
  }

  /** In every run, appended bytes come after the value and prepended bytes before it. */
  lemma TextPublished(w: World, steps: seq<Step>, tid: Tid, k: Key, v: Value, data: Bytes, pending: int, cfg: int)
    requires Init(w) && ValidRun(w, steps) && !QLeased(Final(w, steps).c, k)
    requires ItemVal(Final(w, steps).c.values, k) == Some(v)
    ensures var c := Final(w, steps).c;
            var after, before := Published(c, tid, k, Append(data), pending, cfg), Published(c, tid, k, Prepend(data), pending, cfg);
            && after.Some? && v <= after.value && after.value[|v|..] == data
            && before.Some? && data <= before.value && before.value[|data|..] == v
  {
    OneOperation(w, steps, tid, k, Append(data), pending, cfg);
    OneOperation(w, steps, tid, k, Prepend(data), pending, cfg);
    AppendMeans(v, data);
    PrependMeans(v, data);
  }

  function Increments(deltas: seq<nat>): seq<Change> {
    seq(|deltas|, i requires 0 <= i < |deltas| => Did(Incr(deltas[i])))
  }

  function Appends(parts: seq<Bytes>): seq<Change> {
    seq(|parts|, i requires 0 <= i < |parts| => Did(Append(parts[i])))
  }

  function Joined(parts: seq<Bytes>): Bytes {
    if parts == [] then [] else Joined(parts[..|parts|-1]) + parts[|parts|-1]
  }

  lemma OneMoreIncrement(before: Option<Value>, done: seq<nat>, d: nat, x: nat)
    requires x <= C.MAX_PARSED && Replay(before, Increments(done)) == Some(C.Print(x))
    ensures Replay(before, Increments(done + [d])) == Some(C.Print((x + d) % C.U64))
  {
    assert Increments(done + [d]) == Increments(done) + [Did(Incr(d))];
    ReplaySnoc(before, Increments(done), Did(Incr(d)));
    IncrMeans(x, d);
  }

  lemma LastIncrement(v: nat, deltas: seq<nat>)
    requires deltas != [] && C.AllParse(v, deltas)
    ensures var m := |deltas| - 1;
            && C.AllParse(v, deltas[..m]) && (v + C.Sum(deltas[..m])) % C.U64 <= C.MAX_PARSED
            && ((v + C.Sum(deltas[..m])) % C.U64 + deltas[m]) % C.U64 == (v + C.Sum(deltas)) % C.U64
  {
    var m := |deltas| - 1;
    C.AllParseLast(v, deltas);
    C.ModStep(v + C.Sum(deltas[..m]), deltas[m]);
  }

  lemma {:induction false} ReplayIncrements(v: nat, deltas: seq<nat>)
    requires v < C.U64 && C.AllParse(v, deltas)
    ensures Replay(Some(C.Print(v)), Increments(deltas)) == Some(C.Print((v + C.Sum(deltas)) % C.U64))
    decreases |deltas|
  {
    if deltas != [] {
      var done, d := deltas[..|deltas|-1], deltas[|deltas|-1];
      LastIncrement(v, deltas);
      ReplayIncrements(v, done);
      OneMoreIncrement(Some(C.Print(v)), done, d, (v + C.Sum(done)) % C.U64);
      assert done + [d] == deltas;
    }
  }

  lemma OneMoreAppend(v: Value, done: seq<Bytes>, part: Bytes)
    requires Replay(Some(v), Appends(done)) == Some(v + Joined(done))
    ensures Replay(Some(v), Appends(done + [part])) == Some(v + Joined(done) + part)
  {
    assert Appends(done + [part]) == Appends(done) + [Did(Append(part))];
    ReplaySnoc(Some(v), Appends(done), Did(Append(part)));
  }

  lemma {:induction false} ReplayAppends(v: Value, parts: seq<Bytes>)
    ensures Replay(Some(v), Appends(parts)) == Some(v + Joined(parts))
    decreases |parts|
  {
    if parts == [] {
      assert v + Joined(parts) == v;
    } else {
      var done, part := parts[..|parts|-1], parts[|parts|-1];
      ReplayAppends(v, done);
      OneMoreAppend(v, done, part);
      assert done + [part] == parts;
      assert v + Joined(done) + part == v + (Joined(done) + part);
    }
  }

  /** In every run, whatever others did meanwhile, a transaction that has only
      incremented a counter publishes it with the sum of its increments added, modulo
      2^64. */
  lemma IncrementsPublished(w: World, steps: seq<Step>, tid: Tid, k: Key, v: nat, deltas: seq<nat>,
                            pending: int, cfg: int)
    requires Init(w) && ValidRun(w, steps) && InTrans(Final(w, steps).c, tid, k) && k in Final(w, steps).work
    requires Final(w, steps).work[k].before == Some(C.Print(v))
    requires Final(w, steps).work[k].changes == Increments(deltas)
    requires v < C.U64 && C.AllParse(v, deltas)
    ensures ItemVal(Commit(Final(w, steps).c, tid, pending, cfg).0.values, k)
            == Some(C.Print((v + C.Sum(deltas)) % C.U64))
  {
    CommitIsAtomic(w, steps, tid, pending, cfg);
    ReplayIncrements(v, deltas);
  }

  /** And one that has only appended to a value publishes it with all it appended after
      it, in order. */
  lemma AppendsPublished(w: World, steps: seq<Step>, tid: Tid, k: Key, v: Value, parts: seq<Bytes>,
                         pending: int, cfg: int)
    requires Init(w) && ValidRun(w, steps) && InTrans(Final(w, steps).c, tid, k) && k in Final(w, steps).work
    requires Final(w, steps).work[k].before == Some(v)
    requires Final(w, steps).work[k].changes == Appends(parts)
    ensures ItemVal(Commit(Final(w, steps).c, tid, pending, cfg).0.values, k) == Some(v + Joined(parts))
  {
    CommitIsAtomic(w, steps, tid, pending, cfg);
    ReplayAppends(v, parts);
  }

  // ---------- what a transaction is told ----------

  /** In every run, iqget from the transaction that holds a key changes nothing; under an
      incremental lease it returns what the transaction has made of the value so far, if
      anything is left of it, and otherwise no value. */
  lemma ReadsOwnWork(w: World, steps: seq<Step>, tid: Tid, k: Key, token: Token, override: bool)
    requires Init(w) && ValidRun(w, steps) && InTrans(Final(w, steps).c, tid, k)
    ensures var f := Final(w, steps);
            var (c', r) := IqGet(f.c, k, token, Some(tid), override);
            && c' == f.c && QLeased(f.c, k) && k in f.work && f.work[k].owner == tid
            && (r.Hit? || r.NoValue?)
            && (r.Hit? <==> f.c.leases[k].it.QInc? && Replay(f.work[k].before, f.work[k].changes).Some?)
            && (r.Hit? ==> Some(r.item.val) == Replay(f.work[k].before, f.work[k].changes))
            && (r.Hit? ==> r.item.cfg == -1 && r.item.p == VersionPending(f.c, k))
  {
    RunKeeps(w, steps);
    AlwaysUnstamped(w, steps);
    var f := Final(w, steps);
    assert QLeased(f.c, k);
    assert KeyOk(f, k);
  }

  /** In every run, a reader outside the transaction that holds a key gets no lease on
      it, and no value but the one from before the quarantine; that one it gets while it
      is cached, unless it asks to override or shows the token of the refresh lease. */
  lemma OthersReadPublished(w: World, steps: seq<Step>, from: Option<Tid>, k: Key, token: Token, override: bool)
    requires Init(w) && ValidRun(w, steps) && QLeased(Final(w, steps).c, k)
    requires k in Final(w, steps).work && from != Some(Final(w, steps).work[k].owner)
    ensures var f := Final(w, steps);
            var (c', r) := IqGet(f.c, k, token, from, override);
            && c' == f.c && !r.Leased?
            && (r.Hit? ==> Some(r.item.val) == f.work[k].before)
            && (r.Hit? <==> k in f.c.values && !override && f.c.leases[k].it != QRef(token))
  {
    RunKeeps(w, steps);
    var f := Final(w, steps);
    assert KeyOk(f, k);
    assert from.Some? ==> !InTrans(f.c, from.value, k);
  }

  lemma {:induction false} TokensGrow(w: World, steps: seq<Step>)
    ensures Final(w, steps).c.nextToken >= w.c.nextToken
    decreases |steps|
  {
    if steps != [] {
      if steps[0].IqGetStep? {
        IqGetCases(w.c, steps[0].k, steps[0].token, steps[0].from, steps[0].override);
      }
      TokensGrow(After(w, steps[0]), steps[1..]);
    }
  }

  /** In every run, qaread of a key that nobody holds returns the published value with a
      new token, which is then the token of the key's Q lease, the value being the
      transaction's to change; with that token it returns what has been made of it so
      far; and anyone else is told that the key is taken and changes nothing. */
  lemma QaReadTells(w: World, steps: seq<Step>, tid: Tid, k: Key, token: Token)
    requires Init(w) && ValidRun(w, steps)
    ensures var f := Final(w, steps);
            var (c', r) := QaRead(f.c, tid, k, token);
            if !QLeased(f.c, k) then
              && r.item == ItemVal(f.c.values, k) && r.pending == PendingOf(f.c, k)
              && QLeased(c', k) && c'.leases[k] == Timed(QRef(r.token), f.c.now + f.c.life)
              && r.token !in f.qTokens && r.token > LEASE_HOTMISS
              && InTrans(c', tid, k) && ItemVal(c'.versions, k) == r.item
              && c'.values == f.c.values
            else
              && c' == f.c && k in f.work
              && (LeaseValue(f.c.leases[k].it) == token ==>
                    && r.token == token && r.pending == VersionPending(f.c, k)
                    && r.item == Replay(f.work[k].before, f.work[k].changes))
              && (LeaseValue(f.c.leases[k].it) != token ==> r == QaReply(LEASE_HOTMISS, None, 0))
  {
    RunKeeps(w, steps);
    TokensGrow(w, steps);
    var f := Final(w, steps);
    if QLeased(f.c, k) {
      assert KeyOk(f, k);
    } else {
      QuarantineKeeps(f, tid, k, QRef(f.c.nextToken));
      assert KeyOk(Begin(f, tid, k).(c := QaRead(f.c, tid, k, token).0), k);
    }
  }

  /** What an operation on a key answers and leaves behind: p and v are the flag and the
      value it finds. */
  ghost predicate Answers(c: Cache, k: Key, op: Op, p: int, v: Option<Value>, c': Cache, r: OpReply) {
    && QLeased(c', k) && !r.OpAbort? && r.token == LeaseValue(c'.leases[k].it) && r.pending == p
    && (r.OpNoValue? <==> v == None)
    && (r.OpLease? <==> v.Some? && ApplyOp(op, v.value).Some?)
    && ItemVal(c'.versions, k) == (if r.OpLease? then ApplyOp(op, v.value) else v)
    && c'.values == c.values && c'.marks == c.marks
  }

  lemma FirstOpTells(c: Cache, tid: Tid, k: Key, op: Op)
    requires !QLeased(c, k) && k !in c.versions
    ensures var (c', r) := IqOp(c, tid, k, op);
            Answers(c, k, op, PendingOf(c, k), ItemVal(c.values, k), c', r)
  {
  }

  lemma NextOpTells(c: Cache, tid: Tid, k: Key, op: Op)
    requires QLeased(c, k) && InTrans(c, tid, k)
    ensures var (c', r) := IqOp(c, tid, k, op);
            && Answers(c, k, op, VersionPending(c, k), ItemVal(c.versions, k), c', r)
            && c'.trans == c.trans && c'.leases == c.leases
            && (k in c.versions ==> k in c'.versions && c'.versions[k].exp == c.versions[k].exp)
  {
  }

  lemma TakenByFirstOp(f: World, tid: Tid, k: Key, op: Op)
    requires Inv(f) && !QLeased(f.c, k)
    ensures InTrans(IqOp(f.c, tid, k, op).0, tid, k)
  {
    StepKeeps(f, IqOpStep(tid, k, op));
    FirstOpRecorded(f, tid, k, op);
    assert KeyOk(After(f, IqOpStep(tid, k, op)), k);
  }

  /** In every run, an operation on a key that another transaction holds is refused and
      changes nothing.  Any other leaves the key with its transaction and answers with
      the token of its Q lease: that the value was changed, that there is none, or that
      the operation does not apply to it, in which two cases it stays what it was. */
  lemma OperationTells(w: World, steps: seq<Step>, tid: Tid, k: Key, op: Op)
    requires Init(w) && ValidRun(w, steps)
    ensures var f := Final(w, steps);
            var (c', r) := IqOp(f.c, tid, k, op);
            if !QLeased(f.c, k) then
              InTrans(c', tid, k) && Answers(f.c, k, op, PendingOf(f.c, k), ItemVal(f.c.values, k), c', r)
            else if InTrans(f.c, tid, k) then
              && InTrans(c', tid, k) && k in f.work
              && Answers(f.c, k, op, VersionPending(f.c, k), Replay(f.work[k].before, f.work[k].changes), c', r)
            else c' == f.c && r == OpAbort
  {
    RunKeeps(w, steps);
    var f := Final(w, steps);
    if !QLeased(f.c, k) {
      FirstOpTells(f.c, tid, k, op);
      TakenByFirstOp(f, tid, k, op);
    } else if InTrans(f.c, tid, k) {
      assert KeyOk(f, k);
      NextOpTells(f.c, tid, k, op);
    }
  }

  // ---------- what a pending version carries ----------

  ghost predicate Unstamped(c: Cache) {
    forall k :: k in c.versions ==> c.versions[k].it.cfg == -1
  }

  lemma CommitDropsVersions(c: Cache, tid: Tid, pending: int, cfg: int, k: Key)
    ensures var c' := Commit(c, tid, pending, cfg).0;
            k in c'.versions ==> k in c.versions && c'.versions[k] == c.versions[k]
  {
  }

  lemma OpUnstamped(c: Cache, tid: Tid, k: Key, op: Op)
    requires Unstamped(c)
    ensures Unstamped(IqOp(c, tid, k, op).0)
  {
  }

  lemma UnstampedStep(w: World, s: Step)
    requires Unstamped(w.c)
    ensures Unstamped(After(w, s).c)
  {
    match s
    case CommitStep(tid, pending, cfg) =>
      forall k | k in After(w, s).c.versions ensures After(w, s).c.versions[k].it.cfg == -1 {
        CommitDropsVersions(w.c, tid, pending, cfg, k);
      }
    case IqGetStep(k, token, from, override) => IqGetCases(w.c, k, token, from, override);
    case IqOpStep(tid, k, op) =>
      OpUnstamped(w.c, tid, k, op);
      assert After(w, s).c == IqOp(w.c, tid, k, op).0;
    case _ =>
  }

  lemma {:induction false} AlwaysUnstamped(w: World, steps: seq<Step>)
    requires Unstamped(w.c)
    ensures Unstamped(Final(w, steps).c)
    decreases |steps|
  {
    if steps != [] {
      UnstampedStep(w, steps[0]);
      AlwaysUnstamped(After(w, steps[0]), steps[1..]);
    }
  }

  /** A step that takes the pending version of k, or the mark in its place, away. */
  predicate Loses(s: Step, k: Key) {
    (s.EvictVersionStep? || s.EvictMarkStep?) && s.k == k
  }

  lemma FlagStep(w: World, s: Step, k: Key)
    requires Inv(w) && Enabled(w, s) && QLeased(w.c, k) && !Ends(s, w.work[k].owner) && !Loses(s, k)
    ensures VersionPending(After(w, s).c, k) == VersionPending(w.c, k)
  {
    assert KeyOk(w, k);
    match s
    case CommitStep(tid, pending, cfg) => FlagCommit(w, tid, pending, cfg, k);
    case ReleaseStep(tid) => NotItsKey(w, tid, k);
    case IqGetStep(x, token, from, override) => IqGetCases(w.c, x, token, from, override);
    case IqOpStep(tid, x, op) =>
      FlagOp(w.c, tid, x, op, k);
      assert After(w, s).c == IqOp(w.c, tid, x, op).0;
    case _ =>
  }

  lemma FlagOp(c: Cache, tid: Tid, x: Key, op: Op, k: Key)
    requires QLeased(c, k)
    ensures VersionPending(IqOp(c, tid, x, op).0, k) == VersionPending(c, k)
  {
  }

  lemma FlagCommit(w: World, tid: Tid, pending: int, cfg: int, k: Key)
    requires Inv(w) && QLeased(w.c, k) && w.work[k].owner != tid
    ensures VersionPending(Commit(w.c, tid, pending, cfg).0, k) == VersionPending(w.c, k)
  {
    assert !InTrans(w.c, tid, k);
    CommitOther(w.c, tid, pending, cfg, k);
    var c' := Commit(w.c, tid, pending, cfg).0;
    assert Lookup(c'.versions, k) == Lookup(w.c.versions, k);
  }

  /** From any moment of a run at which a transaction has quarantined a key until it ends,
      whatever all others do and however it changes the pending version, the flag it is told
      stays the same, unless version or mark is evicted. */
  lemma {:induction false} FlagStays(w: World, steps: seq<Step>, k: Key)
    requires Inv(w) && QLeased(w.c, k) && ValidRun(w, steps)
    requires forall i :: 0 <= i < |steps| ==> !Ends(steps[i], w.work[k].owner) && !Loses(steps[i], k)
    ensures VersionPending(Final(w, steps).c, k) == VersionPending(w.c, k)
    decreases |steps|
  {
    if steps != [] {
      var w1 := After(w, steps[0]);
      FlagStep(w, steps[0], k);
      StaysWithOwner(w, steps[0], k);
      StepKeeps(w, steps[0]);
      forall i | 0 <= i < |steps[1..]| ensures !Ends(steps[1..][i], w1.work[k].owner) && !Loses(steps[1..][i], k) {
        assert steps[1..][i] == steps[i+1];
      }
      FlagStays(w1, steps[1..], k);
    }
  }
}
