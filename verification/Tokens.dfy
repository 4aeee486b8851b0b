/** Lease tokens over runs of all the I/Q commands together. */
module Tokens {
  import opened Bytes
  import opened LeaseSpec

  datatype Command =
    | CmdIqGet(k: Key, token: Token, from: Option<Tid>, override: bool)
    | CmdIqSet(k: Key, token: Token, data: Bytes, exp: nat, cfg: int)
    | CmdUnlease(k: Key, token: Token)
    | CmdDelete(k: Key)
    | CmdQaReg(tid: Tid, k: Key)
    | CmdDar(tid: Tid)
    | CmdQaRead(tid: Tid, k: Key, token: Token)
    | CmdSwap(k: Key, token: Token, data: Bytes)
    | CmdIqOp(tid: Tid, k: Key, op: Op)
    | CmdCommit(tid: Tid, pending: int, cfg: int)
    | CmdRelease(tid: Tid)
    | CmdEvict(values: set<Key>, versions: set<Key>, marks: set<Key>)
    | CmdTick(d: nat)

  predicate Allowed(c: Cache, cmd: Command) {
    cmd.CmdQaReg? ==> Registrable(c, cmd.k)
  }

  ghost function Do(c: Cache, cmd: Command): Cache
    requires Allowed(c, cmd)
  {
    match cmd
    case CmdIqGet(k, token, from, override) => IqGet(c, k, token, from, override).0
    case CmdIqSet(k, token, data, exp, cfg) => IqSet(c, k, token, data, exp, cfg).0
    case CmdUnlease(k, token) => Unlease(c, k, token)
    case CmdDelete(k) => Delete(c, k).0
    case CmdQaReg(tid, k) => QaReg(c, tid, k)
    case CmdDar(tid) => Dar(c, tid).0
    case CmdQaRead(tid, k, token) => QaRead(c, tid, k, token).0
    case CmdSwap(k, token, data) => Swap(c, k, token, data).0
    case CmdIqOp(tid, k, op) => IqOp(c, tid, k, op).0
    case CmdCommit(tid, pending, cfg) => Commit(c, tid, pending, cfg).0
    case CmdRelease(tid) => Release(c, tid).0
    case CmdEvict(vs, ps, ms) =>
      c.(values := c.values - vs, versions := c.versions - ps, marks := c.marks - ms)
    case CmdTick(d) => Tick(c, d)
  }

  ghost predicate ValidRun(c: Cache, cmds: seq<Command>)
    decreases |cmds|
  {
    cmds == [] || (Allowed(c, cmds[0]) && ValidRun(Do(c, cmds[0]), cmds[1..]))
  }

  ghost function DoAll(c: Cache, cmds: seq<Command>): Cache
    requires ValidRun(c, cmds)
    decreases |cmds|
  {
    if cmds == [] then c else DoAll(Do(c, cmds[0]), cmds[1..])
  }

  /** k's I lease, the only thing that lets iqset through, carries token t. */
  predicate Holds(c: Cache, k: Key, t: Token) {
    k in c.leases && c.leases[k].it == I(t)
  }

  ghost predicate Dead(c: Cache, t: Token) {
    forall k :: !Holds(c, k, t)
  }

  predicate Empty(c: Cache) {
    c.leases == map[] && c.nextToken == LEASE_START
  }

  /** k's lease, I or Q, was granted with token t. */
  predicate Carries(c: Cache, k: Key, t: Token) {
    k in c.leases && !c.leases[k].it.QInv? && c.leases[k].it.token == t
  }

  /** Tokens in use have been issued, and no two keys share one. */
  ghost predicate Inv(c: Cache) {
    && c.nextToken >= LEASE_START
    && (forall k, t: Token :: Carries(c, k, t) ==> LEASE_START <= t < c.nextToken)
    && (forall k, k', t: Token :: Carries(c, k, t) && Carries(c, k', t) ==> k == k')
  }

  /** What a command may do to leases: keep one, take one away, share one, or put
      one with the next token on the key at, using the token up. */
  ghost predicate Evolves(c: Cache, c': Cache, at: Key) {
    && c.nextToken <= c'.nextToken
    && (forall k :: k in c'.leases && !c'.leases[k].it.QInv? ==>
          || (k in c.leases && c'.leases[k].it == c.leases[k].it)
          || (k == at && c'.leases[k].it.token == c.nextToken < c'.nextToken))
  }

  lemma EvolvesKeeps(c: Cache, c': Cache, at: Key)
    requires Inv(c) && Evolves(c, c', at)
    ensures Inv(c')
    ensures forall t: Token :: t < c.nextToken && Dead(c, t) ==> Dead(c', t)
    ensures forall k, t: Token :: Holds(c, k, t) && !Holds(c', k, t) ==> Dead(c', t)
  {
    forall k, t: Token | Carries(c', k, t) ensures LEASE_START <= t < c'.nextToken {
      assert Carries(c, k, t) || t == c.nextToken;
    }
    forall k, k', t: Token | Carries(c', k, t) && Carries(c', k', t) ensures k == k' {
      assert Carries(c, k, t) || (k == at && t == c.nextToken);
      assert Carries(c, k', t) || (k' == at && t == c.nextToken);
    }
    forall x, t: Token | Holds(c', x, t) ensures Holds(c, x, t) || t == c.nextToken {}
    forall k, t: Token | Holds(c, k, t) && !Holds(c', k, t) ensures Dead(c', t) {
      assert Carries(c, k, t);
      forall x ensures !Holds(c', x, t) {
        assert Carries(c, x, t) ==> x == k;
      }
    }
  }

  ghost function KeyOf(cmd: Command): Key {
    if cmd.CmdIqGet? || cmd.CmdQaRead? || cmd.CmdIqOp? then cmd.k else []
  }

  /** The commands that grant a lease. */
  lemma Granting(c: Cache, cmd: Command)
    requires cmd.CmdIqGet? || cmd.CmdQaRead? || cmd.CmdIqOp?
    ensures Evolves(c, Do(c, cmd), KeyOf(cmd))
  {
    if cmd.CmdIqGet? {
      IqGetCases(c, cmd.k, cmd.token, cmd.from, cmd.override);
    }
  }

  /** The commands that end a transaction. */
  lemma Ending(c: Cache, cmd: Command)
    requires cmd.CmdDar? || cmd.CmdCommit? || cmd.CmdRelease?
    ensures Evolves(c, Do(c, cmd), KeyOf(cmd))
  {
  }

  lemma Step(c: Cache, cmd: Command)
    requires Inv(c) && Allowed(c, cmd)
    ensures Evolves(c, Do(c, cmd), KeyOf(cmd))
  {
    if cmd.CmdIqGet? || cmd.CmdQaRead? || cmd.CmdIqOp? {
      Granting(c, cmd);
    } else if cmd.CmdDar? || cmd.CmdCommit? || cmd.CmdRelease? {
      Ending(c, cmd);
    }
  }

  lemma {:induction false} Run(c: Cache, cmds: seq<Command>)
    requires Inv(c) && ValidRun(c, cmds)
    ensures Inv(DoAll(c, cmds)) && c.nextToken <= DoAll(c, cmds).nextToken
    decreases |cmds|
  {
    if cmds != [] {
      Step(c, cmds[0]);
      EvolvesKeeps(c, Do(c, cmds[0]), KeyOf(cmds[0]));
      Run(Do(c, cmds[0]), cmds[1..]);
    }
  }

  /** An issued token that is no key's I lease never becomes one again. */
  lemma {:induction false} DeadStaysDead(c: Cache, cmds: seq<Command>, t: Token)
    requires Inv(c) && ValidRun(c, cmds) && t < c.nextToken && Dead(c, t)
    ensures Dead(DoAll(c, cmds), t)
    decreases |cmds|
  {
    if cmds != [] {
      Step(c, cmds[0]);
      EvolvesKeeps(c, Do(c, cmds[0]), KeyOf(cmds[0]));
      DeadStaysDead(Do(c, cmds[0]), cmds[1..], t);
    }
  }

  /** A token belongs to one key for good. */
  lemma {:induction false} TokenKeepsItsKey(c: Cache, cmds: seq<Command>, k: Key, k': Key, t: Token)
    requires Inv(c) && ValidRun(c, cmds)
    requires Holds(c, k, t) && Holds(DoAll(c, cmds), k', t)
    ensures k == k'
    decreases |cmds|
  {
    assert Carries(c, k, t) && Carries(DoAll(c, cmds), k', t);
    if cmds != [] {
      Step(c, cmds[0]);
      EvolvesKeeps(c, Do(c, cmds[0]), KeyOf(cmds[0]));
      var c' := Do(c, cmds[0]);
      if !Holds(c', k, t) {
        DeadStaysDead(c', cmds[1..], t);
      } else {
        TokenKeepsItsKey(c', cmds[1..], k, k', t);
      }
    }
  }

  predicate Stores(c: Cache, cmd: Command, t: Token) {
    cmd.CmdIqSet? && cmd.token == t && IqSet(c, cmd.k, t, cmd.data, cmd.exp, cmd.cfg).1
  }

  /** How many iqset commands with token t succeed. */
  ghost function StoreCount(c: Cache, cmds: seq<Command>, t: Token): nat
    requires ValidRun(c, cmds)
    decreases |cmds|
  {
    if cmds == [] then 0
    else (if Stores(c, cmds[0], t) then 1 else 0) + StoreCount(Do(c, cmds[0]), cmds[1..], t)
  }

  lemma {:induction false} DeadTokenStoresNothing(c: Cache, cmds: seq<Command>, t: Token)
    requires Inv(c) && ValidRun(c, cmds) && t < c.nextToken && Dead(c, t)
    ensures StoreCount(c, cmds, t) == 0
    decreases |cmds|
  {
    if cmds != [] {
      var c' := Do(c, cmds[0]);
      Step(c, cmds[0]);
      EvolvesKeeps(c, Do(c, cmds[0]), KeyOf(cmds[0]));
      if Stores(c, cmds[0], t) {
        assert Holds(c, cmds[0].k, t);
      }
      DeadTokenStoresNothing(c', cmds[1..], t);
    }
  }

  /** In every run iqset succeeds at most once per token. */
  lemma {:induction false} StoresAtMostOnce(c: Cache, cmds: seq<Command>, t: Token)
    requires Inv(c) && ValidRun(c, cmds)
    ensures StoreCount(c, cmds, t) <= 1
    decreases |cmds|
  {
    if cmds != [] {
      var c' := Do(c, cmds[0]);
      Step(c, cmds[0]);
      EvolvesKeeps(c, Do(c, cmds[0]), KeyOf(cmds[0]));
      if Stores(c, cmds[0], t) {
        assert Carries(c, cmds[0].k, t) && !Holds(c', cmds[0].k, t);
        DeadTokenStoresNothing(c', cmds[1..], t);
      } else {
        StoresAtMostOnce(c', cmds[1..], t);
      }
    }
  }

  /** The commands that grant a Q lease on k. */
  predicate Quarantines(cmd: Command, k: Key) {
    (cmd.CmdQaReg? || cmd.CmdQaRead? || cmd.CmdIqOp?) && cmd.k == k
  }

  /** In every run from an empty cache: once a Q lease voids k's I lease, its
      token never stores anything again. */
  lemma VoidedTokenStoresNothing(c: Cache, cmds: seq<Command>, k: Key, t: Token, cmd: Command, later: seq<Command>)
    requires Empty(c) && ValidRun(c, cmds)
    requires Holds(DoAll(c, cmds), k, t) && Quarantines(cmd, k)
    requires Allowed(DoAll(c, cmds), cmd) && ValidRun(Do(DoAll(c, cmds), cmd), later)
    ensures var c1 := Do(DoAll(c, cmds), cmd);
            Dead(c1, t) && StoreCount(c1, later, t) == 0 && Dead(DoAll(c1, later), t)
  {
    Run(c, cmds);
    var c0 := DoAll(c, cmds);
    Step(c0, cmd);
    var c1 := Do(c0, cmd);
    EvolvesKeeps(c0, c1, KeyOf(cmd));
    assert Carries(c0, k, t);
    assert !Holds(c1, k, t);
    DeadTokenStoresNothing(c1, later, t);
    DeadStaysDead(c1, later, t);
  }

  /** The hot-miss marker is never a token that lets iqset through. */
  lemma HotMissNeverStores(c: Cache, cmds: seq<Command>, cmd: Command)
    requires Empty(c) && ValidRun(c, cmds)
    ensures !Stores(DoAll(c, cmds), cmd, LEASE_HOTMISS)
    ensures Dead(DoAll(c, cmds), LEASE_HOTMISS)
  {
    Run(c, cmds);
    var c' := DoAll(c, cmds);
    forall k ensures !Holds(c', k, LEASE_HOTMISS) {
      assert !Carries(c', k, LEASE_HOTMISS);
    }
    assert cmd.CmdIqSet? ==> !Holds(c', cmd.k, LEASE_HOTMISS);
  }
}
