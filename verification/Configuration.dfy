/** Configurations of fragments over servers, as ConfigurationManagement.java
    builds them one after the other. */
module Configuration {
  import opened Basics
  import opened Bytes

  type Server = string

  datatype FragmentState = Normal | Migrate

  datatype ServerState = ServerNormal | ServerMigration

  datatype Fragment = Fragment(
    id: int,
    server: Server,
    migrateServer: Server,
    cfgId: int,
    prevCfgId: int,
    nextCfgId: int,
    state: FragmentState)

  /** What the builders call "-1". */
  const NO_SERVER: Server := "-1"

  // ---------- one fragment ----------

  /** A fragment of the next configuration, with migration: unchanged while it
      stays, and otherwise pointing back at the server it leaves. */
  function Moved(prev: Fragment, next: Fragment, number: int, i: int): Fragment {
    if prev.server == next.server then prev.(id := i)
    else
      Fragment(i, next.server, prev.server,
               if prev.nextCfgId != -1 then prev.nextCfgId else number,
               prev.cfgId, -1, Migrate)
  }

  /** A fragment of the next configuration, without migration. */
  function MovedNormally(prev: Fragment, next: Fragment, number: int, i: int): Fragment {
    next.(id := i,
          cfgId := if prev.server == next.server then prev.cfgId else number,
          prevCfgId := -1, nextCfgId := -1, state := Normal)
  }

  function NextFragment(prev: Fragment, next: Fragment, number: int, i: int, migrating: bool): Fragment {
    if migrating then Moved(prev, next, number, i) else MovedNormally(prev, next, number, i)
  }

  // ---------- the builders ----------

  /** The first n fragments are those of the next configuration, the others as given. */
  ghost predicate DoneTo(prev: seq<Fragment>, next: seq<Fragment>, frags: seq<Fragment>, n: nat,
                         number: int, migrating: bool) {
    && n <= |prev| && n <= |next| == |frags|
    && (forall j :: 0 <= j < n ==> frags[j] == NextFragment(prev[j], next[j], number, j, migrating))
    && (forall j :: n <= j < |next| ==> frags[j] == next[j])
  }

  lemma DoneNext(prev: seq<Fragment>, next: seq<Fragment>, before: seq<Fragment>, frags: seq<Fragment>, n: nat,
                 number: int, migrating: bool)
    requires DoneTo(prev, next, before, n, number, migrating) && n < |prev| && n < |next|
    requires frags == before[n := NextFragment(prev[n], next[n], number, n, migrating)]
    ensures DoneTo(prev, next, frags, n + 1, number, migrating)
  {
  }

  /** One of the first n fragments is on the server. */
  ghost predicate OnServer(frags: seq<Fragment>, n: nat, s: Server)
    requires n <= |frags|
  {
    exists i :: 0 <= i < n && frags[i].server == s
  }

  /** One of the first n fragments is migrating to the server. */
  ghost predicate MigratesTo(frags: seq<Fragment>, n: nat, s: Server)
    requires n <= |frags|
  {
    exists i :: 0 <= i < n && frags[i].server == s && frags[i].state.Migrate?
  }

  /** Which servers a list of fragments gives a state, and which one. */
  ghost predicate StatesOf(frags: seq<Fragment>, n: nat, states: map<Server, ServerState>)
    requires n <= |frags|
  {
    && (forall s :: s in states <==> OnServer(frags, n, s))
    && (forall s :: s in states ==> (states[s].ServerMigration? <==> MigratesTo(frags, n, s)))
  }

  datatype Built = Built(frags: seq<Fragment>, states: map<Server, ServerState>)

  /** buildNextConfig.  Fragments beyond those of the previous configuration are
      passed on as they are; too few of them are an index out of bounds. */
  method BuildNextConfig(prev: seq<Fragment>, next: seq<Fragment>, number: int)
      returns (r: Option<Built>)
    ensures r.None? <==> |next| < |prev|
    ensures r.Some? ==> DoneTo(prev, next, r.value.frags, |prev|, number, true)
    ensures r.Some? ==> StatesOf(r.value.frags, |prev|, r.value.states)
  {
    var frags, states := next, map[];
    for i := 0 to |prev|
      invariant DoneTo(prev, next, frags, i, number, true)
      invariant StatesOf(frags, i, states)
    {
      if i >= |next| {
        return None;
      }
      var newFrag := Move(prev[i], frags[i], number, i);
      ghost var before, was := frags, states;
      frags := frags[i := newFrag];
      states := NoteServer(states, newFrag);
      DoneNext(prev, next, before, frags, i, number, true);
      StatesNext(before, frags, i, was, states);
    }
    return Some(Built(frags, states));
  }

  /** A server's state is migrating once one of its fragments is. */
  method NoteServer(was: map<Server, ServerState>, frag: Fragment) returns (states: map<Server, ServerState>)
    ensures var s, m := frag.server, frag.state.Migrate?;
            states == if s in was && !m then was else was[s := if m then ServerMigration else ServerNormal]
  {
    states := was;
    var state := if frag.state.Migrate? then ServerMigration else ServerNormal;
    if frag.server !in states {
      states := states[frag.server := state];
    } else if state == ServerMigration {
      states := states[frag.server := state];
    }
  }

  /** The body of the loop of buildNextConfig. */
  method Move(prevFrag: Fragment, next: Fragment, number: int, i: int) returns (newFrag: Fragment)
    ensures newFrag == Moved(prevFrag, next, number, i)
  {
    newFrag := next;
    if prevFrag.server == newFrag.server {
      newFrag := newFrag.(migrateServer := prevFrag.migrateServer, cfgId := prevFrag.cfgId,
                          prevCfgId := prevFrag.prevCfgId, nextCfgId := prevFrag.nextCfgId,
                          state := prevFrag.state);
    } else {
      newFrag := newFrag.(migrateServer := prevFrag.server);
      if prevFrag.nextCfgId != -1 {
        newFrag := newFrag.(cfgId := prevFrag.nextCfgId);
      } else {
        newFrag := newFrag.(cfgId := number);
      }
      newFrag := newFrag.(prevCfgId := prevFrag.cfgId, nextCfgId := -1, state := Migrate);
    }
    newFrag := newFrag.(id := i);
  }

  /** The body of the loop of buildNextNormalConfig. */
  method MoveNormally(prevFrag: Fragment, next: Fragment, number: int, i: int) returns (newFrag: Fragment)
    ensures newFrag == MovedNormally(prevFrag, next, number, i)
  {
    newFrag := next;
    if prevFrag.server == newFrag.server {
      newFrag := newFrag.(cfgId := prevFrag.cfgId);
    } else {
      newFrag := newFrag.(cfgId := number);
    }
    newFrag := newFrag.(prevCfgId := -1, nextCfgId := -1, state := Normal, id := i);
  }

  /** buildNextNormalConfig, likewise */
  method BuildNextNormalConfig(prev: seq<Fragment>, next: seq<Fragment>, number: int)
      returns (r: Option<Built>)
    ensures r.None? <==> |next| < |prev|
    ensures r.Some? ==> DoneTo(prev, next, r.value.frags, |prev|, number, false)
    ensures r.Some? ==> StatesOf(r.value.frags, |prev|, r.value.states)
  {
    var frags, states := next, map[];
    for i := 0 to |prev|
      invariant DoneTo(prev, next, frags, i, number, false)
      invariant StatesOf(frags, i, states)
    {
      if i >= |next| {
        return None;
      }
      var newFrag := MoveNormally(prev[i], frags[i], number, i);
      ghost var before, was := frags, states;
      frags := frags[i := newFrag];
      states := NoteServer(states, newFrag);
      DoneNext(prev, next, before, frags, i, number, false);
      StatesNext(before, frags, i, was, states);
    }
    return Some(Built(frags, states));
  }

  lemma StatesNext(before: seq<Fragment>, frags: seq<Fragment>, i: nat,
                   was: map<Server, ServerState>, states: map<Server, ServerState>)
    requires i < |before| && |frags| == |before| && frags == before[i := frags[i]]
    requires StatesOf(before, i, was)
    requires var s, m := frags[i].server, frags[i].state.Migrate?;
             states == if s in was && !m then was
                       else was[s := if m then ServerMigration else ServerNormal]
    ensures StatesOf(frags, i + 1, states)
  {
    forall s
      ensures s in states <==> OnServer(frags, i + 1, s)
      ensures s in states ==> (states[s].ServerMigration? <==> MigratesTo(frags, i + 1, s))
    {
      OnServerNext(before, frags, i, s);
    }
  }

  lemma OnServerNext(before: seq<Fragment>, frags: seq<Fragment>, i: nat, s: Server)
    requires i < |before| && |frags| == |before| && frags == before[i := frags[i]]
    ensures OnServer(frags, i + 1, s) <==> OnServer(before, i, s) || frags[i].server == s
    ensures MigratesTo(frags, i + 1, s) <==>
            MigratesTo(before, i, s) || (frags[i].server == s && frags[i].state.Migrate?)
  {
    if j :| 0 <= j < i && before[j].server == s {
      assert frags[j].server == s;
    }
    if j :| 0 <= j < i + 1 && frags[j].server == s {
      assert j < i ==> before[j].server == s;
    }
    if j :| 0 <= j < i && before[j].server == s && before[j].state.Migrate? {
      assert frags[j].server == s && frags[j].state.Migrate?;
    }
    if j :| 0 <= j < i + 1 && frags[j].server == s && frags[j].state.Migrate? {
      assert j < i ==> before[j].server == s && before[j].state.Migrate?;
    }
  }

  /** n fragments on one server, numbered from first. */
  function Block(server: Server, first: nat, n: nat): seq<Fragment> {
    if n == 0 then []
    else Block(server, first, n - 1) + [Fragment(first + n - 1, server, NO_SERVER, 0, -1, -1, Normal)]
  }

  function Initial(servers: seq<Server>, fragsPerServer: map<Server, nat>): seq<Fragment>
    requires forall s :: s in servers ==> s in fragsPerServer
  {
    if servers == [] then []
    else
      var last := servers[|servers|-1];
      var before := Initial(servers[..|servers|-1], fragsPerServer);
      before + Block(last, |before|, fragsPerServer[last])
  }

  function CountOn(frags: seq<Fragment>, server: Server): nat {
    if frags == [] then 0
    else CountOn(frags[..|frags|-1], server) + if frags[|frags|-1].server == server then 1 else 0
  }

  lemma {:induction false} BlockShape(server: Server, first: nat, n: nat)
    ensures |Block(server, first, n)| == n
    ensures forall j :: 0 <= j < n ==>
              Block(server, first, n)[j] == Fragment(first + j, server, NO_SERVER, 0, -1, -1, Normal)
  {
    if n > 0 {
      BlockShape(server, first, n - 1);
    }
  }

  lemma CountSnoc(frags: seq<Fragment>, x: Fragment, server: Server)
    ensures CountOn(frags + [x], server) == CountOn(frags, server) + if x.server == server then 1 else 0
  {
    assert (frags + [x])[..|frags|] == frags;
  }

  lemma {:induction false} CountBlock(before: seq<Fragment>, owner: Server, first: nat, n: nat, server: Server)
    ensures CountOn(before + Block(owner, first, n), server)
         == CountOn(before, server) + if owner == server then n else 0
  {
    if n == 0 {
      assert before + [] == before;
    } else {
      CountBlock(before, owner, first, n - 1, server);
      var x := Fragment(first + n - 1, owner, NO_SERVER, 0, -1, -1, Normal);
      CountSnoc(before + Block(owner, first, n - 1), x, server);
      Regroup(before, Block(owner, first, n - 1), x);
    }
  }

  lemma Regroup(a: seq<Fragment>, b: seq<Fragment>, x: Fragment)
    ensures a + (b + [x]) == (a + b) + [x]
  {
  }

  lemma {:induction false} InitialIsInitial(servers: seq<Server>, fragsPerServer: map<Server, nat>)
    requires forall s :: s in servers ==> s in fragsPerServer
    ensures IsInitial(Initial(servers, fragsPerServer))
  {
    if servers != [] {
      var n := |servers| - 1;
      InitialIsInitial(servers[..n], fragsPerServer);
      BlockShape(servers[n], |Initial(servers[..n], fragsPerServer)|, fragsPerServer[servers[n]]);
    }
  }

  /** The first configuration gives each server exactly its share. */
  lemma {:induction false} InitialShares(servers: seq<Server>, fragsPerServer: map<Server, nat>, server: Server)
    requires forall s :: s in servers ==> s in fragsPerServer
    requires NoDuplicates(servers)
    ensures IsInitial(Initial(servers, fragsPerServer))
    ensures CountOn(Initial(servers, fragsPerServer), server)
         == if server in servers then fragsPerServer[server] else 0
  {
    if servers != [] {
      var n := |servers| - 1;
      InitialShares(servers[..n], fragsPerServer, server);
      var before := Initial(servers[..n], fragsPerServer);
      BlockShape(servers[n], |before|, fragsPerServer[servers[n]]);
      CountBlock(before, servers[n], |before|, fragsPerServer[servers[n]], server);
    }
  }

  /** buildInitConfig */
  method BuildInitConfig(servers: seq<Server>, fragsPerServer: map<Server, nat>)
      returns (frags: seq<Fragment>, states: map<Server, ServerState>)
    requires forall s :: s in servers ==> s in fragsPerServer
    ensures frags == Initial(servers, fragsPerServer)
    ensures states == map s | s in servers :: ServerNormal
  {
    frags, states := [], map[];
    var fragId := 0;
    for k := 0 to |servers|
      invariant fragId == |frags| && frags == Initial(servers[..k], fragsPerServer)
      invariant states == map s | s in servers[..k] :: ServerNormal
    {
      var server := servers[k];
      states := states[server := ServerNormal];
      ghost var before := frags;
      for j := 0 to fragsPerServer[server]
        invariant fragId == |frags| == |before| + j && frags == before + Block(server, |before|, j)
      {
        frags := frags + [Fragment(fragId, server, NO_SERVER, 0, -1, -1, Normal)];
        fragId := fragId + 1;
      }
      assert servers[..k+1] == servers[..k] + [server];
      assert servers[..k+1][..k] == servers[..k];
    }
    assert servers[..|servers|] == servers;
  }

  // ---------- chains of configurations ----------

  predicate IsInitial(frags: seq<Fragment>) {
    forall i :: 0 <= i < |frags| ==>
      frags[i] == Fragment(i, frags[i].server, NO_SERVER, 0, -1, -1, Normal)
  }

  /** cfg is a configuration that the builder makes from prev, for some placement
      of the same fragments listed in the order of their ids; BuilderBuilds says
      why the placement may be taken to be cfg itself. */
  predicate BuiltFrom(prev: seq<Fragment>, cfg: seq<Fragment>, number: nat, migrating: bool) {
    && |cfg| == |prev|
    && forall i :: 0 <= i < |prev| ==> cfg[i] == NextFragment(prev[i], cfg[i], number, i, migrating)
  }

  lemma BuilderBuilds(prev: seq<Fragment>, next: seq<Fragment>, cfg: seq<Fragment>, number: nat, migrating: bool)
    requires |next| == |prev| && DoneTo(prev, next, cfg, |prev|, number, migrating)
    ensures BuiltFrom(prev, cfg, number, migrating)
  {
  }

  /** Configuration number n + 1 is built from number n. */
  predicate Successive(chain: seq<seq<Fragment>>) {
    && |chain| > 0 && IsInitial(chain[0])
    && forall n :: 0 <= n < |chain| - 1 ==>
         || BuiltFrom(chain[n], chain[n+1], n + 1, true)
         || BuiltFrom(chain[n], chain[n+1], n + 1, false)
  }

  lemma {:induction false} SameFragments(chain: seq<seq<Fragment>>, n: nat)
    requires Successive(chain) && n < |chain|
    ensures |chain[n]| == |chain[0]|
  {
    if n > 0 {
      var m := n - 1;
      SameFragments(chain, m);
      assert BuiltFrom(chain[m], chain[m+1], m + 1, true) || BuiltFrom(chain[m], chain[m+1], m + 1, false);
    }
  }

  /** Every configuration lists the same fragments. */
  predicate Rectangular(chain: seq<seq<Fragment>>) {
    |chain| > 0 && forall n :: 0 <= n < |chain| ==> |chain[n]| == |chain[0]|
  }

  lemma SuccessiveIsRectangular(chain: seq<seq<Fragment>>)
    requires Successive(chain)
    ensures Rectangular(chain)
  {
    forall n | 0 <= n < |chain| ensures |chain[n]| == |chain[0]| {
      SameFragments(chain, n);
    }
  }

  /** A chain of configurations, which therefore all list the same fragments. */
  predicate Chain(chain: seq<seq<Fragment>>)
    ensures Chain(chain) ==> Rectangular(chain)
  {
    Successive(chain) && (SuccessiveIsRectangular(chain); true)
  }

  function Owner(chain: seq<seq<Fragment>>, n: nat, f: nat): Server
    requires n < |chain| && f < |chain[n]|
  {
    chain[n][f].server
  }

  /** The last configuration up to n in which fragment f changed server, or 0. */
  function LastMove(chain: seq<seq<Fragment>>, n: nat, f: nat): (m: nat)
    requires Rectangular(chain) && n < |chain| && f < |chain[0]|
    ensures m <= n
  {
    if n == 0 then 0
    else if Owner(chain, n, f) != Owner(chain, n - 1, f) then n
    else LastMove(chain, n - 1, f)
  }

  /** From LastMove on the owner is the same, and before it was another one. */
  lemma {:induction false} LastMoveMeaning(chain: seq<seq<Fragment>>, n: nat, f: nat)
    requires Rectangular(chain) && n < |chain| && f < |chain[0]|
    ensures var m := LastMove(chain, n, f);
            && (forall k :: m <= k <= n ==> Owner(chain, k, f) == Owner(chain, n, f))
            && (m > 0 ==> Owner(chain, m - 1, f) != Owner(chain, n, f))
  {
    if n > 0 && Owner(chain, n, f) == Owner(chain, n - 1, f) {
      LastMoveMeaning(chain, n - 1, f);
    }
  }

  /** Along every chain, a fragment's configuration id is the configuration in
      which its present ownership began, and no next one is ever announced. */
  lemma {:induction false} CfgIdIsLastMove(chain: seq<seq<Fragment>>, n: nat, f: nat)
    requires Chain(chain) && n < |chain| && f < |chain[0]|
    ensures chain[n][f].id == f
    ensures chain[n][f].cfgId == LastMove(chain, n, f)
    ensures chain[n][f].nextCfgId == -1
  {
    if n > 0 {
      var m := n - 1;
      CfgIdIsLastMove(chain, m, f);
      assert BuiltFrom(chain[m], chain[m+1], m + 1, true) || BuiltFrom(chain[m], chain[m+1], m + 1, false);
    }
  }

  predicate AlwaysMigrating(chain: seq<seq<Fragment>>) {
    forall n :: 0 <= n < |chain| - 1 ==> BuiltFrom(chain[n], chain[n+1], n + 1, true)
  }

  /** With migration enabled, a fragment that has moved names the server it came
      from and the configuration in which that server's ownership began. */
  lemma {:induction false} MigrationPointsBack(chain: seq<seq<Fragment>>, n: nat, f: nat)
    requires Chain(chain) && AlwaysMigrating(chain)
    requires n < |chain| && f < |chain[0]|
    ensures var m := LastMove(chain, n, f);
            if m == 0 then
              chain[n][f].migrateServer == NO_SERVER && chain[n][f].prevCfgId == -1 && chain[n][f].state == Normal
            else
              && chain[n][f].migrateServer == Owner(chain, m - 1, f)
              && chain[n][f].prevCfgId == LastMove(chain, m - 1, f)
              && chain[n][f].state == Migrate
  {
    if n > 0 {
      var m := n - 1;
      MigrationPointsBack(chain, m, f);
      CfgIdIsLastMove(chain, m, f);
      assert BuiltFrom(chain[m], chain[m+1], m + 1, true);
    }
  }

  /** modes says which configurations were built with migration. */
  predicate BuiltAs(chain: seq<seq<Fragment>>, modes: seq<bool>) {
    && |modes| == |chain| - 1
    && forall n :: 0 <= n < |modes| ==> BuiltFrom(chain[n], chain[n+1], n + 1, modes[n])
  }

  /** Migration was on when the fragment last moved, and has been since. */
  predicate StillMigrating(chain: seq<seq<Fragment>>, modes: seq<bool>, n: nat, f: nat)
    requires Rectangular(chain) && n < |chain| && f < |chain[0]| && |modes| == |chain| - 1
  {
    var m := LastMove(chain, n, f);
    m > 0 && forall i :: m - 1 <= i < n ==> modes[i]
  }

  lemma StillNext(chain: seq<seq<Fragment>>, modes: seq<bool>, n: nat, f: nat)
    requires Rectangular(chain) && 0 < n < |chain| && f < |chain[0]| && |modes| == |chain| - 1
    ensures StillMigrating(chain, modes, n, f) <==>
            modes[n-1] && (Owner(chain, n, f) != Owner(chain, n - 1, f) || StillMigrating(chain, modes, n - 1, f))
  {
  }

  /** What a fragment says when it is migrating, and otherwise. */
  predicate Says(chain: seq<seq<Fragment>>, n: nat, f: nat, migrating: bool)
    requires Rectangular(chain) && n < |chain| && f < |chain[0]|
  {
    var m, x := LastMove(chain, n, f), chain[n][f];
    if migrating then
      && m > 0 && x.state == Migrate
      && x.migrateServer == Owner(chain, m - 1, f) && x.prevCfgId == LastMove(chain, m - 1, f)
    else x.state == Normal && x.prevCfgId == -1
  }

  lemma SaysNext(chain: seq<seq<Fragment>>, n: nat, f: nat, mode: bool, before: bool)
    requires Rectangular(chain) && 0 < n < |chain| && f < |chain[0]| && Says(chain, n - 1, f, before)
    requires chain[n-1][f].cfgId == LastMove(chain, n - 1, f) && chain[n-1][f].nextCfgId == -1
    requires chain[n][f] == NextFragment(chain[n-1][f], chain[n][f], n, f, mode)
    ensures Says(chain, n, f, mode && (Owner(chain, n, f) != Owner(chain, n - 1, f) || before))
  {
  }

  /** However migration is switched on and off along the chain, a fragment is migrating
      exactly when migration has been on from its last move; then it points back as above,
      and otherwise it is normal and points nowhere.  So a configuration built without
      migration has only such fragments. */
  lemma {:induction false} StateByLastMove(chain: seq<seq<Fragment>>, modes: seq<bool>, n: nat, f: nat)
    requires Chain(chain) && BuiltAs(chain, modes) && n < |chain| && f < |chain[0]|
    ensures Says(chain, n, f, StillMigrating(chain, modes, n, f))
    ensures n > 0 && !modes[n-1] ==> Says(chain, n, f, false)
  {
    if n > 0 {
      var p := n - 1;
      StateByLastMove(chain, modes, p, f);
      CfgIdIsLastMove(chain, p, f);
      assert BuiltFrom(chain[p], chain[p+1], p + 1, modes[p]);
      SaysNext(chain, n, f, modes[p], StillMigrating(chain, modes, p, f));
      StillNext(chain, modes, n, f);
    }
  }
}
