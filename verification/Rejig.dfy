/** The configuration protocol: the coordinator loop of CacheStateSimulator.java
    against servers that check and stamp commands as mc_ascii.c does.

    The coordinator tells every server the next number, waits for all of them and
    only then publishes it.  Clients learn published configurations at any time,
    late answers included; commands may be delayed, lost or delivered again; and a
    command that was checked may store its item much later.  The chain of
    configurations is fixed in advance, as populate() builds it. */
module Rejig {
  import opened Basics
  import opened Configuration

  type Client = nat
  type ItemKey = string

  /** A command as sent: the number its client works under, and the stamp it asks
      for if it overrides the default. */
  datatype Cmd = Cmd(server: Server, frag: nat, key: ItemKey, number: nat, override: int)

  /** A command that passed the check, and what its item carries. */
  datatype Checked = Checked(cmd: Cmd, stamp: int)

  datatype World = World(
    published: nat,
    inRound: bool,
    acked: set<Server>,
    numbers: map<Server, int>,
    clients: map<Client, nat>,
    sent: set<Cmd>,
    checked: set<Checked>,
    items: map<(Server, nat, ItemKey), Checked>)

  datatype Step =
    | StartRound
    | Push(server: Server)
    | Publish
    | Learn(client: Client, n: nat)
    | Send(client: Client, frag: nat, key: ItemKey, override: int)
    | Deliver(cmd: Cmd)
    | Store(c: Checked)
    | Drop(server: Server, frag: nat, key: ItemKey)

  /** The chain and the servers that the coordinator talks to. */
  ghost predicate Setting(chain: seq<seq<Fragment>>, servers: set<Server>) {
    && Chain(chain)
    && forall n, f :: 0 <= n < |chain| && 0 <= f < |chain[0]| ==> Owner(chain, n, f) in servers
  }

  /** asc_check_config: the server's number, or -1 after a mismatch. */
  function CheckConfig(clientNumber: int, serverNumber: int): int {
    if clientNumber != -1 && clientNumber != serverNumber then -1 else serverNumber
  }

  predicate Accepts(w: World, cmd: Cmd) {
    cmd.server in w.numbers && CheckConfig(cmd.number, w.numbers[cmd.server]) != -1
  }

  /** The stamp of asc_process_update and asc_process_commit. */
  function Stamp(w: World, cmd: Cmd): int
    requires cmd.server in w.numbers
  {
    if cmd.override != -1 then cmd.override else CheckConfig(cmd.number, w.numbers[cmd.server])
  }

  ghost predicate Enabled(chain: seq<seq<Fragment>>, servers: set<Server>, w: World, s: Step) {
    match s
    case StartRound => !w.inRound && w.published + 1 < |chain|
    case Push(server) => w.inRound && server in servers
    case Publish => w.inRound && w.acked == servers
    case Learn(_, n) => n <= w.published
    case Send(client, frag, _, _) => client in w.clients && w.clients[client] < |chain| && frag < |chain[0]|
    case Deliver(cmd) => cmd in w.sent
    case Store(c) => c in w.checked
    case Drop(_, _, _) => true
  }

  ghost function After(chain: seq<seq<Fragment>>, servers: set<Server>, w: World, s: Step): World
    requires Setting(chain, servers) && Enabled(chain, servers, w, s)
  {
    match s
    case StartRound => w.(inRound := true, acked := {})
    case Push(server) =>
      w.(numbers := w.numbers[server := w.published + 1], acked := w.acked + {server})
    case Publish => w.(published := w.published + 1, inRound := false, acked := {})
    case Learn(client, n) => w.(clients := w.clients[client := n])
    case Send(client, frag, key, override) =>
      var n := w.clients[client];
      w.(sent := w.sent + {Cmd(Owner(chain, n, frag), frag, key, n, override)})
    case Deliver(cmd) =>
      if Accepts(w, cmd) then w.(checked := w.checked + {Checked(cmd, Stamp(w, cmd))}) else w
    case Store(c) => w.(items := w.items[(c.cmd.server, c.cmd.frag, c.cmd.key) := c])
    case Drop(server, frag, key) => w.(items := w.items - {(server, frag, key)})
  }

  ghost predicate ValidRun(chain: seq<seq<Fragment>>, servers: set<Server>, w: World, steps: seq<Step>)
    requires Setting(chain, servers)
    decreases |steps|
  {
    steps == [] ||
    (Enabled(chain, servers, w, steps[0]) &&
     ValidRun(chain, servers, After(chain, servers, w, steps[0]), steps[1..]))
  }

  ghost function Final(chain: seq<seq<Fragment>>, servers: set<Server>, w: World, steps: seq<Step>): World
    requires Setting(chain, servers) && ValidRun(chain, servers, w, steps)
    decreases |steps|
  {
    if steps == [] then w
    else Final(chain, servers, After(chain, servers, w, steps[0]), steps[1..])
  }

  /** The coordinator's constructor has given every server the number 0. */
  ghost predicate Init(servers: set<Server>, w: World) {
    && w.published == 0 && !w.inRound
    && w.numbers == (map s | s in servers :: 0)
    && w.clients == map[] && w.sent == {} && w.checked == {} && w.items == map[]
  }

  // ---------- the invariant ----------

  ghost predicate NumbersOk(servers: set<Server>, w: World) {
    && w.numbers.Keys == servers
    && (forall s :: s in servers ==>
          w.numbers[s] == if w.inRound && s in w.acked then w.published + 1 else w.published)
  }

  predicate CmdOk(chain: seq<seq<Fragment>>, w: World, cmd: Cmd)
    requires Rectangular(chain) && w.published < |chain|
  {
    cmd.number <= w.published && cmd.frag < |chain[0]| && cmd.server == Owner(chain, cmd.number, cmd.frag)
  }

  predicate CheckedOk(chain: seq<seq<Fragment>>, w: World, c: Checked)
    requires Rectangular(chain) && w.published < |chain|
  {
    CmdOk(chain, w, c.cmd) && c.stamp == if c.cmd.override != -1 then c.cmd.override else c.cmd.number
  }

  ghost predicate Inv(chain: seq<seq<Fragment>>, servers: set<Server>, w: World)
    requires Setting(chain, servers)
  {
    && w.published < |chain| && (w.inRound ==> w.published + 1 < |chain|)
    && NumbersOk(servers, w)
    && (forall c :: c in w.clients ==> w.clients[c] <= w.published)
    && (forall cmd :: cmd in w.sent ==> CmdOk(chain, w, cmd))
    && (forall c :: c in w.checked ==> CheckedOk(chain, w, c))
    && (forall x :: x in w.items ==>
          CheckedOk(chain, w, w.items[x]) && x == (w.items[x].cmd.server, w.items[x].cmd.frag, w.items[x].cmd.key))
  }

  lemma StepKeeps(chain: seq<seq<Fragment>>, servers: set<Server>, w: World, s: Step)
    requires Setting(chain, servers) && Inv(chain, servers, w) && Enabled(chain, servers, w, s)
    ensures Inv(chain, servers, After(chain, servers, w, s))
  {
    match s
    case Send(client, frag, key, override) => SendKeeps(chain, servers, w, client, frag, key, override);
    case Deliver(cmd) => DeliverKeeps(chain, servers, w, cmd);
    case _ =>
  }

  lemma SendKeeps(chain: seq<seq<Fragment>>, servers: set<Server>, w: World,
                  client: Client, frag: nat, key: ItemKey, override: int)
    requires Setting(chain, servers) && Inv(chain, servers, w)
    requires Enabled(chain, servers, w, Send(client, frag, key, override))
    ensures Inv(chain, servers, After(chain, servers, w, Send(client, frag, key, override)))
  {
  }

  lemma DeliverKeeps(chain: seq<seq<Fragment>>, servers: set<Server>, w: World, cmd: Cmd)
    requires Setting(chain, servers) && Inv(chain, servers, w) && Enabled(chain, servers, w, Deliver(cmd))
    ensures Inv(chain, servers, After(chain, servers, w, Deliver(cmd)))
  {
  }

  lemma {:induction false} RunKeeps(chain: seq<seq<Fragment>>, servers: set<Server>, w: World, steps: seq<Step>)
    requires Setting(chain, servers) && Inv(chain, servers, w) && ValidRun(chain, servers, w, steps)
    ensures Inv(chain, servers, Final(chain, servers, w, steps))
    decreases |steps|
  {
    if steps != [] {
      StepKeeps(chain, servers, w, steps[0]);
      RunKeeps(chain, servers, After(chain, servers, w, steps[0]), steps[1..]);
    }
  }

  // ---------- the claims ----------

  /** In every interleaving, each server is at the published number or one ahead,
      no client is ahead, and a command that a server accepts carries the
      published number and has reached that configuration's owner. */
  lemma SingleOwner(chain: seq<seq<Fragment>>, servers: set<Server>, w: World, steps: seq<Step>, cmd: Cmd)
    requires Setting(chain, servers) && Init(servers, w) && ValidRun(chain, servers, w, steps)
    requires var f := Final(chain, servers, w, steps); cmd in f.sent && Accepts(f, cmd)
    ensures var f := Final(chain, servers, w, steps);
            && f.published < |chain|
            && (forall s :: s in servers ==> s in f.numbers && f.published <= f.numbers[s] <= f.published + 1)
            && (forall c :: c in f.clients ==> f.clients[c] <= f.published)
            && cmd.number == f.published
            && cmd.frag < |chain[0]| && cmd.server == Owner(chain, f.published, cmd.frag)
  {
    RunKeeps(chain, servers, w, steps);
  }

  /** Two servers never serve the same fragment at the same time. */
  lemma NoTwoServers(chain: seq<seq<Fragment>>, servers: set<Server>, w: World, steps: seq<Step>, a: Cmd, b: Cmd)
    requires Setting(chain, servers) && Init(servers, w) && ValidRun(chain, servers, w, steps)
    requires var f := Final(chain, servers, w, steps);
             a in f.sent && b in f.sent && Accepts(f, a) && Accepts(f, b) && a.frag == b.frag
    ensures a.server == b.server
  {
    SingleOwner(chain, servers, w, steps, a);
    SingleOwner(chain, servers, w, steps, b);
  }

  /** The fragment has been on this server in every configuration since n. */
  ghost predicate SamePeriod(chain: seq<seq<Fragment>>, n: nat, now: nat, frag: nat, server: Server)
    requires Rectangular(chain) && n <= now < |chain| && frag < |chain[0]|
  {
    forall k :: n <= k <= now ==> Owner(chain, k, frag) == server
  }

  /** In configuration m the fragment comes back to the server that has it in n. */
  predicate ComesBack(chain: seq<seq<Fragment>>, n: nat, m: nat, frag: nat)
    requires Rectangular(chain) && n < m < |chain| && frag < |chain[0]|
  {
    Owner(chain, m, frag) == Owner(chain, n, frag) && Owner(chain, m - 1, frag) != Owner(chain, n, frag)
  }

  /** What is known of a stamp when the command is sent under number n: it is not below
      the fragment's configuration id, and the fragment does not come back at or before
      the stamp. */
  ghost predicate Separates(chain: seq<seq<Fragment>>, n: nat, frag: nat, stamp: int)
    requires Rectangular(chain) && n < |chain| && frag < |chain[0]|
  {
    && chain[n][frag].cfgId <= stamp
    && forall m :: n < m < |chain| && m <= stamp ==> !ComesBack(chain, n, m, frag)
  }

  /** In configuration now the stamp tells items of the present period from others. */
  ghost predicate Tells(chain: seq<seq<Fragment>>, n: nat, now: nat, frag: nat, stamp: int)
    requires Rectangular(chain) && n <= now < |chain| && frag < |chain[0]|
  {
    stamp >= chain[now][frag].cfgId <==> SamePeriod(chain, n, now, frag, Owner(chain, n, frag))
  }

  /** A later configuration in which the fragment is back has the configuration id of a
      comeback. */
  lemma BackSince(chain: seq<seq<Fragment>>, n: nat, now: nat, frag: nat)
    requires Chain(chain) && n <= now < |chain| && frag < |chain[0]|
    requires Owner(chain, now, frag) == Owner(chain, n, frag)
    ensures SamePeriod(chain, n, now, frag, Owner(chain, n, frag)) ==>
              chain[now][frag].cfgId == chain[n][frag].cfgId
    ensures !SamePeriod(chain, n, now, frag, Owner(chain, n, frag)) ==>
              var m := chain[now][frag].cfgId; n < m < |chain| && ComesBack(chain, n, m, frag)
  {
    CfgIdIsLastMove(chain, n, frag);
    CfgIdIsLastMove(chain, now, frag);
    LastMoveMeaning(chain, n, frag);
    LastMoveMeaning(chain, now, frag);
    var m := LastMove(chain, now, frag);
    if m <= n {
      assert SamePeriod(chain, n, now, frag, Owner(chain, n, frag));
      SameLastMove(chain, n, now, frag);
    }
  }

  lemma {:induction false} SameLastMove(chain: seq<seq<Fragment>>, n: nat, now: nat, frag: nat)
    requires Rectangular(chain) && n <= now < |chain| && frag < |chain[0]|
    requires SamePeriod(chain, n, now, frag, Owner(chain, n, frag))
    ensures LastMove(chain, now, frag) == LastMove(chain, n, frag)
    decreases now
  {
    if n < now {
      SameLastMove(chain, n, now - 1, frag);
    }
  }

  /** A comeback begins a period of its own. */
  lemma ComebackStamp(chain: seq<seq<Fragment>>, n: nat, m: nat, frag: nat)
    requires Chain(chain) && n < m < |chain| && frag < |chain[0]| && ComesBack(chain, n, m, frag)
    ensures chain[m][frag].cfgId == m && !SamePeriod(chain, n, m, frag, Owner(chain, n, frag))
  {
    CfgIdIsLastMove(chain, m, frag);
  }

  /** A stamp tells the periods apart in every later configuration that has the fragment
      on the same server exactly when it separates them. */
  lemma TellsExactlyWhen(chain: seq<seq<Fragment>>, n: nat, frag: nat, stamp: int)
    requires Chain(chain) && n < |chain| && frag < |chain[0]|
    ensures Separates(chain, n, frag, stamp) <==>
            forall now :: n <= now < |chain| && Owner(chain, now, frag) == Owner(chain, n, frag) ==>
              Tells(chain, n, now, frag, stamp)
  {
    if Separates(chain, n, frag, stamp) {
      forall now | n <= now < |chain| && Owner(chain, now, frag) == Owner(chain, n, frag)
        ensures Tells(chain, n, now, frag, stamp)
      {
        BackSince(chain, n, now, frag);
      }
    } else if chain[n][frag].cfgId > stamp {
      assert SamePeriod(chain, n, n, frag, Owner(chain, n, frag));
      assert !Tells(chain, n, n, frag, stamp);
    } else {
      var m :| n < m < |chain| && m <= stamp && ComesBack(chain, n, m, frag);
      ComebackStamp(chain, n, m, frag);
      assert !Tells(chain, n, m, frag, stamp);
    }
  }

  /** The stamps a client can vouch for without knowing later configurations: from the
      fragment's configuration id to one above the number it works under, since a
      fragment needs two configurations to leave and come back. */
  lemma UsualStamps(chain: seq<seq<Fragment>>, n: nat, frag: nat, stamp: int)
    requires Chain(chain) && n < |chain| && frag < |chain[0]|
    ensures chain[n][frag].cfgId <= stamp <= n + 1 ==> Separates(chain, n, frag, stamp)
    ensures chain[n][frag].cfgId <= n
  {
    CfgIdIsLastMove(chain, n, frag);
  }

  /** In every interleaving, an item of a fragment on the server that owns it now, however
      late its store ran, is told by its stamp to belong to the present period of
      ownership or to an earlier one: always when it has the default stamp or its
      fragment's configuration id, and for any override exactly as far as that separates
      the periods; and an override of at most one above the command's number never
      makes an item of an earlier period look like one of the present. */
  lemma StampsSeparatePeriods(chain: seq<seq<Fragment>>, servers: set<Server>, w: World, steps: seq<Step>,
                              frag: nat, key: ItemKey)
    requires Setting(chain, servers) && Init(servers, w) && ValidRun(chain, servers, w, steps)
    requires frag < |chain[0]|
    requires var f := Final(chain, servers, w, steps);
             f.published < |chain| && (Owner(chain, f.published, frag), frag, key) in f.items
    ensures var f := Final(chain, servers, w, steps);
            var item := f.items[(Owner(chain, f.published, frag), frag, key)];
            var n, override := item.cmd.number, item.cmd.override;
            && n <= f.published && Owner(chain, n, frag) == Owner(chain, f.published, frag)
            && (override == -1 || override == chain[n][frag].cfgId || Separates(chain, n, frag, item.stamp) ==>
                  Tells(chain, n, f.published, frag, item.stamp))
            && (override <= n + 1 && !SamePeriod(chain, n, f.published, frag, Owner(chain, n, frag)) ==>
                  item.stamp < chain[f.published][frag].cfgId)
  {
    RunKeeps(chain, servers, w, steps);
    var f := Final(chain, servers, w, steps);
    var item := f.items[(Owner(chain, f.published, frag), frag, key)];
    assert CheckedOk(chain, f, item);
    ItemTold(chain, item.cmd.number, f.published, frag, item.cmd.override, item.stamp);
  }

  lemma ItemTold(chain: seq<seq<Fragment>>, n: nat, now: nat, frag: nat, override: int, stamp: int)
    requires Chain(chain) && n <= now < |chain| && frag < |chain[0]|
    requires Owner(chain, now, frag) == Owner(chain, n, frag) && stamp == if override != -1 then override else n
    ensures override == -1 || override == chain[n][frag].cfgId || Separates(chain, n, frag, stamp) ==>
              Tells(chain, n, now, frag, stamp)
    ensures override <= n + 1 && !SamePeriod(chain, n, now, frag, Owner(chain, n, frag)) ==>
              stamp < chain[now][frag].cfgId
  {
    UsualStamps(chain, n, frag, stamp);
    TellsExactlyWhen(chain, n, frag, stamp);
    BackSince(chain, n, now, frag);
  }

  // ---------- when an update fails ----------

  /** The coordinator only reports an update that failed and publishes all the
      same. */
  function PublishAnyway(w: World): World {
    w.(published := w.published + 1, inRound := false, acked := {})
  }

  /** Some fragment leaves a server that missed the update for one that took it. */
  ghost predicate LeavesMissed(chain: seq<seq<Fragment>>, w: World)
    requires Rectangular(chain) && w.published + 1 < |chain|
  {
    exists f :: 0 <= f < |chain[0]| &&
      Owner(chain, w.published, f) !in w.acked && Owner(chain, w.published + 1, f) in w.acked
  }

  /** Two servers serve one fragment. */
  predicate Clash(w: World, a: Cmd, b: Cmd) {
    Accepts(w, a) && Accepts(w, b) && a.frag == b.frag && a.server != b.server
  }

  /** A command that a client may hold after the publish is accepted by a server
      that missed the update only under the old number, and by one that took it
      only under the new one. */
  lemma AcceptedAfter(chain: seq<seq<Fragment>>, servers: set<Server>, w: World, cmd: Cmd)
    requires Setting(chain, servers) && Inv(chain, servers, w) && w.inRound
    requires CmdOk(chain, PublishAnyway(w), cmd)
    ensures cmd.server in servers
    ensures Accepts(PublishAnyway(w), cmd) <==>
            cmd.number == if cmd.server in w.acked then w.published + 1 else w.published
  {
    assert Owner(chain, cmd.number, cmd.frag) in servers;
  }

  /** After a publish with missed updates, clients can make two servers serve one
      fragment exactly when some fragment leaves a server that missed the update
      for one that took it. */
  lemma PublishSafeExactlyWhen(chain: seq<seq<Fragment>>, servers: set<Server>, w: World)
    requires Setting(chain, servers) && Inv(chain, servers, w) && w.inRound
    ensures (exists a, b :: CmdOk(chain, PublishAnyway(w), a) && CmdOk(chain, PublishAnyway(w), b) &&
                            Clash(PublishAnyway(w), a, b))
            <==> LeavesMissed(chain, w)
  {
    var w' := PublishAnyway(w);
    if a, b :| CmdOk(chain, w', a) && CmdOk(chain, w', b) && Clash(w', a, b) {
      ClashLeaves(chain, servers, w, a, b);
    }
    if LeavesMissed(chain, w) {
      var f :| 0 <= f < |chain[0]| &&
        Owner(chain, w.published, f) !in w.acked && Owner(chain, w.published + 1, f) in w.acked;
      LeavingClashes(chain, servers, w, f, "", -1);
    }
  }

  lemma ClashLeaves(chain: seq<seq<Fragment>>, servers: set<Server>, w: World, a: Cmd, b: Cmd)
    requires Setting(chain, servers) && Inv(chain, servers, w) && w.inRound
    requires CmdOk(chain, PublishAnyway(w), a) && CmdOk(chain, PublishAnyway(w), b) && Clash(PublishAnyway(w), a, b)
    ensures LeavesMissed(chain, w)
  {
    AcceptedAfter(chain, servers, w, a);
    AcceptedAfter(chain, servers, w, b);
    var f := a.frag;
    assert Owner(chain, w.published, f) !in w.acked && Owner(chain, w.published + 1, f) in w.acked;
  }

  lemma LeavingClashes(chain: seq<seq<Fragment>>, servers: set<Server>, w: World, f: nat, key: ItemKey, override: int)
    requires Setting(chain, servers) && Inv(chain, servers, w) && w.inRound && f < |chain[0]|
    requires Owner(chain, w.published, f) !in w.acked && Owner(chain, w.published + 1, f) in w.acked
    ensures var w' := PublishAnyway(w);
            var a := Cmd(Owner(chain, w.published, f), f, key, w.published, override);
            var b := Cmd(Owner(chain, w.published + 1, f), f, key, w.published + 1, override);
            CmdOk(chain, w', a) && CmdOk(chain, w', b) && Clash(w', a, b)
  {
    AcceptedAfter(chain, servers, w, Cmd(Owner(chain, w.published, f), f, key, w.published, override));
    AcceptedAfter(chain, servers, w, Cmd(Owner(chain, w.published + 1, f), f, key, w.published + 1, override));
  }

  /** A run in which the coordinator does nothing. */
  predicate Quiet(steps: seq<Step>) {
    forall i :: 0 <= i < |steps| ==> !steps[i].StartRound? && !steps[i].Push? && !steps[i].Publish?
  }

  /** What such a run keeps, whatever numbers the servers have. */
  ghost predicate ClientsOk(chain: seq<seq<Fragment>>, w: World)
    requires Rectangular(chain)
  {
    && w.published < |chain| && (forall c :: c in w.clients ==> w.clients[c] <= w.published)
    && (forall cmd :: cmd in w.sent ==> CmdOk(chain, w, cmd))
  }

  lemma {:induction false} QuietKeeps(chain: seq<seq<Fragment>>, servers: set<Server>, w: World, steps: seq<Step>)
    requires Setting(chain, servers) && ClientsOk(chain, w) && ValidRun(chain, servers, w, steps) && Quiet(steps)
    ensures var f := Final(chain, servers, w, steps);
            ClientsOk(chain, f) && f.published == w.published && f.numbers == w.numbers
    decreases |steps|
  {
    if steps != [] {
      assert !steps[0].StartRound? && !steps[0].Push? && !steps[0].Publish?;
      QuietKeeps(chain, servers, After(chain, servers, w, steps[0]), steps[1..]);
    }
  }

  /** A client learns a configuration and sends a command under it. */
  lemma LearnAndSend(chain: seq<seq<Fragment>>, servers: set<Server>, w: World,
                     n: nat, f: nat, key: ItemKey, override: int)
      returns (steps: seq<Step>)
    requires Setting(chain, servers) && n <= w.published < |chain| && f < |chain[0]|
    ensures Quiet(steps) && ValidRun(chain, servers, w, steps)
    ensures Final(chain, servers, w, steps)
         == w.(clients := w.clients[0 := n], sent := w.sent + {Cmd(Owner(chain, n, f), f, key, n, override)})
  {
    var s1, s2 := Learn(0, n), Send(0, f, key, override);
    RunSnoc(chain, servers, w, [], s1);
    assert [] + [s1] == [s1];
    RunSnoc(chain, servers, w, [s1], s2);
    steps := [s1] + [s2];
  }

  lemma {:induction false} TwoRuns(chain: seq<seq<Fragment>>, servers: set<Server>, w: World,
                                   one: seq<Step>, two: seq<Step>)
    requires Setting(chain, servers) && ValidRun(chain, servers, w, one)
    requires ValidRun(chain, servers, Final(chain, servers, w, one), two)
    ensures ValidRun(chain, servers, w, one + two)
    ensures Final(chain, servers, w, one + two) == Final(chain, servers, Final(chain, servers, w, one), two)
    decreases |one|
  {
    if one == [] {
      assert one + two == two;
    } else {
      TwoRuns(chain, servers, After(chain, servers, w, one[0]), one[1..], two);
      assert (one + two)[1..] == one[1..] + two;
    }
  }

  /** The same over runs: from any reachable round, publishing with missed updates
      lets clients, without any further round, send two commands for one fragment
      that two servers accept, exactly when some fragment leaves a server that
      missed the update for one that took it. */
  lemma ClashFollowsExactlyWhen(chain: seq<seq<Fragment>>, servers: set<Server>, w: World, steps: seq<Step>)
    requires Setting(chain, servers) && Init(servers, w) && ValidRun(chain, servers, w, steps)
    requires Final(chain, servers, w, steps).inRound
    ensures Inv(chain, servers, Final(chain, servers, w, steps))
    ensures var mid := Final(chain, servers, w, steps);
            (exists more, a, b :: ClashAfter(chain, servers, PublishAnyway(mid), more, a, b))
            <==> LeavesMissed(chain, mid)
  {
    RunKeeps(chain, servers, w, steps);
    var mid := Final(chain, servers, w, steps);
    var w' := PublishAnyway(mid);
    if more, a, b :| ClashAfter(chain, servers, w', more, a, b) {
      ClashAfterLeaves(chain, servers, mid, more, a, b);
    }
    if LeavesMissed(chain, mid) {
      var f :| 0 <= f < |chain[0]| &&
        Owner(chain, mid.published, f) !in mid.acked && Owner(chain, mid.published + 1, f) in mid.acked;
      var more, a, b := ClashRun(chain, servers, mid, f);
    }
  }

  ghost predicate ClashAfter(chain: seq<seq<Fragment>>, servers: set<Server>, w: World, more: seq<Step>, a: Cmd, b: Cmd)
    requires Setting(chain, servers)
  {
    && ValidRun(chain, servers, w, more) && Quiet(more)
    && a in Final(chain, servers, w, more).sent && b in Final(chain, servers, w, more).sent
    && Clash(Final(chain, servers, w, more), a, b)
  }

  lemma ClashAfterLeaves(chain: seq<seq<Fragment>>, servers: set<Server>, w: World, more: seq<Step>, a: Cmd, b: Cmd)
    requires Setting(chain, servers) && Inv(chain, servers, w) && w.inRound
    requires ClashAfter(chain, servers, PublishAnyway(w), more, a, b)
    ensures LeavesMissed(chain, w)
  {
    QuietKeeps(chain, servers, PublishAnyway(w), more);
    ClashLeaves(chain, servers, w, a, b);
  }

  lemma ClashRun(chain: seq<seq<Fragment>>, servers: set<Server>, w: World, f: nat)
      returns (more: seq<Step>, a: Cmd, b: Cmd)
    requires Setting(chain, servers) && Inv(chain, servers, w) && w.inRound && f < |chain[0]|
    requires Owner(chain, w.published, f) !in w.acked && Owner(chain, w.published + 1, f) in w.acked
    ensures ClashAfter(chain, servers, PublishAnyway(w), more, a, b)
  {
    var w0 := PublishAnyway(w);
    var one := LearnAndSend(chain, servers, w0, w.published, f, "", -1);
    var two := LearnAndSend(chain, servers, Final(chain, servers, w0, one), w.published + 1, f, "", -1);
    TwoRuns(chain, servers, w0, one, two);
    more := one + two;
    LeavingClashes(chain, servers, w, f, "", -1);
    a := Cmd(Owner(chain, w.published, f), f, "", w.published, -1);
    b := Cmd(Owner(chain, w.published + 1, f), f, "", w.published + 1, -1);
  }

  /** It happens: for every chain whose second configuration moves a fragment, a run
      from the start in which only the new owner takes the update, the publish all
      the same, and two commands sent that two servers accept. */
  lemma MissedUpdateTwoServers(chain: seq<seq<Fragment>>, servers: set<Server>, w: World, f: nat)
    requires Setting(chain, servers) && Init(servers, w) && |chain| > 1 && f < |chain[0]|
    requires Owner(chain, 0, f) != Owner(chain, 1, f)
    ensures exists steps, more, a, b ::
              ValidRun(chain, servers, w, steps) &&
              ClashAfter(chain, servers, PublishAnyway(Final(chain, servers, w, steps)), more, a, b)
  {
    var new_ := Owner(chain, 1, f);
    var steps := [StartRound];
    RunSnoc(chain, servers, w, [], StartRound);
    assert [] + [StartRound] == steps;
    RunSnoc(chain, servers, w, steps, Push(new_));
    steps := steps + [Push(new_)];
    RunKeeps(chain, servers, w, steps);
    var more, a, b := ClashRun(chain, servers, Final(chain, servers, w, steps), f);
  }

  // ---------- overrides that do not separate ----------

  /** A whole round in which every server takes the update. */
  lemma WholeRound(chain: seq<seq<Fragment>>, servers: set<Server>, w: World) returns (steps: seq<Step>)
    requires Setting(chain, servers) && Inv(chain, servers, w) && !w.inRound && w.published + 1 < |chain|
    ensures ValidRun(chain, servers, w, steps)
    ensures var f := Final(chain, servers, w, steps);
            f == w.(published := w.published + 1, inRound := false, acked := {}, numbers := f.numbers)
  {
    steps := [StartRound];
    RunSnoc(chain, servers, w, [], StartRound);
    assert [] + [StartRound] == steps;
    var left, numbers := servers, w.numbers;
    assert servers - left == {};
    while left != {}
      invariant left <= servers
      invariant Reaches(chain, servers, w, steps, InRound(w, numbers, servers - left))
      decreases left
    {
      var s :| s in left;
      assert servers - (left - {s}) == (servers - left) + {s};
      RunSnoc(chain, servers, w, steps, Push(s));
      steps, numbers, left := steps + [Push(s)], numbers[s := w.published + 1], left - {s};
    }
    assert servers - left == servers;
    RunSnoc(chain, servers, w, steps, Publish);
    steps := steps + [Publish];
  }

  /** Rounds until configuration now is published, and nothing else. */
  lemma {:induction false} RoundsTo(chain: seq<seq<Fragment>>, servers: set<Server>, w: World, now: nat)
      returns (steps: seq<Step>)
    requires Setting(chain, servers) && Inv(chain, servers, w) && !w.inRound && w.published <= now < |chain|
    ensures ValidRun(chain, servers, w, steps)
    ensures var f := Final(chain, servers, w, steps);
            Inv(chain, servers, f) && !f.inRound && f.published == now && f.items == w.items
    decreases now - w.published
  {
    steps := [];
    if w.published < now {
      var one := WholeRound(chain, servers, w);
      RunKeeps(chain, servers, w, one);
      var more := RoundsTo(chain, servers, Final(chain, servers, w, one), now);
      TwoRuns(chain, servers, w, one, more);
      steps := one + more;
    }
  }

  /** A client sends a command under the published number, and its item is stored. */
  lemma StoreRun(chain: seq<seq<Fragment>>, servers: set<Server>, w: World, frag: nat, key: ItemKey, override: int)
      returns (steps: seq<Step>)
    requires Setting(chain, servers) && Inv(chain, servers, w) && !w.inRound && frag < |chain[0]|
    ensures ValidRun(chain, servers, w, steps)
    ensures var f, cmd := Final(chain, servers, w, steps), SentCmd(chain, w.published, frag, key, override);
            && !f.inRound && f.published == w.published && Inv(chain, servers, f)
            && HasItem(f, cmd)
  {
    var n := w.published;
    var cmd := SentCmd(chain, n, frag, key, override);
    assert Owner(chain, n, frag) in servers;
    steps := LearnAndSend(chain, servers, w, n, frag, key, override);
    var w1 := Final(chain, servers, w, steps);
    RunSnoc(chain, servers, w, steps, Deliver(cmd));
    steps := steps + [Deliver(cmd)];
    var c := Checked(cmd, Stamp(w1, cmd));
    RunSnoc(chain, servers, w, steps, Store(c));
    steps := steps + [Store(c)];
    RunKeeps(chain, servers, w, steps);
  }

  function SentCmd(chain: seq<seq<Fragment>>, n: nat, frag: nat, key: ItemKey, override: int): Cmd
    requires Rectangular(chain) && n < |chain| && frag < |chain[0]|
  {
    Cmd(Owner(chain, n, frag), frag, key, n, override)
  }

  predicate HasItem(w: World, cmd: Cmd) {
    (cmd.server, cmd.frag, cmd.key) in w.items && w.items[(cmd.server, cmd.frag, cmd.key)].cmd == cmd
  }

  /** Wherever a run stores the item of this command and the fragment is on its server,
      the item's stamp tells whether its period is the present one. */
  ghost predicate ToldAlways(chain: seq<seq<Fragment>>, servers: set<Server>, w: World, cmd: Cmd)
    requires Setting(chain, servers) && cmd.number < |chain| && cmd.frag < |chain[0]|
  {
    forall steps :: ValidRun(chain, servers, w, steps) ==> ToldIn(chain, Final(chain, servers, w, steps), cmd)
  }

  ghost predicate ToldIn(chain: seq<seq<Fragment>>, w: World, cmd: Cmd)
    requires Rectangular(chain) && cmd.number < |chain| && cmd.frag < |chain[0]|
  {
    HasItem(w, cmd) && cmd.number <= w.published < |chain| && Owner(chain, w.published, cmd.frag) == cmd.server ==>
      Tells(chain, cmd.number, w.published, cmd.frag, w.items[(cmd.server, cmd.frag, cmd.key)].stamp)
  }

  /** Over all runs: the items of a command are told apart exactly when its stamp
      separates the periods.  Both halves of the condition can be looked up in the chain
      before the command is sent; a command whose override reaches a configuration in
      which the fragment comes back fails them, and some run then keeps its item, from
      before the fragment left, as if it were new. */
  lemma StampsToldExactlyWhen(chain: seq<seq<Fragment>>, servers: set<Server>, w: World,
                              n: nat, frag: nat, key: ItemKey, override: int)
    requires Setting(chain, servers) && Init(servers, w) && n < |chain| && frag < |chain[0]|
    ensures ToldAlways(chain, servers, w, SentCmd(chain, n, frag, key, override)) <==>
            Separates(chain, n, frag, if override != -1 then override else n)
  {
    var cmd, stamp := SentCmd(chain, n, frag, key, override), if override != -1 then override else n;
    TellsExactlyWhen(chain, n, frag, stamp);
    if Separates(chain, n, frag, stamp) {
      forall steps | ValidRun(chain, servers, w, steps) ensures ToldIn(chain, Final(chain, servers, w, steps), cmd) {
        RunKeeps(chain, servers, w, steps);
      }
    } else {
      var now :| n <= now < |chain| && Owner(chain, now, frag) == Owner(chain, n, frag) &&
        !Tells(chain, n, now, frag, stamp);
      var steps := UntoldRun(chain, servers, w, n, frag, key, override, now);
      assert !ToldIn(chain, Final(chain, servers, w, steps), cmd);
    }
  }

  lemma UntoldRun(chain: seq<seq<Fragment>>, servers: set<Server>, w: World,
                  n: nat, frag: nat, key: ItemKey, override: int, now: nat)
      returns (steps: seq<Step>)
    requires Setting(chain, servers) && Init(servers, w) && n <= now < |chain| && frag < |chain[0]|
    ensures ValidRun(chain, servers, w, steps)
    ensures var f, cmd := Final(chain, servers, w, steps), SentCmd(chain, n, frag, key, override);
            && f.published == now && HasItem(f, cmd)
            && f.items[(cmd.server, frag, key)].stamp == if override != -1 then override else n
  {
    var one := RoundsTo(chain, servers, w, n);
    var w1 := Final(chain, servers, w, one);
    var two := StoreRun(chain, servers, w1, frag, key, override);
    TwoRuns(chain, servers, w, one, two);
    var w2 := Final(chain, servers, w1, two);
    var three := RoundsTo(chain, servers, w2, now);
    TwoRuns(chain, servers, w, one + two, three);
    steps := one + two + three;
    RunKeeps(chain, servers, w, steps);
  }

  /** For every fragment that comes back, an override that reaches its return makes some
      run keep an item of the earlier period at or above the configuration id. */
  lemma OverrideOutlivesPeriod(chain: seq<seq<Fragment>>, servers: set<Server>, w: World,
                               n: nat, m: nat, frag: nat, key: ItemKey, override: int)
    requires Setting(chain, servers) && Init(servers, w) && n < m < |chain| && frag < |chain[0]|
    requires ComesBack(chain, n, m, frag) && override >= m
    ensures exists steps ::
              ValidRun(chain, servers, w, steps) && Outlives(chain, Final(chain, servers, w, steps), n, m, frag, key)
  {
    var steps := UntoldRun(chain, servers, w, n, frag, key, override, m);
    ComebackStamp(chain, n, m, frag);
    assert Outlives(chain, Final(chain, servers, w, steps), n, m, frag, key);
  }

  /** The server that owns the fragment again has an item from before, stamped as new. */
  ghost predicate Outlives(chain: seq<seq<Fragment>>, w: World, n: nat, m: nat, frag: nat, key: ItemKey)
    requires Rectangular(chain) && n < m < |chain| && frag < |chain[0]|
  {
    var x := (Owner(chain, m, frag), frag, key);
    && w.published == m && x in w.items && w.items[x].cmd.number == n
    && !SamePeriod(chain, n, m, frag, Owner(chain, m, frag)) && w.items[x].stamp >= chain[m][frag].cfgId
  }

  // ---------- the coordinator's loop ----------

  lemma {:induction false} RunSnoc(chain: seq<seq<Fragment>>, servers: set<Server>, w: World, steps: seq<Step>, s: Step)
    requires Setting(chain, servers) && ValidRun(chain, servers, w, steps)
    requires Enabled(chain, servers, Final(chain, servers, w, steps), s)
    ensures ValidRun(chain, servers, w, steps + [s])
    ensures Final(chain, servers, w, steps + [s])
         == After(chain, servers, Final(chain, servers, w, steps), s)
    decreases |steps|
  {
    if steps == [] {
      assert (steps + [s])[1..] == [];
    } else {
      RunSnoc(chain, servers, After(chain, servers, w, steps[0]), steps[1..], s);
      assert (steps + [s])[1..] == steps[1..] + [s];
    }
  }

  /** CacheStateSimulator with its servers: the numbers they hold, the number the
      coordinator hands out, and the times at which it moves on. */
  class Simulator {
    var current: nat
    var numbers: map<Server, int>
    var due: seq<int>

    /** The coordinator's part of a world in which no round is running. */
    ghost predicate Matches(w: World)
      reads this
    {
      !w.inRound && w.published == current && w.numbers == numbers
    }

    /** One pass of call(): if some due time lies before now, drop the latest such
        time and take every server, and then the coordinator, to the next number.
        Returns how many times were past and the protocol steps of the pass.  A due
        time too many takes the servers past the last configuration, and from then
        on they turn away every client. */
    method Poll(ghost chain: seq<seq<Fragment>>, servers: set<Server>, now: int, ghost w: World)
        returns (past: nat, ghost steps: seq<Step>)
      requires Setting(chain, servers) && Ascending(due)
      requires current < |chain| ==> Inv(chain, servers, w) && Matches(w)
      modifies this
      ensures Before(old(due), now, past) && Ascending(due)
      ensures past == 0 ==> steps == [] && due == old(due) && current == old(current) && numbers == old(numbers)
      ensures past > 0 ==>
                && due == old(due)[..past-1] + old(due)[past..] && current == old(current) + 1
                && forall s :: s in servers ==> s in numbers && numbers[s] == current
      ensures current < |chain| ==>
                ValidRun(chain, servers, w, steps) && Matches(Final(chain, servers, w, steps))
      ensures past > 0 && current >= |chain| ==>
                forall s, n: nat :: s in servers && n < |chain| ==> CheckConfig(n, numbers[s]) == -1
    {
      steps := [];
      past := Lower(due, now);
      if past == 0 {
        return;
      }
      due := due[..past-1] + due[past..];
      if current + 1 < |chain| {
        steps := [StartRound];
        RunSnoc(chain, servers, w, [], StartRound);
        assert [] + [StartRound] == steps;
      }
      steps := PushAll(chain, servers, w, steps);
      if current + 1 < |chain| {
        RunSnoc(chain, servers, w, steps, Publish);
        steps := steps + [Publish];
      }
      current := current + 1;
    }

    /** The updates of all servers, and the wait for them. */
    method PushAll(ghost chain: seq<seq<Fragment>>, servers: set<Server>, ghost w: World, ghost steps: seq<Step>)
        returns (ghost steps': seq<Step>)
      requires Setting(chain, servers)
      requires current + 1 < |chain| ==> Reaches(chain, servers, w, steps, InRound(w, numbers, {}))
      requires w.published == current || current + 1 >= |chain|
      modifies this`numbers
      ensures forall s :: s in servers ==> s in numbers && numbers[s] == current + 1
      ensures current + 1 < |chain| ==> Reaches(chain, servers, w, steps', InRound(w, numbers, servers))
    {
      steps' := steps;
      var left := servers;
      assert servers - left == {};
      while left != {}
        invariant left <= servers
        invariant current + 1 < |chain| ==> Reaches(chain, servers, w, steps', InRound(w, numbers, servers - left))
        invariant forall s :: s in servers - left ==> s in numbers && numbers[s] == current + 1
        decreases left
      {
        var s :| s in left;
        assert servers - (left - {s}) == (servers - left) + {s};
        numbers := numbers[s := current + 1];
        if current + 1 < |chain| {
          RunSnoc(chain, servers, w, steps', Push(s));
          steps' := steps' + [Push(s)];
        }
        left := left - {s};
      }
      assert servers - left == servers;
    }
  }

  /** A round under way. */
  function InRound(w: World, numbers: map<Server, int>, acked: set<Server>): World {
    w.(inRound := true, numbers := numbers, acked := acked)
  }

  ghost predicate Reaches(chain: seq<seq<Fragment>>, servers: set<Server>, w: World, steps: seq<Step>, w': World)
    requires Setting(chain, servers)
  {
    ValidRun(chain, servers, w, steps) && Final(chain, servers, w, steps) == w'
  }

  /** n of the times lie strictly before now. */
  ghost predicate Before(ts: seq<int>, now: int, n: nat) {
    && n <= |ts|
    && (forall i :: 0 <= i < n ==> ts[i] < now)
    && (forall i :: n <= i < |ts| ==> ts[i] >= now)
  }

  /** TreeSet.lower: one past the position of the greatest time before now. */
  method Lower(ts: seq<int>, now: int) returns (n: nat)
    requires Ascending(ts)
    ensures Before(ts, now, n)
  {
    n := 0;
    while n < |ts| && ts[n] < now
      invariant n <= |ts| && forall i :: 0 <= i < n ==> ts[i] < now
    {
      n := n + 1;
    }
  }
}
