/** From the static configuration to the chain of configurations that the protocol
    runs on: populate in ConfigurationManagement.java, which deals out the initial
    fragments, reassigns them over the new servers and builds the second configuration.

    What it makes is a chain in the sense of module Configuration, so everything proved
    along chains and over runs of the protocol holds for it; and it fails exactly when
    the assignment loses a fragment or has nobody to give one to. */
module Populate {
  import opened Basics
  import opened Bytes
  import C = Configuration
  import A = Assignment
  import Rejig

  type Server = C.Server

  /** The fragments as the assignment sees them. */
  function Placed(frags: seq<C.Fragment>): (fs: seq<A.Fragment>)
    ensures |fs| == |frags| && forall i :: 0 <= i < |frags| ==> fs[i] == A.Fragment(i, frags[i].server)
  {
    seq(|frags|, i requires 0 <= i < |frags| => A.Fragment(i, frags[i].server))
  }

  lemma PlacedOnce(frags: seq<C.Fragment>)
    ensures NoDuplicates(A.Ids(Placed(frags)))
    ensures forall id: nat :: id in A.Ids(Placed(frags)) <==> id < |frags|
  {
    var ids := A.Ids(Placed(frags));
    forall id: nat ensures id in ids <==> id < |frags| {
      assert id < |frags| ==> ids[id] == id;
    }
  }

  // ---------- listing a map's ids ----------

  /** The order in which a hash map lists its ids. */
  ghost predicate Lists(l: seq<nat>, owner: map<nat, Server>) {
    NoDuplicates(l) && forall id: nat :: id in l <==> id in owner
  }

  /** Below n there are n numbers, so a list of distinct ones has that length exactly
      when it has them all. */
  lemma {:induction false} ListLength(l: seq<nat>, n: nat)
    requires NoDuplicates(l) && forall x: nat :: x in l ==> x < n
    ensures |l| <= n && (|l| == n <==> forall i: nat :: i < n ==> i in l)
    decreases n
  {
    if l == [] {
      assert n > 0 ==> 0 !in l;
      return;
    }
    assert l[0] in l;
    if n - 1 in l {
      var k :| 0 <= k < |l| && l[k] == n - 1;
      var rest := WithoutOne(l, k);
      ListLength(rest, n - 1);
      assert forall i: nat :: i < n - 1 ==> (i in rest <==> i in l);
    } else {
      ListLength(l, n - 1);
    }
  }

  lemma WithoutOne(l: seq<nat>, k: nat) returns (rest: seq<nat>)
    requires NoDuplicates(l) && k < |l|
    ensures NoDuplicates(rest) && |rest| == |l| - 1 && forall x: nat :: x in rest <==> x in l && x != l[k]
  {
    rest := l[..k] + l[k+1..];
    assert forall i :: 0 <= i < |rest| ==> rest[i] == if i < k then l[i] else l[i+1];
    assert forall i :: 0 <= i < |l| && i != k ==> l[i] == rest[if i < k then i else i - 1];
  }

  // ---------- the new fragments ----------

  /** The builders that the assignment returns, in the order given. */
  function Builders(owner: map<nat, Server>, l: seq<nat>): (next: seq<C.Fragment>)
    requires forall i :: 0 <= i < |l| ==> l[i] in owner
    ensures |next| == |l| && forall i :: 0 <= i < |l| ==> next[i].server == owner[l[i]]
  {
    seq(|l|, i requires 0 <= i < |l| => C.Fragment(l[i], owner[l[i]], C.NO_SERVER, 0, -1, -1, C.Normal))
  }

  /** What the assignment that is asked for promises. */
  ghost predicate Assigned(fs: seq<A.Fragment>, servers: nat, total: nat, load: map<Server, int>,
                           order: seq<Server>, owner: map<nat, Server>)
    requires servers > 0
  {
    if load == map[] then A.Fair(fs, total / servers, order, owner)
    else (forall s :: s in order ==> s in load) && A.Balanced(fs, load, servers, order, owner)
  }

  /** assign or assignBalanceLoad, as the static configuration asks; None is an
      exception.  An empty load map means that no loads were given. */
  method NewOwners(fs: seq<A.Fragment>, servers: nat, total: nat, load: map<Server, int>,
                   order: seq<Server>, order2: seq<Server>)
    returns (owner: Option<map<nat, Server>>)
    requires A.Order(order, fs) && servers > 0 && (forall s :: s in order2 ==> s in order)
    ensures owner.None? <==> load != map[] && NobodyLeft(load, servers, order)
    ensures owner.Some? && NoDuplicates(A.Ids(fs)) ==> Assigned(fs, servers, total, load, order, owner.value)
  {
    if load == map[] {
      owner := A.Assign(fs, servers, total, order);
    } else if s :| s in order && s !in load {
      owner := None;
    } else {
      owner := A.AssignBalanceLoad(fs, servers, load, order, order2);
    }
  }

  /** A server without a load, or only overloaded servers. */
  ghost predicate NobodyLeft(load: map<Server, int>, servers: nat, order: seq<Server>) {
    || (exists s :: s in order && s !in load)
    || (order != [] && forall s :: s in order ==> s in load && A.Over(load[s], servers))
  }

  /** Whether some fragment ends without a server. */
  ghost predicate Loses(n: nat, servers: nat, total: nat, load: map<Server, int>, order: seq<Server>)
    requires servers > 0
  {
    if load == map[] then n > total / servers * |order| else NobodyLeft(load, servers, order)
  }

  /** Fragment i is with the owner of the id listed i-th. */
  ghost predicate PlacedBy(frags: seq<C.Fragment>, owner: map<nat, Server>, l: seq<nat>) {
    |frags| == |l| && forall i :: 0 <= i < |l| ==> l[i] in owner && frags[i].server == owner[l[i]]
  }

  /** Fragment i is with its own owner. */
  ghost predicate PlacedById(frags: seq<C.Fragment>, owner: map<nat, Server>) {
    forall i: nat :: i < |frags| ==> i in owner && frags[i].server == owner[i]
  }

  /** Listing in the order of the ids gives every fragment its own owner. */
  lemma ById(frags: seq<C.Fragment>, owner: map<nat, Server>, l: seq<nat>)
    requires PlacedBy(frags, owner, l) && forall x: nat :: x in l ==> x < |l|
    ensures Ascending(l) ==> PlacedById(frags, owner)
  {
    if Ascending(l) {
      InIdOrder(l);
      forall i: nat | i < |frags| ensures i in owner && frags[i].server == owner[i] {
        assert l[i] == i;
      }
    }
  }

  /** The second configuration from owners that are listed in some order. */
  method Build(prev: seq<C.Fragment>, owner: map<nat, Server>, l: seq<nat>, migration: bool)
    returns (r: Option<seq<C.Fragment>>)
    requires Lists(l, owner)
    ensures r.None? <==> |l| < |prev|
    ensures r.Some? && |l| == |prev| ==> C.BuiltFrom(prev, r.value, 1, migration) && PlacedBy(r.value, owner, l)
    ensures r.Some? && |l| == |prev| && !migration ==>
              forall i :: 0 <= i < |l| ==> r.value[i].migrateServer == C.NO_SERVER
  {
    assert forall i :: 0 <= i < |l| ==> l[i] in l;
    var next := Builders(owner, l);
    var b;
    if migration {
      b := C.BuildNextConfig(prev, next, 1);
    } else {
      b := C.BuildNextNormalConfig(prev, next, 1);
    }
    if b.None? {
      return None;
    }
    if |l| == |prev| {
      C.BuilderBuilds(prev, next, b.value.frags, 1, migration);
    }
    return Some(b.value.frags);
  }

  /** The owners cover the fragments exactly when none is lost. */
  lemma AllListed(prev: seq<C.Fragment>, servers: nat, total: nat, load: map<Server, int>, order: seq<Server>,
                  owner: map<nat, Server>, l: seq<nat>)
    requires servers > 0 && Lists(l, owner)
    requires Assigned(Placed(prev), servers, total, load, order, owner)
    requires load != map[] ==> !NobodyLeft(load, servers, order)
    ensures |l| <= |prev| && (|l| < |prev| <==> Loses(|prev|, servers, total, load, order))
    ensures forall x: nat :: x in l ==> x < |prev|
  {
    PlacedOnce(prev);
    ListLength(l, |prev|);
  }

  /** Listed in order, and none but the numbers below their count, each id is at its own
      position. */
  lemma InIdOrder(l: seq<nat>)
    requires Ascending(l) && forall x: nat :: x in l ==> x < |l|
    ensures forall i :: 0 <= i < |l| ==> l[i] == i
  {
    forall i | 0 <= i < |l| ensures l[i] == i {
      AtLeast(l, i);
      AtMost(l, i);
    }
  }

  lemma {:induction false} AtLeast(l: seq<nat>, i: nat)
    requires Ascending(l) && i < |l|
    ensures l[i] >= i
  {
    if i > 0 {
      AtLeast(l, i - 1);
    }
  }

  lemma {:induction false} AtMost(l: seq<nat>, i: nat)
    requires Ascending(l) && i < |l| && forall x: nat :: x in l ==> x < |l|
    ensures l[i] <= i
    decreases |l| - i
  {
    if i + 1 < |l| {
      AtMost(l, i + 1);
    } else {
      assert l[i] in l;
    }
  }

  /** populate: the chain of configurations, or None for an exception.  list gives the
      order in which a hash map from fragments to servers lists its ids. */
  method Populate(initServers: seq<Server>, fragsPerServer: map<Server, nat>, newServers: seq<Server>, total: nat,
                  load: map<Server, int>, migration: bool,
                  order: seq<Server>, order2: seq<Server>, list: map<nat, Server> -> seq<nat>)
    returns (r: Option<seq<seq<C.Fragment>>>, ghost owner: map<nat, Server>)
    requires forall s :: s in initServers ==> s in fragsPerServer
    requires A.Order(order, Placed(C.Initial(initServers, fragsPerServer)))
    requires (forall s :: s in order2 ==> s in order) && forall o :: Lists(list(o), o)
    ensures var init := C.Initial(initServers, fragsPerServer);
            && (r.None? <==> newServers != [] && Loses(|init|, |newServers|, total, load, order))
            && (r.Some? ==>
                  && Rejig.Setting(r.value, set s | s in order) && r.value[0] == init
                  && |r.value| == if newServers == [] then 1 else 2)
            && (r.Some? && newServers != [] ==>
                  && Assigned(Placed(init), |newServers|, total, load, order, owner)
                  && PlacedBy(r.value[1], owner, list(owner))
                  && (Ascending(list(owner)) ==> PlacedById(r.value[1], owner)))
  {
    owner := map[];
    var init, states := C.BuildInitConfig(initServers, fragsPerServer);
    C.InitialIsInitial(initServers, fragsPerServer);
    if newServers == [] {
      OneConfiguration(init, order);
      return Some([init]), owner;
    }
    var owners := NewOwners(Placed(init), |newServers|, total, load, order, order2);
    if owners.None? {
      return None, owner;
    }
    owner := owners.value;
    PlacedOnce(init);
    AllListed(init, |newServers|, total, load, order, owner, list(owner));
    var next := Build(init, owners.value, list(owners.value), migration);
    if next.None? {
      return None, owner;
    }
    ById(next.value, owner, list(owner));
    TwoConfigurations(init, next.value, migration, order, owner, list(owner));
    r := Some([init, next.value]);
  }

  lemma OneConfiguration(init: seq<C.Fragment>, order: seq<Server>)
    requires C.IsInitial(init) && A.Covers(order, Placed(init))
    ensures Rejig.Setting([init], set s | s in order)
  {
    forall n, f | 0 <= n < 1 && 0 <= f < |init| ensures C.Owner([init], n, f) in order {
      assert Placed(init)[f].server in order;
    }
  }

  lemma TwoConfigurations(init: seq<C.Fragment>, next: seq<C.Fragment>, migration: bool, order: seq<Server>,
                          owner: map<nat, Server>, l: seq<nat>)
    requires C.IsInitial(init) && A.Covers(order, Placed(init)) && C.BuiltFrom(init, next, 1, migration)
    requires |l| == |init| && Lists(l, owner) && forall id :: id in owner ==> owner[id] in order
    requires PlacedBy(next, owner, l)
    ensures Rejig.Setting([init, next], set s | s in order)
  {
    var chain := [init, next];
    forall n, f | 0 <= n < |chain| && 0 <= f < |init| ensures C.Owner(chain, n, f) in order {
      assert Placed(init)[f].server in order;
    }
  }

  /** Without loads, adding servers always fails: with as many fragments as the static
      configuration says, and more servers than have fragments now, the quotas of the
      latter never add up to enough. */
  lemma ScaleOutAlwaysFails(n: nat, servers: nat, order: seq<Server>)
    requires n > 0 && |order| < servers
    ensures Loses(n, servers, n, map[], order)
  {
    var q := n / servers;
    assert q * servers <= n;
    Smaller(q, |order|, servers);
  }

  lemma {:induction false} Smaller(q: nat, d: nat, k: nat)
    requires d < k
    ensures q * d + q <= q * k
  {
    assert q * k == q * (k - 1) + q;
    if d + 1 < k {
      Smaller(q, d, k - 1);
    }
  }
}
