/** Reassigning fragments to servers: ConfigurationAssignment.java. The order in which
    a hash map lists its servers is a parameter. */
module Assignment {
  import opened Basics
  import opened Bytes

  type Server = string
  type Lists = map<Server, seq<nat>>

  datatype Fragment = Fragment(id: nat, server: Server)

  /** The fragments listed for a server. */
  function Of(m: Lists, s: Server): seq<nat> {
    if s in m then m[s] else []
  }

  ghost function Ids(fs: seq<Fragment>): (r: seq<nat>)
    ensures |r| == |fs| && forall i :: 0 <= i < |fs| ==> r[i] == fs[i].id
  {
    seq(|fs|, i requires 0 <= i < |fs| => fs[i].id)
  }

  /** An order that lists the servers of some fragments, each once. */
  ghost predicate Covers(order: seq<Server>, fs: seq<Fragment>) {
    NoDuplicates(order) && forall i :: 0 <= i < |fs| ==> fs[i].server in order
  }

  /** An order in which exactly these servers may be listed. */
  ghost predicate Order(order: seq<Server>, fs: seq<Fragment>) {
    Covers(order, fs) && forall s :: s in order ==> Has(fs, s)
  }

  ghost predicate Has(fs: seq<Fragment>, s: Server) {
    exists i :: 0 <= i < |fs| && fs[i].server == s
  }

  // ---- Counting --------------------------------------------------------------------

  ghost function Times(xs: seq<nat>, id: nat): nat {
    if xs == [] then 0 else Times(xs[..|xs|-1], id) + if xs[|xs|-1] == id then 1 else 0
  }

  lemma {:induction false} TimesConcat(a: seq<nat>, b: seq<nat>, id: nat)
    ensures Times(a + b, id) == Times(a, id) + Times(b, id)
    decreases |b|
  {
    if b == [] {
      assert a + b == a;
    } else {
      assert (a + b)[..|a + b|-1] == a + b[..|b|-1];
      TimesConcat(a, b[..|b|-1], id);
    }
  }

  lemma {:induction false} TimesIn(xs: seq<nat>, id: nat)
    ensures Times(xs, id) > 0 <==> id in xs
    ensures NoDuplicates(xs) ==> Times(xs, id) <= 1
    decreases |xs|
  {
    if xs != [] {
      var n := |xs| - 1;
      TimesIn(xs[..n], id);
      assert xs == xs[..n] + [xs[n]];
    }
  }

  /** How often an id is listed, and how many are listed in all. */
  ghost function Listed(m: Lists, order: seq<Server>, id: nat): nat {
    if order == [] then 0 else Times(Of(m, order[0]), id) + Listed(m, order[1..], id)
  }

  ghost function Total(m: Lists, order: seq<Server>): nat {
    if order == [] then 0 else |Of(m, order[0])| + Total(m, order[1..])
  }

  lemma {:induction false} SameElsewhere(m: Lists, m': Lists, order: seq<Server>, id: nat)
    requires forall s :: s in order ==> Of(m, s) == Of(m', s)
    ensures Listed(m, order, id) == Listed(m', order, id) && Total(m, order) == Total(m', order)
  {
    if order != [] {
      SameElsewhere(m, m', order[1..], id);
    }
  }

  /** One list replaced. */
  lemma {:induction false} Replaced(m: Lists, order: seq<Server>, s: Server, l: seq<nat>, id: nat)
    requires NoDuplicates(order) && s in order
    ensures Listed(m[s := l], order, id) + Times(Of(m, s), id) == Listed(m, order, id) + Times(l, id)
    ensures Total(m[s := l], order) + |Of(m, s)| == Total(m, order) + |l|
  {
    if order[0] == s {
      SameElsewhere(m, m[s := l], order[1..], id);
    } else {
      Replaced(m, order[1..], s, l, id);
    }
  }

  /** One list added to. */
  lemma Appended(m: Lists, order: seq<Server>, s: Server, xs: seq<nat>, id: nat)
    requires NoDuplicates(order) && s in order
    ensures Listed(m[s := Of(m, s) + xs], order, id) == Listed(m, order, id) + Times(xs, id)
    ensures Total(m[s := Of(m, s) + xs], order) == Total(m, order) + |xs|
  {
    Replaced(m, order, s, Of(m, s) + xs, id);
    TimesConcat(Of(m, s), xs, id);
  }

  lemma {:induction false} TotalBound(m: Lists, order: seq<Server>, quota: nat)
    requires Within(m, order, quota)
    ensures Total(m, order) <= quota * |order|
    ensures Full(m, order, |order|, quota) ==> Total(m, order) == quota * |order|
  {
    if order != [] {
      TotalBound(m, order[1..], quota);
      OneMore(|order| - 1, quota);
      if Full(m, order, |order|, quota) {
        assert |Of(m, order[0])| == quota;
        assert forall i :: 0 <= i < |order| - 1 ==> order[1..][i] == order[i+1];
      }
    }
  }

  ghost predicate Within(m: Lists, order: seq<Server>, quota: nat) {
    forall s :: s in order ==> |Of(m, s)| <= quota
  }

  ghost predicate Full(m: Lists, order: seq<Server>, n: nat, quota: nat)
    requires n <= |order|
  {
    forall i :: 0 <= i < n ==> |Of(m, order[i])| == quota
  }

  lemma {:induction false} ListedIn(m: Lists, order: seq<Server>, id: nat)
    ensures Listed(m, order, id) > 0 <==> exists s :: s in order && id in Of(m, s)
  {
    if order != [] {
      TimesIn(Of(m, order[0]), id);
      ListedIn(m, order[1..], id);
    }
  }

  /** An id listed once is listed for one server only. */
  lemma {:induction false} ListedOnce(m: Lists, order: seq<Server>, id: nat, s: Server, t: Server)
    requires NoDuplicates(order) && s in order && t in order && id in Of(m, s) && id in Of(m, t)
    requires Listed(m, order, id) <= 1
    ensures s == t
  {
    TimesIn(Of(m, order[0]), id);
    if s == order[0] || t == order[0] {
      ListedIn(m, order[1..], id);
    } else {
      ListedOnce(m, order[1..], id, s, t);
    }
  }

  // ---- Conservation ----------------------------------------------------------------

  /** The lists and the rest together hold the given ids, each as often as given. */
  ghost predicate Kept(m: Lists, order: seq<Server>, rest: seq<nat>, ids: seq<nat>) {
    && (forall id :: Listed(m, order, id) + Times(rest, id) == Times(ids, id))
    && Total(m, order) + |rest| == |ids|
  }

  /** A new id, listed for a server. */
  lemma KeptNew(m: Lists, order: seq<Server>, rest: seq<nat>, ids: seq<nat>, s: Server, x: nat)
    requires NoDuplicates(order) && s in order && Kept(m, order, rest, ids)
    ensures Kept(m[s := Of(m, s) + [x]], order, rest, ids + [x])
  {
    var l := Of(m, s) + [x];
    forall id ensures Listed(m[s := l], order, id) + Times(rest, id) == Times(ids + [x], id) {
      Appended(m, order, s, [x], id);
      TimesConcat(ids, [x], id);
    }
    Appended(m, order, s, [x], x);
  }

  /** A new id, left for the rest. */
  lemma KeptLeft(m: Lists, order: seq<Server>, rest: seq<nat>, ids: seq<nat>, s: Server, x: nat)
    requires NoDuplicates(order) && s in order && Kept(m, order, rest, ids)
    ensures Kept(m[s := Of(m, s)], order, rest + [x], ids + [x])
  {
    forall id ensures Listed(m[s := Of(m, s)], order, id) + Times(rest + [x], id) == Times(ids + [x], id) {
      Replaced(m, order, s, Of(m, s), id);
      TimesConcat(rest, [x], id);
      TimesConcat(ids, [x], id);
    }
    Replaced(m, order, s, Of(m, s), x);
  }

  /** Some of the rest handed to a server. */
  lemma KeptHandOn(m: Lists, order: seq<Server>, rest: seq<nat>, ids: seq<nat>, s: Server, i: nat, j: nat)
    requires NoDuplicates(order) && s in order && i <= j <= |rest| && Kept(m, order, rest[i..], ids)
    ensures Kept(m[s := Of(m, s) + rest[i..j]], order, rest[j..], ids)
  {
    var xs, left := rest[i..j], rest[j..];
    assert rest[i..] == xs + left;
    forall id ensures Listed(m[s := Of(m, s) + xs], order, id) + Times(left, id) == Times(ids, id) {
      Appended(m, order, s, xs, id);
      TimesConcat(xs, left, id);
    }
    Appended(m, order, s, xs, 0);
  }

  /** The start of a server's list moved to the rest. */
  lemma KeptCut(m: Lists, order: seq<Server>, rest: seq<nat>, ids: seq<nat>, s: Server, k: nat)
    requires NoDuplicates(order) && s in order && k <= |Of(m, s)| && Kept(m, order, rest, ids)
    ensures Kept(m[s := Of(m, s)[k..]], order, rest + Of(m, s)[..k], ids)
  {
    var l := Of(m, s);
    assert l == l[..k] + l[k..];
    forall id ensures Listed(m[s := l[k..]], order, id) + Times(rest + l[..k], id) == Times(ids, id) {
      Replaced(m, order, s, l[k..], id);
      TimesConcat(l[..k], l[k..], id);
      TimesConcat(rest, l[..k], id);
    }
    Replaced(m, order, s, l[k..], 0);
  }

  lemma {:induction false} KeptNone(order: seq<Server>)
    ensures Kept(map[], order, [], [])
  {
    if order != [] {
      KeptNone(order[1..]);
      forall id ensures Listed(map[], order, id) == 0 {
        assert Listed(map[], order[1..], id) + Times([], id) == Times([], id);
      }
    }
  }

  // ---- The final map ---------------------------------------------------------------

  /** A map from ids to servers that agrees with the lists. */
  ghost predicate Inverts(r: map<nat, Server>, m: Lists, order: seq<Server>) {
    && (forall s, id :: s in order && id in Of(m, s) ==> id in r)
    && (forall id :: id in r ==> r[id] in order && id in Of(m, r[id]))
  }

  method Invert(m: Lists, order: seq<Server>) returns (r: map<nat, Server>)
    ensures Inverts(r, m, order)
  {
    r := map[];
    for k := 0 to |order|
      invariant forall s, id :: s in order[..k] && id in Of(m, s) ==> id in r
      invariant forall id :: id in r ==> r[id] in order && id in Of(m, r[id])
    {
      var s := order[k];
      var l := Of(m, s);
      for j := 0 to |l|
        invariant forall t, id :: t in order[..k] && id in Of(m, t) ==> id in r
        invariant forall id :: id in l[..j] ==> id in r
        invariant forall id :: id in r ==> r[id] in order && id in Of(m, r[id])
      {
        r := r[l[j] := s];
      }
      assert l[..|l|] == l && order[..k+1] == order[..k] + [s];
    }
    assert order[..|order|] == order;
  }

  /** With distinct ids, the map holds exactly the ids that are not left over, each
      with the one server that lists it. */
  lemma Owned(r: map<nat, Server>, m: Lists, order: seq<Server>, rest: seq<nat>, ids: seq<nat>, id: nat)
    requires NoDuplicates(order) && Inverts(r, m, order) && Kept(m, order, rest, ids) && NoDuplicates(ids)
    ensures id in r ==> id in ids
    ensures id in ids ==> (id in r <==> id !in rest)
    ensures forall s :: s in order && id in Of(m, s) ==> id in r && r[id] == s
  {
    ListedIn(m, order, id);
    TimesIn(ids, id);
    TimesIn(rest, id);
    forall s | s in order && id in Of(m, s) ensures id in r && r[id] == s {
      ListedOnce(m, order, id, s, r[id]);
    }
  }

  // ---- assign ----------------------------------------------------------------------

  /** How many fragments a server has. */
  ghost function Count(fs: seq<Fragment>, s: Server): nat {
    if fs == [] then 0 else Count(fs[..|fs|-1], s) + if fs[|fs|-1].server == s then 1 else 0
  }

  /** Each list is as long as its server's share of the first n fragments allows. */
  ghost predicate Dealt(m: Lists, fs: seq<Fragment>, n: nat, quota: nat)
    requires n <= |fs|
  {
    forall s :: |Of(m, s)| == if Count(fs[..n], s) < quota then Count(fs[..n], s) else quota
  }

  /** The fragment at k is within its server's quota. */
  ghost predicate Early(fs: seq<Fragment>, k: nat, quota: nat)
    requires k < |fs|
  {
    Count(fs[..k], fs[k].server) < quota
  }

  /** The fragments within their server's quota are listed there. */
  ghost predicate Stayed(m: Lists, fs: seq<Fragment>, n: nat, quota: nat)
    requires n <= |fs|
  {
    forall k :: 0 <= k < n && Early(fs, k, quota) ==> fs[k].id in Of(m, fs[k].server)
  }

  lemma CountNext(fs: seq<Fragment>, n: nat, s: Server)
    requires n < |fs|
    ensures Count(fs[..n+1], s) == Count(fs[..n], s) + if fs[n].server == s then 1 else 0
  {
    assert fs[..n+1][..n] == fs[..n];
  }

  lemma DealtNext(m: Lists, m': Lists, fs: seq<Fragment>, n: nat, quota: nat)
    requires n < |fs| && Dealt(m, fs, n, quota) && Stayed(m, fs, n, quota)
    requires var l := Of(m, fs[n].server);
             m' == m[fs[n].server := if |l| == quota then l else l + [fs[n].id]]
    ensures Dealt(m', fs, n + 1, quota) && Stayed(m', fs, n + 1, quota)
  {
    forall s
      ensures |Of(m', s)| == if Count(fs[..n+1], s) < quota then Count(fs[..n+1], s) else quota
    {
      CountNext(fs, n, s);
    }
  }

  lemma DealtWithin(m: Lists, fs: seq<Fragment>, quota: nat, order: seq<Server>)
    requires Dealt(m, fs, |fs|, quota)
    ensures Within(m, order, quota)
  {
  }

  /** One fragment: to its server while that is below the quota, else to the rest. */
  method DealOne(m: Lists, rest: seq<nat>, f: Fragment, quota: nat, ghost order: seq<Server>, ghost ids: seq<nat>)
    returns (m': Lists, rest': seq<nat>)
    requires NoDuplicates(order) && f.server in order && Kept(m, order, rest, ids)
    ensures Kept(m', order, rest', ids + [f.id])
    ensures var l := Of(m, f.server); m' == m[f.server := if |l| == quota then l else l + [f.id]]
  {
    var l := Of(m, f.server);
    if |l| == quota {
      KeptLeft(m, order, rest, ids, f.server, f.id);
      return m[f.server := l], rest + [f.id];
    } else {
      KeptNew(m, order, rest, ids, f.server, f.id);
      return m[f.server := l + [f.id]], rest;
    }
  }

  /** Each server keeps its first fragments up to the quota; the rest are handed on. */
  method Deal(fs: seq<Fragment>, quota: nat, ghost order: seq<Server>) returns (m: Lists, rest: seq<nat>)
    requires Covers(order, fs)
    ensures Kept(m, order, rest, Ids(fs)) && Within(m, order, quota) && Stayed(m, fs, |fs|, quota)
  {
    m, rest := map[], [];
    KeptNone(order);
    var n := 0;
    ghost var ids := [];
    while n < |fs|
      invariant 0 <= n <= |fs| && Kept(m, order, rest, ids) && ids == Ids(fs)[..n]
      invariant Dealt(m, fs, n, quota) && Stayed(m, fs, n, quota)
    {
      ghost var was := m;
      m, rest := DealOne(m, rest, fs[n], quota, order, ids);
      DealtNext(was, m, fs, n, quota);
      ids, n := ids + [fs[n].id], n + 1;
    }
    DealtWithin(m, fs, quota, order);
    assert ids == Ids(fs);
  }

  /** The inner loop of handing on: one server takes what it has room for. */
  method TopUp(l: seq<nat>, rest: seq<nat>, index: nat, quota: nat) returns (l': seq<nat>, index': nat)
    requires index <= |rest| && |l| <= quota
    ensures index <= index' <= |rest| && l' == l + rest[index..index'] && |l'| <= quota
    ensures index' < |rest| ==> |l'| == quota
  {
    l', index' := l, index;
    while |l'| < quota && index' < |rest|
      invariant index <= index' <= |rest| && l' == l + rest[index..index'] && |l'| <= quota
    {
      l', index' := l' + [rest[index']], index' + 1;
    }
  }

  /** Nothing leaves a list. */
  ghost predicate Grown(m: Lists, m': Lists) {
    forall s, id :: id in Of(m, s) ==> id in Of(m', s)
  }

  /** What did not fit goes to servers below their quota while there are any. */
  method Spread(m: Lists, rest: seq<nat>, quota: nat, order: seq<Server>, ghost ids: seq<nat>)
    returns (m': Lists, index: nat)
    requires NoDuplicates(order) && Within(m, order, quota) && Kept(m, order, rest, ids)
    ensures index <= |rest| && Kept(m', order, rest[index..], ids)
    ensures Grown(m, m') && Within(m', order, quota)
    ensures index < |rest| ==> Full(m', order, |order|, quota)
  {
    m', index := m, 0;
    assert rest[0..] == rest;
    var n := 0;
    while n < |order|
      invariant 0 <= n <= |order| && index <= |rest| && Kept(m', order, rest[index..], ids)
      invariant Grown(m, m') && Within(m', order, quota)
      invariant index < |rest| ==> Full(m', order, n, quota)
    {
      var s := order[n];
      var l, next := TopUp(Of(m', s), rest, index, quota);
      KeptHandOn(m', order, rest, ids, s, index, next);
      m', index, n := m'[s := l], next, n + 1;
    }
  }

  /** The ids a map gives to a server. */
  ghost function Given(r: map<nat, Server>, s: Server): set<nat> {
    set id | id in r && r[id] == s
  }

  lemma {:induction false} FewMembers(xs: seq<nat>, ids: set<nat>)
    requires forall id :: id in ids ==> id in xs
    ensures |ids| <= |xs|
  {
    if xs == [] {
      assert ids == {};
    } else {
      FewMembers(xs[1..], ids - {xs[0]});
      assert |ids| <= |ids - {xs[0]}| + 1 by {
        assert xs[0] in ids ==> ids == ids - {xs[0]} + {xs[0]};
        assert xs[0] !in ids ==> ids == ids - {xs[0]};
      }
    }
  }

  lemma GivenWithin(r: map<nat, Server>, m: Lists, order: seq<Server>, quota: nat, s: Server)
    requires Inverts(r, m, order) && Within(m, order, quota)
    ensures |Given(r, s)| <= quota
  {
    if s in order {
      FewMembers(Of(m, s), Given(r, s));
    } else {
      assert Given(r, s) == {};
    }
  }

  /** Every fragment gets a server exactly when the quotas of the servers that already
      have fragments add up to enough. */
  lemma AllAssigned(r: map<nat, Server>, m: Lists, order: seq<Server>, rest: seq<nat>, ids: seq<nat>, quota: nat)
    requires NoDuplicates(order) && Inverts(r, m, order) && Kept(m, order, rest, ids) && NoDuplicates(ids)
    requires Within(m, order, quota) && (rest != [] ==> Full(m, order, |order|, quota))
    ensures (forall id :: id in ids ==> id in r) <==> |ids| <= quota * |order|
  {
    TotalBound(m, order, quota);
    if rest == [] {
      forall id | id in ids ensures id in r {
        Owned(r, m, order, rest, ids, id);
      }
    } else {
      var id := rest[0];
      TimesIn(rest, id);
      TimesIn(ids, id);
      Owned(r, m, order, rest, ids, id);
    }
  }

  /** assign: no server gets more than its quota, fragments within it stay where they
      are, and every fragment is assigned exactly when the quotas of the servers that
      already have fragments add up to enough. */
  method Assign(fs: seq<Fragment>, servers: nat, total: nat, order: seq<Server>) returns (r: Option<map<nat, Server>>)
    requires Order(order, fs)
    ensures r == None <==> servers == 0
    ensures r.Some? && NoDuplicates(Ids(fs)) ==> Fair(fs, total / servers, order, r.value)
  {
    if servers == 0 {
      return None;
    }
    var quota := total / servers;
    var m, rest := Deal(fs, quota, order);
    var m', index := Spread(m, rest, quota, order, Ids(fs));
    var owner := Invert(m', order);
    if NoDuplicates(Ids(fs)) {
      FairFrom(fs, quota, order, m', rest[index..], owner);
    }
    r := Some(owner);
  }

  ghost predicate Fair(fs: seq<Fragment>, quota: nat, order: seq<Server>, r: map<nat, Server>) {
    && (forall s :: |Given(r, s)| <= quota)
    && (forall id :: id in r ==> id in Ids(fs) && r[id] in order)
    && (forall k :: 0 <= k < |fs| && Early(fs, k, quota) ==> fs[k].id in r && r[fs[k].id] == fs[k].server)
    && ((forall id :: id in Ids(fs) ==> id in r) <==> |fs| <= quota * |order|)
  }

  lemma FairFrom(fs: seq<Fragment>, quota: nat, order: seq<Server>, m: Lists, rest: seq<nat>, r: map<nat, Server>)
    requires Covers(order, fs) && NoDuplicates(Ids(fs)) && Inverts(r, m, order) && Kept(m, order, rest, Ids(fs))
    requires Within(m, order, quota) && Stayed(m, fs, |fs|, quota) && (rest != [] ==> Full(m, order, |order|, quota))
    ensures Fair(fs, quota, order, r)
  {
    AllAssigned(r, m, order, rest, Ids(fs), quota);
    forall s ensures |Given(r, s)| <= quota {
      GivenWithin(r, m, order, quota, s);
    }
    forall id | id in r ensures id in Ids(fs) {
      Owned(r, m, order, rest, Ids(fs), id);
    }
    forall k | 0 <= k < |fs| && Early(fs, k, quota) ensures fs[k].id in r && r[fs[k].id] == fs[k].server {
      Owned(r, m, order, rest, Ids(fs), fs[k].id);
    }
  }

  /** A server that has no fragments yet gets none, and what would have gone to it is
      lost: two fragments of one server, shared out between that server and a new one. */
  lemma NewServerLosesFragment(r: map<nat, Server>)
    requires Fair([Fragment(0, "a"), Fragment(1, "a")], 2 / 2, ["a"], r)
    ensures 0 !in r || 1 !in r
  {
    var fs := [Fragment(0, "a"), Fragment(1, "a")];
    assert Ids(fs)[0] == 0 && Ids(fs)[1] == 1;
    assert forall id :: id in Ids(fs) ==> id == 0 || id == 1;
  }

  // ---- assignBalanceLoad -----------------------------------------------------------

  /** More than an even share of the whole load, which is 100. */
  predicate Over(load: int, servers: nat) {
    servers > 0 && load as real > 100.0 / servers as real
  }

  /** The most of a server's n fragments that make up no more than an even share. */
  function Share(n: nat, load: int, servers: nat): (k: nat)
    requires n > 0 && Over(load, servers)
    ensures k < n && k as real * (load as real / n as real) <= 100.0 / servers as real
    ensures (k + 1) as real * (load as real / n as real) > 100.0 / servers as real
  {
    var balance, each := 100.0 / servers as real, load as real / n as real;
    ShareFits(n, load as real, balance);
    (balance / each).Floor
  }

  lemma ShareFits(n: nat, load: real, balance: real)
    requires n > 0 && load > balance > 0.0
    ensures var each := load / n as real;
            && each > 0.0
            && 0 <= (balance / each).Floor < n
            && (balance / each).Floor as real * each <= balance
            && balance < ((balance / each).Floor + 1) as real * each
  {
    var each := load / n as real;
    Positive(load, n as real);
    var q := balance / each;
    assert q * each == balance && n as real * each == load;
    QuotientBetween(balance, each, n as real);
    FloorScaled(q, each);
    assert balance < (q.Floor + 1) as real * each;
  }

  lemma FloorScaled(q: real, each: real)
    requires each > 0.0
    ensures q.Floor as real * each <= q * each < (q.Floor + 1) as real * each
  {
    Scaled(q.Floor as real, q, each);
    ScaledMore(q, (q.Floor + 1) as real, each);
  }

  lemma ScaledMore(a: real, b: real, c: real)
    requires a < b && c > 0.0
    ensures a * c < b * c
  {
    assert b * c - a * c == (b - a) * c;
  }

  lemma Positive(x: real, y: real)
    requires x > 0.0 && y > 0.0
    ensures x / y > 0.0
  {
  }

  lemma QuotientBetween(x: real, each: real, n: real)
    requires 0.0 < x && each > 0.0 && x < n * each
    ensures 0.0 <= x / each < n
  {
    var q := x / each;
    assert q * each == x;
    if q >= n {
      Scaled(n, q, each);
    }
    Positive(x, each);
  }

  /** Every fragment is listed for its server, and nothing else is. */
  ghost predicate Grouped(m: Lists, fs: seq<Fragment>, n: nat)
    requires n <= |fs|
  {
    && (forall s :: |Of(m, s)| == Count(fs[..n], s))
    && (forall k :: 0 <= k < n ==> fs[k].id in Of(m, fs[k].server))
    && (forall s, id :: id in Of(m, s) ==> Fragment(id, s) in fs)
  }

  lemma GroupedNext(m: Lists, fs: seq<Fragment>, n: nat)
    requires n < |fs| && Grouped(m, fs, n)
    ensures var f := fs[n]; Grouped(m[f.server := Of(m, f.server) + [f.id]], fs, n + 1)
  {
    var f := fs[n];
    var m' := m[f.server := Of(m, f.server) + [f.id]];
    forall s ensures |Of(m', s)| == Count(fs[..n+1], s) {
      CountNext(fs, n, s);
    }
    assert f == Fragment(f.id, f.server) && f in fs;
  }

  ghost predicate IdsTo(fs: seq<Fragment>, n: nat, ids: seq<nat>) {
    n == |ids| <= |fs| && forall i :: 0 <= i < n ==> ids[i] == fs[i].id
  }

  ghost function IdsNext(fs: seq<Fragment>, n: nat, ids: seq<nat>): (r: seq<nat>)
    requires n < |fs| && IdsTo(fs, n, ids)
    ensures r == ids + [fs[n].id] && IdsTo(fs, n + 1, r)
  {
    ids + [fs[n].id]
  }

  lemma IdsAll(fs: seq<Fragment>, ids: seq<nat>)
    requires IdsTo(fs, |fs|, ids)
    ensures ids == Ids(fs)
  {
  }

  method GroupOne(m: Lists, fs: seq<Fragment>, n: nat, ghost order: seq<Server>, ghost ids: seq<nat>)
    returns (m': Lists)
    requires Covers(order, fs) && n < |fs| && Kept(m, order, [], ids) && Grouped(m, fs, n)
    ensures Kept(m', order, [], ids + [fs[n].id]) && Grouped(m', fs, n + 1)
  {
    var f := fs[n];
    KeptNew(m, order, [], ids, f.server, f.id);
    GroupedNext(m, fs, n);
    m' := m[f.server := Of(m, f.server) + [f.id]];
  }

  method Group(fs: seq<Fragment>, ghost order: seq<Server>) returns (m: Lists)
    requires Covers(order, fs)
    ensures Kept(m, order, [], Ids(fs)) && Grouped(m, fs, |fs|)
  {
    m := map[];
    KeptNone(order);
    var n := 0;
    ghost var ids := [];
    while n < |fs|
      invariant 0 <= n <= |fs| && Kept(m, order, [], ids) && IdsTo(fs, n, ids)
      invariant Grouped(m, fs, n)
    {
      m := GroupOne(m, fs, n, order, ids);
      ids, n := IdsNext(fs, n, ids), n + 1;
    }
    IdsAll(fs, ids);
  }

  /** How much of its load a server gives up: whether it is overloaded, and how many
      fragments it may then keep, and the load of one fragment. */
  datatype Plan = Plan(over: bool, share: nat, each: real)

  function PlanFor(n: nat, load: int, servers: nat): (p: Plan)
    requires n > 0
    ensures p.over ==> p.share < n
  {
    var each := load as real / n as real;
    if Over(load, servers) then Plan(true, Share(n, load, servers), each) else Plan(false, n, each)
  }

  /** What unloading leaves a server: all it had, or the end of its list. */
  ghost predicate Unloaded(l: seq<nat>, l': seq<nat>, p: Plan) {
    if p.over then p.share < |l| && l' == l[|l| - p.share..] else l' == l
  }

  /** An overloaded server gives up fragments from the start of its list. */
  method UnloadOne(m: Lists, rest: seq<nat>, loads: seq<real>, s: Server, p: Plan,
                   ghost order: seq<Server>, ghost ids: seq<nat>)
    returns (m': Lists, rest': seq<nat>, loads': seq<real>)
    requires NoDuplicates(order) && s in order && Kept(m, order, rest, ids) && (p.over ==> p.share < |Of(m, s)|)
    requires |loads| == |rest|
    ensures Kept(m', order, rest', ids) && Unloaded(Of(m, s), Of(m', s), p)
    ensures (forall t :: t != s ==> Of(m', t) == Of(m, t)) && |rest'| >= |rest| && (p.over ==> rest' != [])
    ensures |loads'| == |rest'|
  {
    m', rest', loads' := m, rest, loads;
    if p.over {
      var l := m[s];
      var move := |l| - p.share;
      KeptCut(m, order, rest, ids, s, move);
      m', rest', loads' := m[s := l[move..]], rest + l[..move], loads + seq(move, _ => p.each);
    }
  }

  ghost predicate Plans(plan: map<Server, Plan>, m: Lists, order: seq<Server>) {
    forall s :: s in order ==> s in plan && (plan[s].over ==> plan[s].share < |Of(m, s)|)
  }

  ghost predicate AllOver(plan: map<Server, Plan>, order: seq<Server>) {
    forall s :: s in order ==> s in plan && plan[s].over
  }

  ghost predicate Agrees(plan: map<Server, Plan>, load: map<Server, int>, servers: nat, order: seq<Server>) {
    forall s :: s in order ==> s in load && s in plan && (plan[s].over <==> Over(load[s], servers))
  }

  /** Every server from n on is as before, and those before n are unloaded. */
  ghost predicate UnloadedTo(m: Lists, m': Lists, plan: map<Server, Plan>, order: seq<Server>, n: nat)
    requires n <= |order| && Plans(plan, m, order)
  {
    forall i :: 0 <= i < |order| ==>
      if i < n then Unloaded(Of(m, order[i]), Of(m', order[i]), plan[order[i]]) else Of(m', order[i]) == Of(m, order[i])
  }

  lemma UnloadedNext(m: Lists, before: Lists, m': Lists, plan: map<Server, Plan>, order: seq<Server>, n: nat)
    requires NoDuplicates(order) && n < |order| && Plans(plan, m, order) && UnloadedTo(m, before, plan, order, n)
    requires Unloaded(Of(before, order[n]), Of(m', order[n]), plan[order[n]])
    requires forall t :: t != order[n] ==> Of(m', t) == Of(before, t)
    ensures UnloadedTo(m, m', plan, order, n + 1)
  {
    forall i | 0 <= i < |order|
      ensures if i < n + 1 then Unloaded(Of(m, order[i]), Of(m', order[i]), plan[order[i]])
              else Of(m', order[i]) == Of(m, order[i])
    {
      assert i != n ==> order[i] != order[n];
    }
  }

  /** Those of the first n servers that are not overloaded, each once. */
  ghost predicate UnderTo(plan: map<Server, Plan>, order: seq<Server>, n: nat, under: seq<Server>) {
    && n <= |order| && NoDuplicates(under)
    && (forall s :: s in under ==> s in order[..n] && s in plan && !plan[s].over)
    && (forall i :: 0 <= i < n ==> order[i] in plan && (!plan[order[i]].over ==> order[i] in under))
  }

  function NoteUnder(plan: map<Server, Plan>, order: seq<Server>, n: nat, under: seq<Server>): (r: seq<Server>)
    requires NoDuplicates(order) && n < |order| && UnderTo(plan, order, n, under) && order[n] in plan
    ensures UnderTo(plan, order, n + 1, r) && (r == [] ==> under == [] && plan[order[n]].over)
  {
    assert order[..n+1] == order[..n] + [order[n]];
    assert order[n] !in order[..n];
    if plan[order[n]].over then under else under + [order[n]]
  }

  /** The first n servers are unloaded, into the rest. */
  ghost predicate Unloading(m: Lists, m': Lists, rest: seq<nat>, loads: seq<real>, under: seq<Server>,
                            plan: map<Server, Plan>, order: seq<Server>, n: nat, ids: seq<nat>)
  {
    && n <= |order| && Plans(plan, m, order) && Kept(m', order, rest, ids) && |loads| == |rest|
    && UnloadedTo(m, m', plan, order, n) && UnderTo(plan, order, n, under)
    && (under == [] && n > 0 ==> rest != [])
  }

  method UnloadNext(ghost m: Lists, before: Lists, rest: seq<nat>, loads: seq<real>, under: seq<Server>,
                    plan: map<Server, Plan>, order: seq<Server>, n: nat, ghost ids: seq<nat>)
    returns (m': Lists, rest': seq<nat>, loads': seq<real>, under': seq<Server>)
    requires NoDuplicates(order) && n < |order| && Unloading(m, before, rest, loads, under, plan, order, n, ids)
    ensures Unloading(m, m', rest', loads', under', plan, order, n + 1, ids)
  {
    var s := order[n];
    m', rest', loads' := UnloadOne(before, rest, loads, s, plan[s], order, ids);
    UnloadedNext(m, before, m', plan, order, n);
    under' := NoteUnder(plan, order, n, under);
  }

  method Unload(m: Lists, plan: map<Server, Plan>, order: seq<Server>, ghost ids: seq<nat>)
    returns (m': Lists, rest: seq<nat>, loads: seq<real>, under: seq<Server>)
    requires NoDuplicates(order) && Kept(m, order, [], ids) && Plans(plan, m, order)
    ensures Kept(m', order, rest, ids) && |loads| == |rest| && UnloadedTo(m, m', plan, order, |order|)
    ensures NoDuplicates(under) && forall s :: s in under ==> s in order && !plan[s].over
    ensures under == [] <==> AllOver(plan, order)
    ensures under == [] && order != [] ==> rest != []
  {
    m', rest, loads, under := m, [], [], [];
    var n := 0;
    while n < |order|
      invariant 0 <= n <= |order| && Unloading(m, m', rest, loads, under, plan, order, n, ids)
    {
      m', rest, loads, under := UnloadNext(m, m', rest, loads, under, plan, order, n, ids);
      n := n + 1;
    }
    UnderEmpty(plan, order, under);
  }

  lemma UnderEmpty(plan: map<Server, Plan>, order: seq<Server>, under: seq<Server>)
    requires UnderTo(plan, order, |order|, under)
    ensures forall s :: s in under ==> s in order && !plan[s].over
    ensures under == [] <==> AllOver(plan, order)
  {
    assert order[..|order|] == order;
    if under != [] {
      assert under[0] in under;
    }
  }

  /** Still below an even share. */
  predicate Below(load: real, servers: nat) {
    servers == 0 || load < 100.0 / servers as real
  }

  function Sum(loads: seq<real>): real {
    if loads == [] then 0.0 else Sum(loads[..|loads|-1]) + loads[|loads|-1]
  }

  /** The inner loop of refilling: one server takes fragments until it has its share, each
      while it is still below it. */
  method TakeUp(l: seq<nat>, rest: seq<nat>, loads: seq<real>, index: nat, load: int, servers: nat)
    returns (l': seq<nat>, index': nat)
    requires index <= |rest| == |loads|
    ensures index <= index' <= |rest| && l' == l + rest[index..index']
    ensures Over(load, servers) ==> index' == index
    ensures forall j :: index <= j < index' ==> Below(load as real + Sum(loads[index..j]), servers)
    ensures index' < |rest| ==> !Below(load as real + Sum(loads[index..index']), servers)
  {
    var curLoad: real := load as real;
    l', index' := l, index;
    while Below(curLoad, servers) && index' < |rest|
      invariant index <= index' <= |rest| && l' == l + rest[index..index']
      invariant curLoad == load as real + Sum(loads[index..index'])
      invariant Over(load, servers) ==> index' == index
      invariant forall j :: index <= j < index' ==> Below(load as real + Sum(loads[index..j]), servers)
      decreases |rest| - index'
    {
      assert loads[index..index'+1][..index'-index] == loads[index..index'];
      l', curLoad, index' := l' + [rest[index']], curLoad + loads[index'], index' + 1;
    }
  }

  /** Lists only grow, and those of overloaded servers stay as they are. */
  ghost predicate Refilled(m: Lists, m': Lists, plan: map<Server, Plan>) {
    && Grown(m, m')
    && forall s :: s in plan && plan[s].over ==> Of(m', s) == Of(m, s)
  }

  method RefillOne(m: Lists, rest: seq<nat>, loads: seq<real>, index: nat, s: Server,
                   load: map<Server, int>, servers: nat,
                   ghost plan: map<Server, Plan>, ghost order: seq<Server>, ghost ids: seq<nat>)
    returns (m': Lists, next: nat)
    requires NoDuplicates(order) && s in order && index <= |rest| == |loads| && Kept(m, order, rest[index..], ids)
    requires Agrees(plan, load, servers, order)
    ensures index <= next <= |rest| && Kept(m', order, rest[next..], ids) && Refilled(m, m', plan)
    ensures plan[s].over ==> next == index
  {
    var l;
    l, next := TakeUp(Of(m, s), rest, loads, index, load[s], servers);
    KeptHandOn(m, order, rest, ids, s, index, next);
    m' := m[s := l];
  }

  method Refill(m: Lists, rest: seq<nat>, loads: seq<real>, load: map<Server, int>, servers: nat, order2: seq<Server>,
                ghost plan: map<Server, Plan>, ghost order: seq<Server>, ghost ids: seq<nat>)
    returns (m': Lists, index: nat)
    requires NoDuplicates(order) && Kept(m, order, rest, ids) && |loads| == |rest|
    requires (forall s :: s in order2 ==> s in order) && Agrees(plan, load, servers, order)
    ensures index <= |rest| && Kept(m', order, rest[index..], ids) && Refilled(m, m', plan)
    ensures AllOver(plan, order) ==> index == 0
  {
    m', index := m, 0;
    assert rest[0..] == rest;
    var n := 0;
    while n < |order2|
      invariant 0 <= n <= |order2| && index <= |rest| && Kept(m', order, rest[index..], ids) && Refilled(m, m', plan)
      invariant AllOver(plan, order) ==> index == 0
    {
      m', index := RefillOne(m', rest, loads, index, order2[n], load, servers, plan, order, ids);
      n := n + 1;
    }
  }

  lemma KeptGive(m: Lists, order: seq<Server>, rest: seq<nat>, ids: seq<nat>, s: Server, i: nat)
    requires NoDuplicates(order) && s in order && i < |rest| && Kept(m, order, rest[i..], ids)
    ensures Kept(m[s := Of(m, s) + [rest[i]]], order, rest[i+1..], ids)
  {
    KeptHandOn(m, order, rest, ids, s, i, i + 1);
    assert rest[i..i+1] == [rest[i]];
  }

  /** One fragment for a server that is not overloaded. */
  method GiveOne(m: Lists, rest: seq<nat>, index: nat, s: Server,
                 ghost plan: map<Server, Plan>, ghost order: seq<Server>, ghost ids: seq<nat>)
    returns (m': Lists)
    requires NoDuplicates(order) && index < |rest| && Kept(m, order, rest[index..], ids)
    requires s in order && s in plan && !plan[s].over
    ensures Kept(m', order, rest[index+1..], ids) && Refilled(m, m', plan)
    ensures |Of(m', s)| == |Of(m, s)| + 1 && forall t :: t != s ==> Of(m', t) == Of(m, t)
  {
    KeptGive(m, order, rest, ids, s, index);
    m' := m[s := Of(m, s) + [rest[index]]];
  }

  /** The first i of some servers have gained one more than the others, which have gained
      q each, and nobody else anything. */
  ghost predicate Gained(m: Lists, m': Lists, under: seq<Server>, q: nat, i: nat) {
    && (forall j :: 0 <= j < |under| ==> |Of(m', under[j])| == |Of(m, under[j])| + q + if j < i then 1 else 0)
    && (forall s :: s !in under ==> Of(m', s) == Of(m, s))
  }

  /** No two of them have gained numbers that differ by more than one. */
  ghost predicate Even(m: Lists, m': Lists, under: seq<Server>) {
    exists q, i: nat :: Gained(m, m', under, q, i)
  }

  lemma NextTurn(m: Lists, m': Lists, under: seq<Server>, q: nat, i: nat) returns (q': nat)
    requires under != [] && i <= |under| && Gained(m, m', under, q, i)
    ensures i % |under| < |under| && Gained(m, m', under, q', i % |under|)
  {
    q' := if i == |under| then q + 1 else q;
    assert i % |under| == if i == |under| then 0 else i;
  }

  ghost predicate Gave(m: Lists, m': Lists, plan: map<Server, Plan>, under: seq<Server>, q: nat, i: nat) {
    Refilled(m, m', plan) && Gained(m, m', under, q, i)
  }

  lemma GaveOne(m: Lists, before: Lists, m': Lists, plan: map<Server, Plan>, under: seq<Server>, q: nat, i: nat)
    requires NoDuplicates(under) && i < |under| && Gave(m, before, plan, under, q, i) && Refilled(before, m', plan)
    requires |Of(m', under[i])| == |Of(before, under[i])| + 1
    requires forall t :: t != under[i] ==> Of(m', t) == Of(before, t)
    ensures Gave(m, m', plan, under, q, i + 1)
  {
    forall j | 0 <= j < |under|
      ensures |Of(m', under[j])| == |Of(m, under[j])| + q + if j < i + 1 then 1 else 0
    {
      assert j != i ==> under[j] != under[i];
    }
  }

  /** What is still left goes round the servers that are not overloaded. */
  method RoundRobin(m: Lists, rest: seq<nat>, first: nat, under: seq<Server>,
                    ghost plan: map<Server, Plan>, ghost order: seq<Server>, ghost ids: seq<nat>)
    returns (m': Lists)
    requires NoDuplicates(order) && first <= |rest| && Kept(m, order, rest[first..], ids)
    requires forall s :: s in under ==> s in order && s in plan && !plan[s].over
    requires NoDuplicates(under) && (first < |rest| ==> under != [])
    ensures Kept(m', order, [], ids) && Refilled(m, m', plan) && Even(m, m', under)
  {
    m' := m;
    var i, index := 0, first;
    ghost var q := 0;
    while index < |rest|
      invariant first <= index <= |rest| && Kept(m', order, rest[index..], ids)
      invariant 0 <= i <= |under| && Gave(m, m', plan, under, q, i)
    {
      q := NextTurn(m, m', under, q, i);
      i := i % |under|;
      ghost var before := m';
      m' := GiveOne(m', rest, index, under[i], plan, order, ids);
      GaveOne(m, before, m', plan, under, q, i);
      i, index := i + 1, index + 1;
    }
    assert rest[|rest|..] == [];
  }

  /** Every fragment keeps or gets a server; servers with no more than an even share
      keep all they had; overloaded ones end with as many of their own fragments as make
      up no more than an even share of load, and no others. */
  ghost predicate Balanced(fs: seq<Fragment>, load: map<Server, int>, servers: nat, order: seq<Server>,
                           r: map<nat, Server>)
    requires forall s :: s in order ==> s in load
  {
    && (forall id :: id in r <==> id in Ids(fs))
    && (forall id :: id in r ==> r[id] in order)
    && (forall k :: 0 <= k < |fs| && fs[k].server in order && !Over(load[fs[k].server], servers) ==>
          fs[k].id in r && r[fs[k].id] == fs[k].server)
    && (forall s :: s in order && Over(load[s], servers) ==> Relieved(fs, load[s], servers, s, Given(r, s)))
  }

  ghost predicate Relieved(fs: seq<Fragment>, load: int, servers: nat, s: Server, left: set<nat>) {
    && (forall id :: id in left ==> Fragment(id, s) in fs)
    && servers > 0 && Count(fs, s) > 0
    && |left| as real * (load as real / Count(fs, s) as real) <= 100.0 / servers as real
    && (|left| + 1) as real * (load as real / Count(fs, s) as real) > 100.0 / servers as real
  }

  lemma HasSome(m: Lists, fs: seq<Fragment>, s: Server)
    requires Has(fs, s) && Grouped(m, fs, |fs|)
    ensures |Of(m, s)| == Count(fs, s) > 0
  {
    assert fs[..|fs|] == fs;
    var i :| 0 <= i < |fs| && fs[i].server == s;
    assert fs[i].id in Of(m, s);
  }

  /** Overloaded servers are left with their share, all others with at least what they
      had. */
  ghost predicate Moved(m: Lists, m': Lists, plan: map<Server, Plan>, order: seq<Server>) {
    forall s :: s in order && s in plan ==>
      if plan[s].over then Unloaded(Of(m, s), Of(m', s), plan[s])
      else forall id :: id in Of(m, s) ==> id in Of(m', s)
  }

  lemma MovedFrom(m: Lists, m1: Lists, m2: Lists, m3: Lists, plan: map<Server, Plan>, order: seq<Server>)
    requires Plans(plan, m, order) && UnloadedTo(m, m1, plan, order, |order|)
    requires Refilled(m1, m2, plan) && Refilled(m2, m3, plan)
    ensures Moved(m, m3, plan, order)
  {
    forall s | s in order
      ensures if plan[s].over then Unloaded(Of(m, s), Of(m3, s), plan[s])
              else forall id :: id in Of(m, s) ==> id in Of(m3, s)
    {
      var i :| 0 <= i < |order| && order[i] == s;
      assert Unloaded(Of(m, order[i]), Of(m1, order[i]), plan[order[i]]);
    }
  }

  /** Unloading, refilling and handing round; None is the remainder by zero when there
      is nobody to hand round to. */
  method Move(m: Lists, plan: map<Server, Plan>, load: map<Server, int>, servers: nat,
              order: seq<Server>, order2: seq<Server>, ghost ids: seq<nat>)
    returns (r: Option<Lists>)
    requires NoDuplicates(order) && Kept(m, order, [], ids) && Plans(plan, m, order)
    requires (forall s :: s in order2 ==> s in order) && Agrees(plan, load, servers, order)
    ensures r == None <==> order != [] && AllOver(plan, order)
    ensures r.Some? ==> Kept(r.value, order, [], ids) && Moved(m, r.value, plan, order)
  {
    var m1, rest, loads, under := Unload(m, plan, order, ids);
    var m2, index := Refill(m1, rest, loads, load, servers, order2, plan, order, ids);
    if index < |rest| && under == [] {
      return None;
    }
    var m3 := RoundRobin(m2, rest, index, under, plan, order, ids);
    MovedFrom(m, m1, m2, m3, plan, order);
    r := Some(m3);
  }

  ghost predicate Planned(plan: map<Server, Plan>, m: Lists, load: map<Server, int>, servers: nat, order: seq<Server>) {
    forall s :: s in order ==>
      s in load && Of(m, s) != [] && s in plan && plan[s] == PlanFor(|Of(m, s)|, load[s], servers)
  }

  lemma AllHaveSome(m: Lists, fs: seq<Fragment>, order: seq<Server>)
    requires Order(order, fs) && Grouped(m, fs, |fs|)
    ensures forall s :: s in order ==> Of(m, s) != []
  {
    forall s | s in order ensures Of(m, s) != [] {
      HasSome(m, fs, s);
    }
  }

  /** The plan for each server, from its load and the fragments it has. */
  method MakePlan(m: Lists, load: map<Server, int>, servers: nat, order: seq<Server>) returns (plan: map<Server, Plan>)
    requires forall s :: s in order ==> s in load && Of(m, s) != []
    ensures Planned(plan, m, load, servers, order) && Plans(plan, m, order) && Agrees(plan, load, servers, order)
  {
    plan := map s | s in order :: PlanFor(|Of(m, s)|, load[s], servers);
  }

  lemma BalancedFrom(fs: seq<Fragment>, load: map<Server, int>, servers: nat, order: seq<Server>,
                     m: Lists, m': Lists, plan: map<Server, Plan>, r: map<nat, Server>)
    requires Covers(order, fs) && NoDuplicates(Ids(fs)) && Grouped(m, fs, |fs|)
    requires Planned(plan, m, load, servers, order)
    requires Kept(m', order, [], Ids(fs)) && Moved(m, m', plan, order) && Inverts(r, m', order)
    ensures Balanced(fs, load, servers, order, r)
  {
    assert fs[..|fs|] == fs;
    forall id ensures id in r <==> id in Ids(fs) {
      Owned(r, m', order, [], Ids(fs), id);
    }
    forall k | 0 <= k < |fs| && fs[k].server in order && !Over(load[fs[k].server], servers)
      ensures fs[k].id in r && r[fs[k].id] == fs[k].server
    {
      assert fs[k].id in Of(m, fs[k].server);
      Owned(r, m', order, [], Ids(fs), fs[k].id);
    }
    forall s | s in order && Over(load[s], servers) ensures Relieved(fs, load[s], servers, s, Given(r, s)) {
      ShareLeft(fs, s, m, m', r, order, plan[s]);
      RelievedFrom(fs, load[s], servers, s, Given(r, s), |Of(m, s)|);
    }
  }

  lemma ShareLeft(fs: seq<Fragment>, s: Server, m: Lists, m': Lists, r: map<nat, Server>, order: seq<Server>, p: Plan)
    requires NoDuplicates(order) && s in order && NoDuplicates(Ids(fs)) && Kept(m', order, [], Ids(fs))
    requires Grouped(m, fs, |fs|) && Inverts(r, m', order) && p.over && Unloaded(Of(m, s), Of(m', s), p)
    ensures |Given(r, s)| == p.share && forall id :: id in Given(r, s) ==> Fragment(id, s) in fs
  {
    KeptDistinct(m', order, Ids(fs), s);
    AllMembers(Of(m', s));
    GivenIs(r, m', order, Ids(fs), s);
    forall id | id in Given(r, s) ensures Fragment(id, s) in fs {
      assert id in Of(m', s) && id in Of(m, s);
    }
  }

  lemma RelievedFrom(fs: seq<Fragment>, load: int, servers: nat, s: Server, left: set<nat>, n: nat)
    requires n == Count(fs, s) > 0 && Over(load, servers) && |left| == PlanFor(n, load, servers).share
    requires forall id :: id in left ==> Fragment(id, s) in fs
    ensures Relieved(fs, load, servers, s, left)
  {
    assert |left| == Share(n, load, servers);
  }

  /** With distinct ids, the ids given to a server are those on its list. */
  lemma GivenIs(r: map<nat, Server>, m: Lists, order: seq<Server>, ids: seq<nat>, s: Server)
    requires NoDuplicates(order) && s in order && Inverts(r, m, order) && Kept(m, order, [], ids) && NoDuplicates(ids)
    ensures Given(r, s) == Members(Of(m, s))
  {
    forall id ensures id in Given(r, s) <==> id in Of(m, s) {
      Owned(r, m, order, [], ids, id);
    }
  }

  /** And no list holds one twice. */
  lemma KeptDistinct(m: Lists, order: seq<Server>, ids: seq<nat>, s: Server)
    requires NoDuplicates(order) && s in order && Kept(m, order, [], ids) && NoDuplicates(ids)
    ensures forall id :: Times(Of(m, s), id) <= 1
  {
    forall id ensures Times(Of(m, s), id) <= 1 {
      TimesIn(ids, id);
      Replaced(m, order, s, [], id);
    }
  }

  ghost function Members(xs: seq<nat>): set<nat> {
    set id | id in xs
  }

  lemma {:induction false} AllMembers(xs: seq<nat>)
    requires forall id :: Times(xs, id) <= 1
    ensures |Members(xs)| == |xs|
    decreases |xs|
  {
    if xs != [] {
      var n := |xs| - 1;
      forall id ensures Times(xs[..n], id) <= 1 {
        assert Times(xs, id) <= 1;
      }
      AllMembers(xs[..n]);
      TimesIn(xs[..n], xs[n]);
      assert Times(xs, xs[n]) <= 1;
      assert xs[n] !in Members(xs[..n]);
      assert Members(xs) == Members(xs[..n]) + {xs[n]};
    }
  }

  /** assignBalanceLoad: it fails exactly when there are fragments and every server
      that has some is overloaded, since then nobody can take what is given up. */
  method AssignBalanceLoad(fs: seq<Fragment>, servers: nat, load: map<Server, int>,
                           order: seq<Server>, order2: seq<Server>)
    returns (r: Option<map<nat, Server>>)
    requires Order(order, fs) && (forall s :: s in order2 ==> s in order) && (forall s :: s in order ==> s in load)
    ensures r == None <==> order != [] && forall s :: s in order ==> Over(load[s], servers)
    ensures r.Some? && NoDuplicates(Ids(fs)) ==> Balanced(fs, load, servers, order, r.value)
  {
    var m := Group(fs, order);
    AllHaveSome(m, fs, order);
    var plan := MakePlan(m, load, servers, order);
    var moved := Move(m, plan, load, servers, order, order2, Ids(fs));
    if moved == None {
      return None;
    }
    var owner := Invert(moved.value, order);
    if NoDuplicates(Ids(fs)) {
      BalancedFrom(fs, load, servers, order, m, moved.value, plan, owner);
    }
    r := Some(owner);
  }
}
