/** The I/Q lease commands of mc_items.c, as functions on the live items.

    Every command runs under the one cache lock, so it is one step from a cache
    state to the next.  A state here holds only live items; module ItemCache
    models the code, which also keeps items that have expired and drops them when
    it meets them, and proves that it computes these functions. */
module LeaseSpec {
  import opened Bytes
  import Keylist
  import Counters

  type Tid = Key
  type Token = nat
  type Value = v: Bytes | v != [] witness [0]

  /** Reply to a reader that finds the key leased to someone else (mc_lease.h). */
  const LEASE_HOTMISS: Token := 3

  /** The first token ever issued (mc_lease.h). */
  const LEASE_START: Token := 5

  /** What _item_lease_value yields for a payload that is not a number: -1 as an
      unsigned 64-bit value. */
  const NOT_A_TOKEN: Token := 0xFFFF_FFFF_FFFF_FFFF

  /** A payload with the flag that marks it as pending and the configuration
      number it is stamped with. */
  datatype Item = Item(val: Value, p: int, cfg: int)

  /** An I lease, a Q lease for refresh or for incremental update, or a Q lease
      for invalidation, which any number of transactions share. */
  datatype Lease = I(token: Token) | QRef(token: Token) | QInc(token: Token) | QInv(tids: seq<Tid>)

  /** Anything with an expiry time; 0 means never. */
  datatype Timed<+T> = Timed(it: T, exp: nat)

  /** values are the items under the user's keys, leases those under "ls:",
      versions those under "nv:", marks those under "pd:" and trans those under
      transaction ids; life is the lifetime given to leases and what they guard. */
  datatype Cache = Cache(
    values: map<Key, Timed<Item>>,
    leases: map<Key, Timed<Lease>>,
    versions: map<Key, Timed<Item>>,
    marks: set<Key>,
    trans: map<Tid, Timed<seq<Key>>>,
    nextToken: Token,
    now: nat,
    life: nat)

  predicate LiveAt(exp: nat, now: nat) { exp == 0 || exp > now }

  function Live<T>(m: map<Key, Timed<T>>, now: nat): map<Key, Timed<T>> {
    m - set k | k in m && !LiveAt(m[k].exp, now)
  }

  function Lookup<T>(m: map<Key, T>, k: Key): Option<T> {
    if k in m then Some(m[k]) else None
  }

  function Expiry(c: Cache): nat { c.now + c.life }

  predicate IsQ(l: Lease) { !l.I? }

  function LeaseValue(l: Lease): Token {
    if l.QInv? then NOT_A_TOKEN else l.token
  }

  /** The pending flag a reader of k is told about. */
  function PendingOf(c: Cache, k: Key): int {
    if k in c.values then c.values[k].it.p else if k in c.marks then 1 else 0
  }

  predicate InTrans(c: Cache, tid: Tid, k: Key) {
    tid in c.trans && k in c.trans[tid].it
  }

  // ---------- iqget, iqset, unlease, delete ----------

  datatype IqReply =
    | Hit(item: Item)
    | NoValue
    | Leased(token: Token, pending: int)
    | Miss(pending: int)

  function GrantI(c: Cache, k: Key): Cache {
    c.(leases := c.leases[k := Timed(I(c.nextToken), Expiry(c))], nextToken := c.nextToken + 1)
  }

  /** What a reader outside the transaction is told when there is no value to
      return: a new I lease if the key has no lease at all. */
  function IqMiss(c: Cache, k: Key, token: Token): (Cache, IqReply) {
    if k !in c.leases then
      (GrantI(c, k).(values := c.values - {k}), Leased(c.nextToken, PendingOf(c, k)))
    else if LeaseValue(c.leases[k].it) == token then (c, NoValue)
    else (c, Miss(PendingOf(c, k)))
  }

  /** item_iqget.  Under "override" a cached value is given up for a lease. */
  function IqGet(c: Cache, k: Key, token: Token, tid: Option<Tid>, override: bool): (Cache, IqReply) {
    if tid.Some? && InTrans(c, tid.value, k) then
      if k in c.leases && c.leases[k].it.QInc? && k in c.versions
      then (c, Hit(c.versions[k].it))
      else (c, NoValue)
    else if k in c.values then
      if k in c.leases && c.leases[k].it == QRef(token) then (c, NoValue)
      else if override then IqMiss(c, k, token)
      else (c, Hit(c.values[k].it))
    else IqMiss(c, k, token)
  }

  /** iqget changes nothing, or grants the next token on a key without a lease and
      gives up its value. */
  lemma IqGetCases(c: Cache, k: Key, token: Token, tid: Option<Tid>, override: bool)
    ensures var (c', r) := IqGet(c, k, token, tid, override);
            || (c' == c && !r.Leased?)
            || (k !in c.leases && c' == GrantI(c, k).(values := c.values - {k}) && r.Leased? && r.token == c.nextToken)
  {
  }

  function Put<T>(m: map<Key, Timed<T>>, k: Key, x: Timed<T>, now: nat): map<Key, Timed<T>> {
    if LiveAt(x.exp, now) then m[k := x] else m - {k}
  }

  /** _item_store for IQSET: only the token of the live I lease lets the value in,
      and the lease goes with it.  The new value may already have expired. */
  function IqSet(c: Cache, k: Key, token: Token, v: Bytes, exp: nat, cfg: int): (Cache, bool) {
    if v != [] && k in c.leases && c.leases[k].it == I(token) then
      var item := Item(v, if k in c.marks then 1 else 0, cfg);
      (c.(values := Put(c.values, k, Timed(item, exp), c.now),
          leases := c.leases - {k},
          marks := c.marks - {k}),
       true)
    else (c, false)
  }

  /** item_get_and_unlease */
  function Unlease(c: Cache, k: Key, token: Token): Cache {
    if k in c.leases && LeaseValue(c.leases[k].it) == token
    then c.(leases := c.leases - {k})
    else c
  }

  /** item_get_and_delete, leases kept */
  function Delete(c: Cache, k: Key): (Cache, bool) {
    (c.(values := c.values - {k}), k in c.values)
  }

  // ---------- invalidation: qareg, dar ----------

  /** _item_assoc_key_tid */
  function AssocKey(c: Cache, tid: Tid, k: Key): map<Tid, Timed<seq<Key>>> {
    if InTrans(c, tid, k) then c.trans
    else
      var keys := if tid in c.trans then c.trans[tid].it else [];
      c.trans[tid := Timed(Keylist.Insert(keys, k), Expiry(c))]
  }

  /** qareg reads the lease as a list of transactions, so it must not meet a Q
      lease that carries a token. */
  predicate Registrable(c: Cache, k: Key) {
    k in c.leases ==> c.leases[k].it.I? || c.leases[k].it.QInv?
  }

  /** _item_assoc_tid_lease on a key whose lease, if any, is an I lease or shared:
      joining renews the lease, being on it already does not. */
  function JoinLease(c: Cache, tid: Tid, k: Key): Timed<Lease>
    requires Registrable(c, k)
  {
    var shared := k in c.leases && c.leases[k].it.QInv?;
    if shared && tid in c.leases[k].it.tids then c.leases[k]
    else
      var tids := if shared then c.leases[k].it.tids else [];
      Timed(QInv(Keylist.Insert(tids, tid)), Expiry(c))
  }

  /** item_quarantine_and_register: void an I lease, join the shared Q lease, and
      let the cached value live no longer than that lease. */
  function QaReg(c: Cache, tid: Tid, k: Key): Cache
    requires Registrable(c, k)
  {
    var lease := JoinLease(c, tid, k);
    c.(leases := c.leases[k := lease],
       trans := AssocKey(c, tid, k),
       values := if k in c.values then c.values[k := c.values[k].(exp := lease.exp)] else c.values)
  }

  /** _item_remove_tid_lease: the lease without tid; None when tid was alone. */
  function LeaveLease(c: Cache, tid: Tid, l: Timed<Lease>): Option<Timed<Lease>>
    requires l.it.QInv?
  {
    if tid !in l.it.tids then Some(l)
    else if |l.it.tids| == 1 then None
    else Some(Timed(QInv(Keylist.Remove(l.it.tids, tid)), Expiry(c)))
  }

  /** What dar leaves of k's lease. */
  function DarLease(c: Cache, tid: Tid, k: Key): Option<Timed<Lease>>
    requires k in c.leases
  {
    if c.leases[k].it.QInv? then LeaveLease(c, tid, c.leases[k]) else None
  }

  /** item_delete_and_release on the keys ks. */
  function DarOn(c: Cache, tid: Tid, ks: set<Key>): Cache {
    c.(values := c.values - ks,
       leases := (c.leases - ks)
               + map k | k in ks && k in c.leases && DarLease(c, tid, k).Some? :: DarLease(c, tid, k).value)
  }

  function SetOf(keys: seq<Key>): set<Key> {
    set k | k in keys
  }

  function KeysOf(c: Cache, tid: Tid): set<Key>
    requires tid in c.trans
  {
    SetOf(c.trans[tid].it)
  }

  function Dar(c: Cache, tid: Tid): (Cache, bool) {
    if tid !in c.trans then (c, false)
    else (DarOn(c, tid, KeysOf(c, tid)).(trans := c.trans - {tid}), true)
  }

  // ---------- refresh and incremental update ----------

  datatype Op = Incr(delta: nat) | Decr(delta: nat) | Append(data: Bytes) | Prepend(data: Bytes)

  /** What an operation makes of a payload; None when it does not apply. */
  ghost function ApplyOp(op: Op, v: Value): Option<Value> {
    match op
    case Incr(d) => Counters.AddDelta(v, true, d)
    case Decr(d) => Counters.AddDelta(v, false, d)
    case Append(data) => Some(v + data)
    case Prepend(data) => Some(data + v)
  }

  datatype QaReply = QaReply(token: Token, item: Option<Value>, pending: int)

  /** The transaction's private copy of the published value. */
  function Snapshot(c: Cache, k: Key): map<Key, Timed<Item>> {
    if k in c.values
    then c.versions[k := Timed(c.values[k].it.(cfg := -1), Expiry(c))]
    else c.versions
  }

  /** Take the lease l, which uses up a token, for the transaction. */
  function Quarantine(c: Cache, tid: Tid, k: Key, l: Lease): Cache {
    c.(leases := c.leases[k := Timed(l, Expiry(c))],
       nextToken := c.nextToken + 1,
       versions := Snapshot(c, k),
       trans := AssocKey(c, tid, k))
  }

  function ItemVal(m: map<Key, Timed<Item>>, k: Key): Option<Value> {
    if k in m then Some(m[k].it.val) else None
  }

  /** The pending flag reported with a pending version. */
  function VersionPending(c: Cache, k: Key): int {
    if k in c.versions then c.versions[k].it.p else if k in c.marks then 1 else 0
  }

  /** item_quarantine_and_read */
  function QaRead(c: Cache, tid: Tid, k: Key, token: Token): (Cache, QaReply) {
    if k in c.leases && IsQ(c.leases[k].it) then
      if !c.leases[k].it.QInv? && c.leases[k].it.token == token
      then (c, QaReply(token, ItemVal(c.versions, k), VersionPending(c, k)))
      else (c, QaReply(LEASE_HOTMISS, None, 0))
    else
      (Quarantine(c, tid, k, QRef(c.nextToken)),
       QaReply(c.nextToken, ItemVal(c.values, k), PendingOf(c, k)))
  }

  datatype SwapReply = Swapped | SwapNotFound

  /** item_swap: replace the pending version. */
  function Swap(c: Cache, k: Key, token: Token, v: Bytes): (Cache, SwapReply) {
    if k !in c.leases || LeaseValue(c.leases[k].it) != token then (c, SwapNotFound)
    else if v == [] then (c, Swapped)
    else
      (c.(versions := c.versions[k := Timed(Item(v, VersionPending(c, k), -1), Expiry(c))],
          marks := if k in c.versions then c.marks else c.marks - {k}),
       Swapped)
  }

  datatype OpReply =
    | OpLease(token: Token, pending: int)
    | OpNoValue(token: Token, pending: int)
    | OpClientError(token: Token, pending: int)
    | OpAbort

  /** _item_add_delta_iq and _item_append_prepend_iq: change the pending version. */
  ghost function Rework(c: Cache, k: Key, op: Op, token: Token): (Cache, OpReply)
  {
    if k !in c.versions then (c, OpNoValue(token, if k in c.marks then 1 else 0))
    else
      var pv := c.versions[k];
      match ApplyOp(op, pv.it.val)
      case Some(v) =>
        (c.(versions := c.versions[k := pv.(it := pv.it.(val := v))]), OpLease(token, pv.it.p))
      case None => (c, OpClientError(token, pv.it.p))
  }

  /** _item_iqincr_iqdecr and item_iqappend_iqprepend.  With no value to copy the
      first operation on a key takes the lease and does nothing else. */
  ghost function IqOp(c: Cache, tid: Tid, k: Key, op: Op): (Cache, OpReply) {
    if k !in c.leases || c.leases[k].it.I? then
      var c1 := Quarantine(c, tid, k, QInc(c.nextToken));
      if k in c.values then Rework(c1, k, op, c.nextToken)
      else (c1, OpNoValue(c.nextToken, PendingOf(c, k)))
    else if !InTrans(c, tid, k) then (c, OpAbort)
    else Rework(c, k, op, LeaseValue(c.leases[k].it))
  }

  /** commit and release act on the keys of the transaction that hold a Q lease,
      whoever it was granted to. */
  function Taken(c: Cache, ks: set<Key>): set<Key> {
    set k | k in ks && k in c.leases && IsQ(c.leases[k].it)
  }

  function CommitLease(c: Cache, tid: Tid, k: Key): Option<Timed<Lease>>
    requires k in c.leases
  {
    if c.leases[k].it.QInv? then LeaveLease(c, tid, c.leases[k]) else None
  }

  predicate Publishes(c: Cache, k: Key) {
    k in c.leases && !c.leases[k].it.QInv? && k in c.versions
  }

  /** Whether k is marked as pending after the commit. */
  predicate MarkAfter(c: Cache, k: Key, pending: int) {
    k !in c.values && k !in c.versions && (pending == 1 || (pending != 0 && k in c.marks))
  }

  /** item_commit on keys ks, all of them holding a Q lease. */
  function CommitOn(c: Cache, tid: Tid, ks: set<Key>, pending: int, cfg: int): Cache {
    c.(values := (c.values - ks)
               + map k | k in ks && Publishes(c, k) ::
                   Timed(Item(c.versions[k].it.val, pending % 256, cfg), 0),
       leases := (c.leases - ks)
               + map k | k in ks && k in c.leases && CommitLease(c, tid, k).Some? :: CommitLease(c, tid, k).value,
       versions := c.versions - ks,
       marks := (c.marks - ks) + set k | k in ks && MarkAfter(c, k, pending))
  }

  function Commit(c: Cache, tid: Tid, pending: int, cfg: int): (Cache, bool) {
    if tid !in c.trans then (c, false)
    else
      (CommitOn(c, tid, Taken(c, KeysOf(c, tid)), pending, cfg).(trans := c.trans - {tid}), true)
  }

  /** item_release on keys ks: it drops the whole lease, also a shared one. */
  function ReleaseOn(c: Cache, ks: set<Key>): Cache {
    c.(leases := c.leases - ks, versions := c.versions - ks)
  }

  function Release(c: Cache, tid: Tid): (Cache, bool) {
    if tid !in c.trans then (c, false)
    else (ReleaseOn(c, Taken(c, KeysOf(c, tid))).(trans := c.trans - {tid}), true)
  }

  // ---------- time ----------

  /** d seconds later, whatever has expired is gone. */
  function Tick(c: Cache, d: nat): Cache {
    var now := c.now + d;
    c.(now := now, values := Live(c.values, now), leases := Live(c.leases, now),
       versions := Live(c.versions, now), trans := Live(c.trans, now))
  }
}
