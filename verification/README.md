# Rejig in Dafny

A model of the hard parts of Rejig, a cache that changes its configuration while it
runs and keeps cached values consistent with a database: the IQ-Twemcached server
(I and Q leases, key lists, hash index, slab allocator, command log, replies, request
lines) and the coordinator (configurations, fragment assignment). `dafny verify
dfyconfig.toml` checks the whole project.

How the files fit together:

- `LeaseSpec` gives every lease command of `mc_items.c` as a function from cache
  state to cache state. `Freshness`, `Sharing`, `Isolation`, `Transactions`, `Refresh`
  and `Tokens` prove properties of whole runs of these commands: what readers may find,
  who is on a shared lease, that transactions do not meet, what they read and publish.
  `LeaseLaws` states short dialogues from any state. `ItemCache` is the code: a class
  whose items expire lazily, with a method per command and loop, proved to compute those
  functions.
- `Keylist` and `Counters` are the payload formats leases and values are made of.
- `Configuration` builds chains of configurations; `Assignment` decides which server
  gets which fragment; `Populate` puts the two together; `Rejig` is the protocol
  between coordinator, servers and clients over the resulting chain.
- `Basics` and `Bytes` hold what several modules use.
- `Hash` and `Assoc` are the index, `Slabs` and `Profile` the memory, `Klog` the
  command log, `Replies` and `Connection` the outgoing data, `Tokenizer` the
  incoming lines.

What the run theorems take for granted, beyond the code:

- Each lease command is one step, because the server runs it under one lock.
- Freshness: a writer changes a key in the database only while its Q lease on the
  key is live, and a reader stores only what it read after its lease was granted.
- Isolation: no Q lease runs out during the run (`TickKeepsExactlyWhen` says when one
  may), and `swap` is given tokens of Q grants. Values and I leases may expire; values,
  versions and marks may be evicted.
- Refresh: as Isolation; a writer changes a key in the database only under its own Q
  lease, commits once its versions say what it has written, and releases only what it
  has not changed (`CommitKeepsExactlyWhen` and `ReleaseKeepsExactlyWhen` say that it
  must); a reader stores only what it read after its lease was granted.
- Transaction ids never read as a number, so a `QInv` payload is never mistaken for a
  token; the value the code computes for it is kept as `NOT_A_TOKEN`.
- The command log's indices are read and written whole, and `write` may be short or
  fail at once; a second write that fails after a wrapped first one is treated
  separately (`SecondFailureRepeats`).
- A datagram socket writes a whole message or nothing.
- Time, allocation success where it matters (`Expand`, `GetSlab`), random slab picks,
  sendmsg's answers, and the order in which a Java hash map lists its keys are
  parameters. Real numbers stand for `double`.

Properties that the code does not have are stated with the input that breaks them and
the exact condition under which they hold: freshness under unlease with the value that
stands for "not a token" and under release of an invalidation transaction
(`Freshness.UnleaseKeepsExactlyWhen`, `ReleaseKeepsExactlyWhen`,
`OvertakenIsReachable`); isolation under unlease of a refresh lease, under swap with an
I token and when Q leases run out (`Isolation.UnleaseKeepsExactlyWhen`,
`SwapKeepsExactlyWhen`, `TickKeepsExactlyWhen`, each with a run in which a commit
publishes a stranger's work); freshness of the refresh technique when Q leases run out
(`Refresh.TickKeepsExactlyWhen`, `ExpiryExposesStale`); the separation of ownership
periods by stamps when a client overrides them (`Rejig.StampsToldExactlyWhen`,
`OverrideOutlivesPeriod`); a single server per fragment when the coordinator
publishes past a missed update (`Rejig.ClashFollowsExactlyWhen`,
`MissedUpdateTwoServers`); the order of the log when a write fails
(`Klog.FirstFailureIsHarmless`, `SecondFailureExactlyWhen`); indices in range when
datagram headers are built again (`Connection.Conn.Rebuild`); and conservation of
fragments by `assign`, which never holds when servers are added (`Assignment.Assign`,
`Populate.ScaleOutAlwaysFails`).

Where code and comments disagree the code is followed. The comment above
`trig_compare_key` (mc_sqltrig.c:85-90) promises a positive result when the first
differing byte is larger in the second key; the code returns a negative one. The order
the lists are actually kept in is therefore shorter keys first and, among equal
lengths, descending bytes (`Keylist.BeforeMeaning`).

## Model

| member | source | states |
|---|---|---|
| `Freshness.NoStaleValue` | IQ-Twemcached/src/mc_items.c:1608-1661 | In every run of iqget, database read, iqset, qareg, database write, dar, unlease, delete, eviction and expiry, a cached value whose key has no live Q lease is what the database holds |
| `Freshness.NoStaleRead` | IQ-Twemcached/src/mc_items.c:2681-2879 | In every run, an iqget hit returns the database value, or during a quarantine the value from when that quarantine began |
| `Freshness.StepKeeps` | IQ-Twemcached/src/mc_items.c:1126-1162 | Every command, database step and tick keeps the invariant: values fresh, or quarantined and expiring with their lease; a granted reader's value current or its I lease voided |
| `Freshness.QaRegKeeps` | IQ-Twemcached/src/mc_items.c:1608-1661 | qareg voids the I lease and ties the value's expiry to the Q lease, which keeps the invariant |
| `Freshness.DarKeeps` | IQ-Twemcached/src/mc_items.c:1810-1870 | dar deletes the values and leaves each lease, dropping it with its last holder, which keeps the invariant |
| `Freshness.TickKeeps` | IQ-Twemcached/src/mc_items.c:802-856 | Expiry of any mixture of items keeps the invariant: a quarantined value never outlives its lease |
| `Freshness.IqGetKeeps` | IQ-Twemcached/src/mc_items.c:2681-2879 | iqget keeps the invariant: a new reader's lease excludes every writer |
| `Freshness.IqSetKeeps` | IQ-Twemcached/src/mc_items.c:1126-1162 | iqset keeps the invariant: what is stored under a live I lease is current |
| `Freshness.DbWriteKeeps` | IQ-Twemcached/src/mc_items.c:1608-1661 | A write to the database under a live Q lease keeps the invariant: no I lease and no unquarantined value is left to contradict it |
| `Freshness.RunKeeps` | IQ-Twemcached/src/mc_items.c:1608-1870 | The invariant holds after every run |
| `LeaseSpec.IqGetCases` | IQ-Twemcached/src/mc_items.c:2681-2879 | iqget changes nothing, or grants the next token on a key without a lease and gives up its value; what it returns is stated in `Transactions` and `LeaseLaws` |
| `LeaseLaws.StoredUntilExpiry` | IQ-Twemcached/src/mc_items.c:1126-1162 | A reader given a lease stores a value with it; then readers get it with its stamp and the pending flag the miss reported until it expires, and after that a new lease with nothing pending |
| `LeaseLaws.LeaseLastsItsLife` | IQ-Twemcached/src/mc_items.c:954-991 | An I lease lasts exactly its life: until then another reader waits and the holder is told there is still no value; after it the next reader gets the next token and the old one stores nothing |
| `LeaseLaws.GrantGivesUpValue` | IQ-Twemcached/src/mc_items.c:2681-2879 | Whoever gets a lease, also by overriding a cached value, leaves nothing for others to hit |
| `LeaseLaws.StoresOnce` | IQ-Twemcached/src/mc_items.c:1126-1162 | iqset stores if and only if its token is that of the key's I lease and the value is not empty, and a token stores once |
| `LeaseLaws.UnleaseLetsIn` | IQ-Twemcached/src/mc_items.c:1571-1602 | unlease with the reader's token lets the next reader in and shuts the first out; with any other it does nothing |
| `LeaseLaws.DeletedIsMissed` | IQ-Twemcached/src/mc_items.c:4188-4237 | A deleted value is not hit, and the next reader gets a lease if nobody has one |
| `LeaseLaws.WriterShutsOutReader` | IQ-Twemcached/src/mc_items.c:1608-1870 | qareg leaves readers the cached value and shuts out the one about to store; after dar there is no value, the next reader gets a lease, and no other key is changed |
| `LeaseLaws.QuarantineLastsItsLife` | IQ-Twemcached/src/mc_items.c:2071-2165 | After qaread, lease, pending version and list go together after exactly a life, and the published value stays |
| `LeaseLaws.SwapTells` | IQ-Twemcached/src/mc_items.c:2608-2669 | swap is believed if and only if its token is the lease's; the new version lasts a life, its pending flag stays what it was and a mark it came from is used up |
| `LeaseLaws.RefreshRoundTrip` | IQ-Twemcached/src/mc_items.c:2071-2165 | qaread, swap and commit publish the new value with the commit's stamp and flag; qaread, swap and release leave what was there; either way no other key is changed |
| `LeaseLaws.CommitOfInvalidationIsDar` | IQ-Twemcached/src/mc_items.c:1872-1994 | For a transaction with only shared leases commit and dar leave the same values, leases and lists |
| `Freshness.OvertakenIsStale` | IQ-Twemcached/src/mc_items.c:1641-1651 | A quarantined cached value is stale exactly when writers have changed the database since the quarantine began |
| `Freshness.UnleaseKeepsExactlyWhen` | IQ-Twemcached/src/mc_items.c:1571-1602 | Unlease leaves every value fresh if and only if it is not given the "not a token" value for a quarantined cached key that writers have changed in the database since the quarantine began |
| `Freshness.ReleaseKeepsExactlyWhen` | IQ-Twemcached/src/mc_items.c:1996-2065 | Release of an invalidation transaction leaves every value fresh if and only if the database still holds, for each of its quarantined cached keys, what it held when the quarantine began |
| `Freshness.OvertakenIsReachable` | IQ-Twemcached/src/mc_items.c:1996-2065 | For every key, writer and new value a run from an empty cache ends where that writer's release, and likewise unlease with the "not a token" value, leaves a stale value unquarantined |
| `Sharing.LeasesSayWhoRegistered` | IQ-Twemcached/src/mc_items.c:1608-1870 | In every run the transactions on a key's Q lease are exactly those that have registered for it and not given it up with dar, until a life after the last change among them; each transaction's list holds exactly what it has registered for since the list began, and lasts a life from its last addition |
| `Sharing.NoReaderWhileRegistered` | IQ-Twemcached/src/mc_items.c:2681-2879 | In every run, while any transaction is registered for a key, iqget grants nobody a lease on it, whoever else registers or gives up |
| `Sharing.LastOneDropsLease` | IQ-Twemcached/src/mc_items.c:4022-4084 | In every run, a dar that gives a key up drops its Q lease if and only if nobody else is registered for the key |
| `Sharing.RegisterLeases` | IQ-Twemcached/src/mc_items.c:3941-3985 | qareg adds its transaction to those on the lease and keeps all others; joining renews the lease, being on it already does not |
| `Sharing.RegisterLists` | IQ-Twemcached/src/mc_items.c:3760-3796 | qareg adds the key to the transaction's list and keeps all others |
| `Sharing.GivenUp` | IQ-Twemcached/src/mc_items.c:4022-4084 | dar leaves every key's Q lease as it was unless the transaction is on it and has the key on its list; then the transaction alone leaves it, it is renewed, and the last one takes it along |
| `Sharing.PassAgrees` | IQ-Twemcached/src/mc_items.c:802-856 | Q leases and lists end exactly when nobody has renewed them for a life |
| `Sharing.StepAgrees` | IQ-Twemcached/src/mc_items.c:1608-1870 | Every step keeps the leases and lists in agreement with the registrations |
| `Isolation.ExclusiveOwner` | IQ-Twemcached/src/mc_items.c:3760-3796 | In every run a key is Q leased if and only if it is in some transaction's key list, and then in exactly one |
| `Isolation.OnlyCommitPublishes` | IQ-Twemcached/src/mc_items.c:2071-2165 | In any state whatever, only commit, and iqset on a key without a Q lease, changes or adds a published value |
| `Isolation.PrivateUntilCommit` | IQ-Twemcached/src/mc_items.c:2071-2165 | In every run, from any moment at which a transaction has quarantined a key until it commits or releases, whatever all others do, the key stays its own and readers find the value from before the quarantine or none |
| `Isolation.StaysWithOwner` | IQ-Twemcached/src/mc_items.c:2071-2165 | A quarantined key stays with its owner through every step that does not end the owner's transaction |
| `Isolation.CommitIsAtomic` | IQ-Twemcached/src/mc_items.c:1872-1994 | Commit leaves each of the transaction's keys at the value obtained by replaying its own operations on the value published at the start, or absent, drops all its leases and versions, and touches no other key |
| `Isolation.CommitMarks` | IQ-Twemcached/src/mc_items.c:1872-1994 | After commit a key is marked pending if and only if it had neither value nor version and the flag is 1, or is neither 0 nor 1 and found it marked |
| `Isolation.ReleaseIsClean` | IQ-Twemcached/src/mc_items.c:1996-2065 | Release drops exactly the transaction's leases and versions and changes no published value and no mark |
| `Transactions.ReadsOwnWork` | IQ-Twemcached/src/mc_items.c:2681-2879 | In every run, iqget from the transaction that holds a key hits if and only if the lease is incremental and its operations, replayed on the value from the start, leave a value, and returns that value; otherwise it returns none; nothing changes |
| `Transactions.OthersReadPublished` | IQ-Twemcached/src/mc_items.c:2681-2879 | In every run, any other reader gets no lease, and the value from before the quarantine or none, by exact condition |
| `Transactions.QaReadTells` | IQ-Twemcached/src/mc_items.c:2071-2165 | In every run, qaread returns the published value and a new token, then the key's Q lease, if nobody holds the key; with that token what has been made of the value so far; and otherwise the answer "taken", changing nothing |
| `Transactions.OperationTells` | IQ-Twemcached/src/mc_items.c:3643-3758 | In every run, an operation on another's key is refused and changes nothing; any other keeps the key with its transaction and answers with its Q token whether the value was changed, is missing, or is not one the operation applies to |
| `Transactions.IncrMeans` | IQ-Twemcached/src/mc_items.c:1484-1495 | iqincr of a printed number adds modulo 2^64, and fails exactly above the largest number the parser takes |
| `Transactions.DecrMeans` | IQ-Twemcached/src/mc_items.c:1484-1495 | iqdecr of a printed number subtracts and stops at zero, with the same failures |
| `Transactions.NotANumber` | IQ-Twemcached/src/mc_items.c:1484-1487 | Neither applies to a payload that is no number |
| `Transactions.AppendMeans` | IQ-Twemcached/src/mc_items.c:3471-3506 | iqappend leaves the value as a prefix, followed by the data |
| `Transactions.PrependMeans` | IQ-Twemcached/src/mc_items.c:3471-3506 | iqprepend leaves the data as a prefix, followed by the value |
| `Transactions.OneOperation` | IQ-Twemcached/src/mc_items.c:3643-3758 | In every run, one operation on a cached key that nobody holds, and then commit, publish what the operation makes of the cached value |
| `Transactions.CounterPublished` | IQ-Twemcached/src/mc_items.c:3643-3758 | In every run, iqincr and commit publish the sum modulo 2^64, iqdecr and commit the difference or zero, of the cached number |
| `Transactions.TextPublished` | IQ-Twemcached/src/mc_items.c:2918-3055 | In every run, iqappend and commit publish the cached value followed by the data, iqprepend and commit the data followed by the value |
| `Transactions.IncrementsPublished` | IQ-Twemcached/src/mc_items.c:3643-3758 | In every run, a transaction that has only incremented a counter publishes the start value plus the sum of its increments modulo 2^64, whatever others did |
| `Transactions.AppendsPublished` | IQ-Twemcached/src/mc_items.c:2918-3055 | In every run, a transaction that has only appended publishes the start value followed by all it appended, in order |
| `Transactions.AlwaysUnstamped` | IQ-Twemcached/src/mc_items.c:899-924 | In every run no pending version carries a configuration number |
| `Transactions.FlagStays` | IQ-Twemcached/src/mc_items.c:2608-2669 | From any moment at which a transaction holds a key until it ends, the pending flag it is told stays the same through all steps, unless version or mark is evicted |
| `Isolation.StepKeeps` | IQ-Twemcached/src/mc_items.c:1872-2165 | Every command, eviction and tick keeps the isolation invariant |
| `Isolation.RunKeeps` | IQ-Twemcached/src/mc_items.c:1872-2165 | The isolation invariant holds after every run |
| `Isolation.OwnKeys` | IQ-Twemcached/src/mc_items.c:1897-1983 | A transaction's key list is exactly the set of Q leases it took, so the unguarded loops of commit and release act on nobody else's |
| `Isolation.QuarantineKeeps` | IQ-Twemcached/src/mc_items.c:899-924 | A first Q grant with its snapshot of the value keeps the invariant |
| `Isolation.QaReadKeeps` | IQ-Twemcached/src/mc_items.c:2071-2165 | qaread keeps the invariant on every branch |
| `Isolation.SwapKeeps` | IQ-Twemcached/src/mc_items.c:2608-2669 | swap with a Q token keeps the invariant: the version is the recorded history |
| `Isolation.IqOpKeeps` | IQ-Twemcached/src/mc_items.c:3643-3758 | iqincr, iqdecr, iqappend and iqprepend keep the invariant |
| `Isolation.FirstOpKeeps` | IQ-Twemcached/src/mc_items.c:2918-3055 | The first incremental operation on a key, which takes the lease and the snapshot itself, keeps the invariant |
| `Isolation.ReworkKeeps` | IQ-Twemcached/src/mc_items.c:3471-3506 | A later operation on the private version keeps the invariant |
| `Isolation.CommitKeeps` | IQ-Twemcached/src/mc_items.c:1872-1994 | Commit keeps the invariant for all other transactions |
| `Isolation.ReleaseKeeps` | IQ-Twemcached/src/mc_items.c:1996-2065 | Release keeps the invariant for all other transactions |
| `Isolation.IqGetKeeps` | IQ-Twemcached/src/mc_items.c:2681-2879 | iqget keeps the isolation invariant |
| `Isolation.IqSetKeeps` | IQ-Twemcached/src/mc_items.c:1126-1243 | iqset keeps the isolation invariant: it never stores under a Q lease |
| `Isolation.UnleaseKeepsExactlyWhen` | IQ-Twemcached/src/mc_items.c:1571-1602 | Unlease keeps key lists and leases in step if and only if its token is not that of the key's Q lease |
| `Isolation.StrangersWorkCommitted` | IQ-Twemcached/src/mc_items.c:1872-1994 | After such an unlease one transaction can commit what another has written |
| `Isolation.SwapKeepsExactlyWhen` | IQ-Twemcached/src/mc_items.c:2608-2669 | Swap keeps versions tied to Q leases if and only if its token is not that of an I lease on the key (or the data is empty) |
| `Isolation.ReaderSwapCommitted` | IQ-Twemcached/src/mc_items.c:2608-2669 | After iqget and a swap with the I token it granted there is a version outside any quarantine, and a later transaction that has only read the key publishes it |
| `Isolation.TickKeepsExactlyWhen` | IQ-Twemcached/src/mc_items.c:802-856 | The clock keeps key lists and leases in step if and only if no key list outlives the lease of a key on it |
| `Isolation.ExpiredLeaseStrangersWork` | IQ-Twemcached/src/mc_items.c:3760-3796 | A transaction that takes a second key just before its first lease runs out keeps the first on its list, and its commit then publishes what another transaction has written there |
| `Refresh.NoStaleValue` | IQ-Twemcached/src/mc_items.c:2071-2165 | In every run of qaread, swap, incremental operations, commit, release, iqget, database reads and writes, iqset, delete, eviction and expiry, a cached value whose key has no Q lease is what the database holds |
| `Refresh.NoStaleRead` | IQ-Twemcached/src/mc_items.c:2681-2879 | In every run, an iqget hit from outside the transaction returns the database value, or during a quarantine the value from when it began |
| `Refresh.StepKeeps` | IQ-Twemcached/src/mc_items.c:1872-2165 | Every command and database step keeps the invariant |
| `Refresh.RunKeeps` | IQ-Twemcached/src/mc_items.c:1872-2165 | The invariant holds after every run |
| `Refresh.CommitKeepsExactlyWhen` | IQ-Twemcached/src/mc_items.c:1927-1946 | Commit leaves every value fresh if and only if the transaction's versions are what the database holds |
| `Refresh.ReleaseKeepsExactlyWhen` | IQ-Twemcached/src/mc_items.c:2020-2054 | Release leaves every value fresh if and only if the database still holds, for each of the transaction's cached keys, what it held when the quarantine began |
| `Refresh.TickKeepsExactlyWhen` | IQ-Twemcached/src/mc_items.c:2118-2145 | The clock keeps every value fresh if and only if no value of a key that writers have changed outlives the key's Q lease |
| `Refresh.ExpiryExposesStale` | IQ-Twemcached/src/mc_items.c:2118-2145 | For every key, writer and new value a run from an empty cache ends where the passing of a lease's life makes iqget answer with the old value and no lease |
| `Refresh.CommitKeeps` | IQ-Twemcached/src/mc_items.c:1872-1994 | Commit of versions that say what was written keeps the invariant |
| `Refresh.QuarantineKeeps` | IQ-Twemcached/src/mc_items.c:2109-2150 | A Q grant, which voids the I lease, keeps the invariant |
| `Refresh.FillKeeps` | IQ-Twemcached/src/mc_items.c:1126-1162 | iqset under a live I lease keeps the invariant |
| `Refresh.DbWriteKeeps` | IQ-Twemcached/src/mc_items.c:2071-2165 | A database write under a Q lease keeps the invariant |
| `Tokens.DeadStaysDead` | IQ-Twemcached/src/mc_lease.c:7-21 | An issued token that is no I lease of any key is never one again, whatever commands follow |
| `Tokens.StoresAtMostOnce` | IQ-Twemcached/src/mc_items.c:1206-1243 | In every run iqset succeeds at most once with any token |
| `Tokens.VoidedTokenStoresNothing` | IQ-Twemcached/src/mc_items.c:1126-1162 | Once a Q command has voided a token, no later iqset with it succeeds, in any continuation |
| `Tokens.DeadTokenStoresNothing` | IQ-Twemcached/src/mc_items.c:1126-1162 | A dead token stores nothing in any continuation |
| `Tokens.HotMissNeverStores` | IQ-Twemcached/src/mc_items.c:954-991 | The hot-miss marker never matches an issued token, so it never stores |
| `Tokens.TokenKeepsItsKey` | IQ-Twemcached/src/mc_items.c:954-991 | A token that is an I lease in two states of a run is so for the same key |
| `Tokens.Step` | IQ-Twemcached/src/mc_items.c:954-991 | Every command either keeps a lease, drops it, or grants one with a new token, and only on its own key |
| `Tokens.EvolvesKeeps` | IQ-Twemcached/src/mc_lease.c:7-21 | Such a change keeps tokens distinct and below the counter and never revives one |
| `Tokens.Run` | IQ-Twemcached/src/mc_lease.c:7-21 | Tokens stay distinct and below a counter that never goes down, over every run |
| `ItemCache.AliveIsLive` | IQ-Twemcached/src/mc_items.c:802-856 | The relation between stored items, some of them expired, and live items determines the live items |
| `ItemCache.Get` | IQ-Twemcached/src/mc_items.c:802-856 | A lookup returns exactly the live item and removes an expired one without changing what is live |
| `ItemCache.LaterAlive` | IQ-Twemcached/src/mc_items.c:802-856 | Lazy expiry agrees with immediate expiry at every later time |
| `ItemCache.ApplyNow` | IQ-Twemcached/src/mc_items.c:4120-4152 | Computes what an operation makes of a payload: a sum modulo 2^64, a difference down to zero, or one byte string before the other (`Transactions.IncrMeans`, `DecrMeans`, `AppendMeans`, `PrependMeans`), or failure |
| `ItemCache.Store.constructor` | IQ-Twemcached/src/mc_items.c:954-991 | An empty cache with the first token and the lease life computed from the setting |
| `ItemCache.Store.Advance` | IQ-Twemcached/src/mc_items.c:802-856 | The passing of time drops exactly what has run out |
| `ItemCache.Store.AssocKeyTid` | IQ-Twemcached/src/mc_items.c:3760-3796 | A key joins its transaction's sorted key list, once |
| `ItemCache.Store.AssocTidLease` | IQ-Twemcached/src/mc_items.c:3941-3985 | A transaction joins those on a key's invalidation lease, and all others stay (`Sharing.RegisterLeases`) |
| `ItemCache.Store.RemoveTidLease` | IQ-Twemcached/src/mc_items.c:4022-4084 | A transaction leaves the lease; the last one drops it |
| `ItemCache.Store.IqGetItem` | IQ-Twemcached/src/mc_items.c:2681-2879 | iqget on the lazily expiring store computes the specified state and reply on every branch; what a transaction reads of its own is `Transactions.ReadsOwnWork` |
| `ItemCache.Store.MissItem` | IQ-Twemcached/src/mc_items.c:2783-2879 | The miss branch: grant, hot miss or plain miss as specified |
| `ItemCache.Store.IqSetItem` | IQ-Twemcached/src/mc_items.c:1126-1243 | iqset stores exactly under a matching I lease and consumes it |
| `ItemCache.Store.GetAndUnlease` | IQ-Twemcached/src/mc_items.c:1571-1602 | unlease drops the lease whose value is the token, and nothing else |
| `ItemCache.Store.GetAndDelete` | IQ-Twemcached/src/mc_items.c:4188-4237 | delete removes the value and reports whether there was one |
| `ItemCache.Store.ShareLease` | IQ-Twemcached/src/mc_items.c:1619-1639 | qareg's lease step: an I lease is voided, an invalidation lease is shared with all that are on it |
| `ItemCache.Store.TieExpiry` | IQ-Twemcached/src/mc_items.c:1641-1651 | The value expires with the lease |
| `ItemCache.Store.QuarantineAndRegister` | IQ-Twemcached/src/mc_items.c:1608-1661 | qareg computes the specified state, which over whole runs says exactly who has registered (`Sharing.LeasesSayWhoRegistered`) |
| `ItemCache.Store.DarKey` | IQ-Twemcached/src/mc_items.c:1833-1859 | One turn of dar's loop is dar on one key |
| `ItemCache.Store.DeleteAndRelease` | IQ-Twemcached/src/mc_items.c:1810-1870 | The loop over the key list computes the specified simultaneous change of all keys |
| `ItemCache.Store.TakeLease` | IQ-Twemcached/src/mc_items.c:2109-2150 | A Q grant: new token, lease, key list entry and snapshot |
| `ItemCache.Store.NewLease` | IQ-Twemcached/src/mc_items.c:954-991 | A lease with the next token, which is then used up |
| `ItemCache.Store.CopyValue` | IQ-Twemcached/src/mc_items.c:899-924 | The pending version is a copy of the published value, if there is one |
| `ItemCache.Store.QuarantineAndRead` | IQ-Twemcached/src/mc_items.c:2071-2165 | qaread computes the specified state and reply |
| `ItemCache.Store.SwapItem` | IQ-Twemcached/src/mc_items.c:2608-2669 | swap computes the specified state and reply |
| `ItemCache.Store.ReworkItem` | IQ-Twemcached/src/mc_items.c:3471-3506 | An operation on an existing version computes the specified state and reply (`Transactions.OperationTells`) |
| `ItemCache.Store.FirstOpItem` | IQ-Twemcached/src/mc_items.c:2918-3055 | The first operation on a key computes the specified state and reply (`Transactions.OneOperation`) |
| `ItemCache.Store.IqOpItem` | IQ-Twemcached/src/mc_items.c:3643-3758 | iqincr, iqdecr, iqappend and iqprepend compute the specified state and reply (`Transactions.CounterPublished`, `TextPublished`) |
| `ItemCache.Store.PublishKey` | IQ-Twemcached/src/mc_items.c:1927-1982 | Publishing one key: the version becomes the value, or the key is marked or left absent |
| `ItemCache.Store.PublishValue` | IQ-Twemcached/src/mc_items.c:1927-1946 | The value becomes the pending version, or none |
| `ItemCache.Store.MarkKey` | IQ-Twemcached/src/mc_items.c:1948-1971 | The mark goes where there was a value, else follows the pending flag |
| `ItemCache.Store.CommitKey` | IQ-Twemcached/src/mc_items.c:1897-1983 | One turn of commit's loop is commit on one key |
| `ItemCache.Store.CommitItems` | IQ-Twemcached/src/mc_items.c:1872-1994 | The loop over the key list computes the specified simultaneous commit |
| `ItemCache.Store.ReleaseKey` | IQ-Twemcached/src/mc_items.c:2020-2054 | One turn of release's loop is release on one key |
| `ItemCache.Store.ReleaseItems` | IQ-Twemcached/src/mc_items.c:1996-2065 | The loop over the key list computes the specified simultaneous release |
| `ItemCache.DarAll` | IQ-Twemcached/src/mc_items.c:1833-1859 | Dar key by key equals dar on the whole set |
| `ItemCache.CommitAll` | IQ-Twemcached/src/mc_items.c:1897-1983 | Commit key by key equals commit of the whole set |
| `ItemCache.ReleaseAll` | IQ-Twemcached/src/mc_items.c:2020-2054 | Release key by key equals release of the whole set |
| `Keylist.CompareKey` | IQ-Twemcached/src/mc_sqltrig.c:92-102 | Zero exactly on equal keys |
| `Keylist.BeforeMeaning` | IQ-Twemcached/src/mc_sqltrig.c:92-102 | The order lists are kept in is shorter first, then descending at the first difference |
| `Keylist.BeforeIsStrictTotalOrder` | IQ-Twemcached/src/mc_sqltrig.c:92-102 | Irreflexive, asymmetric, transitive and total |
| `Keylist.SortedUnique` | IQ-Twemcached/src/mc_sqltrig.c:291-374 | A set of keys has one sorted list |
| `Keylist.InsertMembers` | IQ-Twemcached/src/mc_sqltrig.c:291-374 | Insertion adds exactly the key |
| `Keylist.InsertSorted` | IQ-Twemcached/src/mc_sqltrig.c:291-374 | Insertion keeps a list sorted |
| `Keylist.RemoveMembers` | IQ-Twemcached/src/mc_sqltrig.c:164-229 | Removal takes away exactly the key and keeps the list sorted |
| `Keylist.RemoveAfterInsert` | IQ-Twemcached/src/mc_sqltrig.c:164-374 | Adding an absent key and removing it gives back the same bytes |
| `Keylist.InsertAfterRemove` | IQ-Twemcached/src/mc_sqltrig.c:164-374 | Removing a key and adding it gives back the same list |
| `Keylist.EncodeInjective` | IQ-Twemcached/src/mc_sqltrig.c:291-374 | Different key lists have different bytes |
| `Keylist.CheckKeylist` | IQ-Twemcached/src/mc_sqltrig.c:129-162 | The early-exit scan over the bytes finds a key if and only if it is listed |
| `Keylist.FindSlot` | IQ-Twemcached/src/mc_sqltrig.c:315-335 | The scan for the insertion point stops at the offset where the key belongs, or reports it present |
| `Keylist.AddKey` | IQ-Twemcached/src/mc_sqltrig.c:291-374 | The destination holds the bytes of the list with the key, of exactly the new length; a present key changes nothing |
| `Keylist.FindKey` | IQ-Twemcached/src/mc_sqltrig.c:182-198 | The scan finds the offset of the key |
| `Keylist.RemoveKey` | IQ-Twemcached/src/mc_sqltrig.c:164-229 | The destination holds the bytes of the list without the key, exactly filled |
| `Keylist.Next` | IQ-Twemcached/src/mc_sqltrig.c:413-438 | The cursor yields the next key, and none after the last |
| `Keylist.VisitAll` | IQ-Twemcached/src/mc_sqltrig.c:413-438 | Following the cursor visits every key once, in order |
| `Counters.Parse` | IQ-Twemcached/src/mc_util.c:319-349 | The value exactly of decimal numerals the parser accepts |
| `Counters.ReadsUnique` | IQ-Twemcached/src/mc_util.c:319-349 | A payload reads as at most one number |
| `Counters.SkipSpace` | IQ-Twemcached/src/mc_util.c:310-317 | Stops at the first character that is not a space |
| `Counters.StrToU64` | IQ-Twemcached/src/mc_util.c:319-349 | The loop, with its early overflow test, computes exactly Parse |
| `Counters.ParsePrint` | IQ-Twemcached/src/mc_util.c:319-349 | Parsing undoes printing exactly up to 2^64 - 7 and rejects every larger value |
| `Counters.PrintValue` | IQ-Twemcached/src/mc_items.c:1470-1553 | Printed digits denote the number |
| `Counters.TooLarge` | IQ-Twemcached/src/mc_util.c:319-349 | The early overflow test rejects only numerals that do not fit |
| `Counters.Payload.AddDeltaTo` | IQ-Twemcached/src/mc_items.c:1470-1553 | In place, with the length set to the new digits, or in a new item, the payload becomes the specified digits; a payload that is no number is left alone |
| `Counters.IncrementOnce` | IQ-Twemcached/src/mc_items.c:1470-1553 | One increment adds modulo 2^64, or fails exactly above the parser's range |
| `Counters.IncrementRun` | IQ-Twemcached/src/mc_items.c:1470-1553 | A run of increments succeeds if and only if every value it starts an increment from is in the parser's range, and then yields the sum modulo 2^64 |
| `Counters.DecrementClamps` | IQ-Twemcached/src/mc_items.c:1470-1553 | A decrement stops at zero |
| `Configuration.BuildNextConfig` | NVCacheCoordinator/src/main/java/edu/usc/dblab/nvcache/config/ConfigurationManagement.java:86-129 | Moved fragments name their previous server and period, others keep their fields, and server states follow; it fails exactly when the new list is shorter than the old one |
| `Configuration.BuildNextNormalConfig` | NVCacheCoordinator/src/main/java/edu/usc/dblab/nvcache/config/ConfigurationManagement.java:164-189 | The same without migration: the period of a fragment that stays is kept, all are normal with no previous configuration (`Configuration.StateByLastMove`) |
| `Configuration.BuildInitConfig` | NVCacheCoordinator/src/main/java/edu/usc/dblab/nvcache/config/ConfigurationManagement.java:52-84 | Consecutive ids, dealt out server by server |
| `Configuration.InitialShares` | NVCacheCoordinator/src/main/java/edu/usc/dblab/nvcache/config/ConfigurationManagement.java:52-84 | Each server gets exactly the number of fragments asked for |
| `Configuration.BuilderBuilds` | NVCacheCoordinator/src/main/java/edu/usc/dblab/nvcache/config/ConfigurationManagement.java:86-189 | What the builders produce is a step of a chain |
| `Configuration.SuccessiveIsRectangular` | NVCacheCoordinator/src/main/java/edu/usc/dblab/nvcache/config/ConfigurationManagement.java:86-189 | All configurations of a chain list the same fragments |
| `Configuration.LastMoveMeaning` | NVCacheCoordinator/src/main/java/edu/usc/dblab/nvcache/config/ConfigurationManagement.java:86-129 | LastMove is the configuration in which the current ownership period began |
| `Configuration.CfgIdIsLastMove` | NVCacheCoordinator/src/main/java/edu/usc/dblab/nvcache/config/ConfigurationManagement.java:86-189 | Along every chain fragmentCfgId is the last configuration in which the fragment changed server, and nextFragmentCfgId stays -1 |
| `Configuration.MigrationPointsBack` | NVCacheCoordinator/src/main/java/edu/usc/dblab/nvcache/config/ConfigurationManagement.java:86-129 | With migration, migrateServer and prevFragmentCfgId name the previous owner and the start of its period |
| `Configuration.StateByLastMove` | NVCacheCoordinator/src/main/java/edu/usc/dblab/nvcache/config/ConfigurationManagement.java:86-189 | However migration is switched on and off along a chain, a fragment is migrating, and points back, if and only if migration has been on since its last move; otherwise, and in every configuration built without migration, it is normal with no previous configuration |
| `Populate.Populate` | NVCacheCoordinator/src/main/java/edu/usc/dblab/nvcache/config/ConfigurationManagement.java:191-220 | Fails if and only if there are new servers and the assignment loses a fragment or finds nobody to give one to; otherwise the configurations form a chain that the protocol can run on, the second placing each fragment with the owner of the id listed at its position, which is its own id when the hash map lists ids in order |
| `Populate.NewOwners` | NVCacheCoordinator/src/main/java/edu/usc/dblab/nvcache/config/ConfigurationManagement.java:202-210 | The assignment that is asked for, with an exception exactly when a server has no load given or all are overloaded |
| `Populate.Build` | NVCacheCoordinator/src/main/java/edu/usc/dblab/nvcache/config/ConfigurationManagement.java:212-219 | A step of a chain with the owners in the order listed; without migration no fragment names another server; fails exactly when fewer are listed than there were |
| `Populate.ById` | NVCacheCoordinator/src/main/java/edu/usc/dblab/nvcache/config/ConfigurationManagement.java:86-128 | Listing in the order of the ids gives every fragment its own owner |
| `Populate.AllListed` | NVCacheCoordinator/src/main/java/edu/usc/dblab/nvcache/config/ConfigurationManagement.java:200-219 | The owners cover the fragments exactly when none is lost |
| `Populate.ScaleOutAlwaysFails` | NVCacheCoordinator/src/main/java/edu/usc/dblab/nvcache/config/ConfigurationManagement.java:202-216 | Without loads, adding servers always loses a fragment, so the configuration is never built |
| `Rejig.SingleOwner` | NVCacheCoordinator/src/main/java/edu/usc/dblab/nvcache/base/CacheStateSimulator.java:88-118 | In every interleaving a command a server accepts carries the published number, and its server owns the fragment |
| `Rejig.NoTwoServers` | IQ-Twemcached/src/mc_ascii.c:304-316 | No two servers accept commands for one fragment in the same state |
| `Rejig.StampsSeparatePeriods` | IQ-Twemcached/src/mc_ascii.c:1656-1694 | In every interleaving, for an item of a fragment on its present owner, however late it was stored: with the default stamp, with its fragment's cfg id, or with any override that separates the periods, its stamp is at or above the current cfg id exactly when its command was checked in the present period; and an override of at most one above the command's number never makes an item of an earlier period look current |
| `Rejig.StampsToldExactlyWhen` | IQ-Twemcached/src/mc_ascii.c:1689-1691 | Over all runs, the items of a command are told apart by their stamp if and only if the stamp is not below the fragment's cfg id and the fragment does not come back at or before it |
| `Rejig.OverrideOutlivesPeriod` | IQ-Twemcached/src/mc_ascii.c:2869-2871 | For every fragment that leaves and comes back, an override that reaches its return makes some run keep an item of the earlier period at or above the cfg id |
| `Rejig.TellsExactlyWhen` | NVCacheCoordinator/src/main/java/edu/usc/dblab/nvcache/config/ConfigurationManagement.java:86-189 | The same as a fact about the chain: a stamp tells the periods apart in every later configuration exactly when it separates them |
| `Rejig.UsualStamps` | NVCacheCoordinator/src/main/java/edu/usc/dblab/nvcache/config/ConfigurationManagement.java:86-189 | Every stamp from the fragment's cfg id to one above the number separates the periods, whatever configurations follow |
| `Rejig.BackSince` | NVCacheCoordinator/src/main/java/edu/usc/dblab/nvcache/config/ConfigurationManagement.java:86-129 | A later configuration with the fragment on the same server has the same cfg id, or that of a comeback |
| `Rejig.StepKeeps` | IQ-Twemcached/src/mc_ascii.c:1394-1418 | Every protocol step keeps the invariant: server numbers are the published one or one more, no client is ahead, stamps agree with their commands |
| `Rejig.RunKeeps` | NVCacheCoordinator/src/main/java/edu/usc/dblab/nvcache/base/CacheStateSimulator.java:88-118 | The invariant holds after every run |
| `Rejig.PublishSafeExactlyWhen` | NVCacheCoordinator/src/main/java/edu/usc/dblab/nvcache/base/CacheStateSimulator.java:88-118 | After a publish with missed updates two servers can serve one fragment if and only if some fragment leaves a server that missed the update for one that took it |
| `Rejig.ClashFollowsExactlyWhen` | NVCacheCoordinator/src/main/java/edu/usc/dblab/nvcache/base/CacheStateSimulator.java:88-118 | From any reachable round, publishing with missed updates lets clients, without a further round, send two commands for one fragment that two servers accept, if and only if some fragment leaves a server that missed the update for one that took it |
| `Rejig.MissedUpdateTwoServers` | NVCacheCoordinator/src/main/java/edu/usc/dblab/nvcache/base/CacheStateSimulator.java:88-118 | For every chain whose second configuration moves a fragment: a run from the start in which only the new owner takes the update, the publish all the same, and two sent commands that two servers accept |
| `Rejig.QuietKeeps` | IQ-Twemcached/src/mc_ascii.c:304-316 | While the coordinator does nothing, numbers stay and commands carry published numbers, whatever the servers have missed |
| `Rejig.Simulator.Poll` | NVCacheCoordinator/src/main/java/edu/usc/dblab/nvcache/base/CacheStateSimulator.java:72-122 | One poll of the coordinator is a valid run of the protocol: no round if nothing is due, else one round that ends published; a due time past the last configuration takes the servers to a number under which they turn away every client |
| `Rejig.Simulator.PushAll` | NVCacheCoordinator/src/main/java/edu/usc/dblab/nvcache/base/CacheStateSimulator.java:93-115 | Every server is taken to the next number, each by a step of the round |
| `Rejig.Lower` | NVCacheCoordinator/src/main/java/edu/usc/dblab/nvcache/base/CacheStateSimulator.java:76-79 | The number of due times before now, so that the latest of them is the one taken |
| `Assignment.AssignBalanceLoad` | NVCacheCoordinator/src/main/java/edu/usc/dblab/nvcache/config/ConfigurationAssignment.java:18-87 | Fails if and only if there are fragments and all their servers are overloaded; otherwise every fragment keeps or gets one server, servers with at most an even share keep all theirs, and overloaded ones end with as many of their own fragments as make up no more than an even share of load, and no others |
| `Assignment.Move` | NVCacheCoordinator/src/main/java/edu/usc/dblab/nvcache/config/ConfigurationAssignment.java:34-72 | Unloading, refilling and handing round conserve fragments and take only from overloaded servers |
| `Assignment.Unload` | NVCacheCoordinator/src/main/java/edu/usc/dblab/nvcache/config/ConfigurationAssignment.java:34-53 | Overloaded servers keep the end of their list, of the planned length; the rest is set aside; the others are listed as not overloaded |
| `Assignment.Refill` | NVCacheCoordinator/src/main/java/edu/usc/dblab/nvcache/config/ConfigurationAssignment.java:55-63 | Only lists of servers that are not overloaded grow, and nothing is lost |
| `Assignment.TakeUp` | NVCacheCoordinator/src/main/java/edu/usc/dblab/nvcache/config/ConfigurationAssignment.java:57-62 | A server takes up fragments one by one while its load, with all it has taken, is below an even share, and stops as soon as it is not |
| `Assignment.RoundRobin` | NVCacheCoordinator/src/main/java/edu/usc/dblab/nvcache/config/ConfigurationAssignment.java:65-72 | Everything left is handed round, and what any two of the servers gain differs by at most one |
| `Assignment.Group` | NVCacheCoordinator/src/main/java/edu/usc/dblab/nvcache/config/ConfigurationAssignment.java:24-32 | Every fragment is listed once, for its server |
| `Assignment.Share` | NVCacheCoordinator/src/main/java/edu/usc/dblab/nvcache/config/ConfigurationAssignment.java:38-41 | The number an overloaded server keeps is the largest whose load is no more than an even share, and smaller than what it has |
| `Assignment.Assign` | NVCacheCoordinator/src/main/java/edu/usc/dblab/nvcache/config/ConfigurationAssignment.java:99-140 | No server gets more than the quota, fragments within it stay, none is invented, and every fragment is assigned if and only if the servers that already have fragments, times the quota, are enough |
| `Assignment.Deal` | NVCacheCoordinator/src/main/java/edu/usc/dblab/nvcache/config/ConfigurationAssignment.java:104-118 | Each server keeps its first fragments up to the quota; the rest are set aside |
| `Assignment.Spread` | NVCacheCoordinator/src/main/java/edu/usc/dblab/nvcache/config/ConfigurationAssignment.java:120-126 | Fragments set aside go to servers below quota; some are left only if all are full |
| `Assignment.Invert` | NVCacheCoordinator/src/main/java/edu/usc/dblab/nvcache/config/ConfigurationAssignment.java:127-132 | The final map holds every listed id with a server that lists it |
| `Assignment.Owned` | NVCacheCoordinator/src/main/java/edu/usc/dblab/nvcache/config/ConfigurationAssignment.java:127-139 | With distinct ids the final map holds exactly the ids not left over, each with the one server that lists it |
| `Assignment.AllAssigned` | NVCacheCoordinator/src/main/java/edu/usc/dblab/nvcache/config/ConfigurationAssignment.java:99-140 | Nothing is lost if and only if the quotas cover the fragments |
| `Assignment.NewServerLosesFragment` | NVCacheCoordinator/src/main/java/edu/usc/dblab/nvcache/config/ConfigurationAssignment.java:99-140 | Sharing two fragments of one server with a new server loses one of them |
| `Hash.MixUndone` | IQ-Twemcached/src/mc_hash.c:104-112 | The six rounds of mix can be undone |
| `Hash.MixInjective` | IQ-Twemcached/src/mc_hash.c:104-112 | mix is injective on triples of words |
| `Hash.FinalUndone` | IQ-Twemcached/src/mc_hash.c:139-148 | The seven lines of final can be undone: from all three words it leaves, those it was given |
| `Hash.AddBytesUp` | IQ-Twemcached/src/mc_hash.c:282-299 | Four single bytes add up to the word they spell |
| `Hash.AddBytes` | IQ-Twemcached/src/mc_hash.c:301-318 | The byte tail adds exactly the bytes that are left |
| `Hash.AddHalves` | IQ-Twemcached/src/mc_hash.c:231-276 | Half words, with their tail cases, add the same |
| `Hash.AddWord` | IQ-Twemcached/src/mc_hash.c:163-207 | A whole word read past the end and masked adds the same |
| `Hash.HashTail` | IQ-Twemcached/src/mc_hash.c:190-319 | The last one to twelve bytes are hashed the same on all three paths |
| `Hash.HashRest` | IQ-Twemcached/src/mc_hash.c:163-319 | The block loop computes the hash of the remaining bytes on all three paths |
| `Hash.HashBy` | IQ-Twemcached/src/mc_hash.c:151-323 | Word, half-word and byte reads return the same 32-bit value for every key and initval |
| `Hash.HashAt` | IQ-Twemcached/src/mc_hash.c:151-323 | The path chosen by alignment does not matter |
| `Hash.KnownValue` | IQ-Twemcached/src/mc_hash.c:151-323 | The hash of "Four score and seven years ago" is the value published with the function, which fixes every shift and constant |
| `Assoc.PickedDecides` | IQ-Twemcached/src/mc_assoc.c:149-166 | The bucket picked during an expansion holds a key's entry if and only if the key is in the map |
| `Assoc.IndexesOne` | IQ-Twemcached/src/mc_assoc.c:149-166 | Two tables with their cursor represent at most one map |
| `Assoc.InsertKeeps` | IQ-Twemcached/src/mc_assoc.c:263-278 | Insertion into the picked bucket represents the map with the entry |
| `Assoc.DeleteKeeps` | IQ-Twemcached/src/mc_assoc.c:280-305 | Deletion from the picked bucket represents the map without the key |
| `Assoc.ExpandKeeps` | IQ-Twemcached/src/mc_assoc.c:240-261 | Starting an expansion changes nothing that is represented |
| `Assoc.MigrateKeeps` | IQ-Twemcached/src/mc_assoc.c:75-91 | Moving one bucket changes nothing that is represented |
| `Assoc.MigratedDrained` | IQ-Twemcached/src/mc_assoc.c:75-91 | When the expansion ends, every bucket of the old table is empty |
| `Assoc.Scan` | IQ-Twemcached/src/mc_assoc.c:217-226 | The walk along a bucket finds the first entry with the key |
| `Assoc.Table.constructor` | IQ-Twemcached/src/mc_assoc.c:168-199 | An empty table of the asked or default size |
| `Assoc.Table.GetBucket` | IQ-Twemcached/src/mc_assoc.c:149-166 | Picks the old table exactly for keys not yet moved |
| `Assoc.Table.Find` | IQ-Twemcached/src/mc_assoc.c:207-227 | Lookup agrees with the map |
| `Assoc.Table.Expand` | IQ-Twemcached/src/mc_assoc.c:240-261 | A larger table, or no change when there is no memory |
| `Assoc.Table.Enlarge` | IQ-Twemcached/src/mc_assoc.c:240-261 | A table of twice the size represents the same map |
| `Assoc.Table.Link` | IQ-Twemcached/src/mc_assoc.c:263-278 | The entry at the head of its bucket represents the map with it |
| `Assoc.Table.Unlink` | IQ-Twemcached/src/mc_assoc.c:280-305 | The entry out of its bucket leaves the map without its key |
| `Assoc.Table.Insert` | IQ-Twemcached/src/mc_assoc.c:263-278 | Adds exactly the entry and counts it; starts an expansion, if it may and memory allows, exactly when there are then more than one and a half entries to a bucket, and leaves one under way alone |
| `Assoc.MaskedSplits` | IQ-Twemcached/src/mc_assoc.c:32-33 | In a table of twice the size a hash value is at the same place or one table size on, as its next bit says, and values below the size are their own place |
| `Assoc.Table.Delete` | IQ-Twemcached/src/mc_assoc.c:280-305 | Removes exactly the key and counts it |
| `Assoc.Table.DrainBucket` | IQ-Twemcached/src/mc_assoc.c:75-91 | One bucket is moved entry by entry and the cursor advances |
| `Assoc.Table.MoveEntry` | IQ-Twemcached/src/mc_assoc.c:75-91 | One entry goes from the head of the old bucket to the head of its new one |
| `Assoc.Table.MoveBucket` | IQ-Twemcached/src/mc_assoc.c:75-91 | The same with the map unchanged |
| `Assoc.Table.Maintain` | IQ-Twemcached/src/mc_assoc.c:75-91 | One move advances the expansion and ends it exactly with the last bucket |
| `Assoc.Table.MoveAllBuckets` | IQ-Twemcached/src/mc_assoc.c:61-102 | The maintenance thread alone ends the expansion after exactly the number of buckets left, with the old table empty |
| `Assoc.Table.Execute` | IQ-Twemcached/src/mc_assoc.c:207-305 | Any interleaving of find, insert, delete, expand and single-bucket moves answers as one map would, and the item count is its size; an expansion under way lasts for exactly as many moves as the old table has buckets left, whatever comes between, and leaves it empty |
| `Assoc.Table.ExecuteOne` | IQ-Twemcached/src/mc_assoc.c:61-305 | One operation or move does to map, reply and expansion what is specified |
| `Assoc.RanFirst` | IQ-Twemcached/src/mc_assoc.c:61-102 | Counting the moves of a run: fewer than the buckets left leave the expansion under way that much further on, as many end it |
| `Slabs.AlwaysConserved` | IQ-Twemcached/src/mc_slabs.c:366-442 | Over every run of get, put, evict and touch from an empty heap: in use, free queue and tail add up to all slots of each class, the slab queue is a permutation of the slab table, the slab count stays within its limit, and every step that can be taken refers to slabs and classes that exist |
| `Slabs.QueueIsByLastUse` | IQ-Twemcached/src/mc_slabs.c:565-594 | In every run from an empty heap the slab queue lists the slabs by the time they were last added, recycled or touched; so its first slab without references is the least recently used of all those |
| `Slabs.StepOrders` | IQ-Twemcached/src/mc_slabs.c:599-1021 | Every step keeps the queue in that order: new, recycled and touched slabs go to its tail |
| `Slabs.FirstFreeIsLeastUsed` | IQ-Twemcached/src/mc_slabs.c:576-583 | In such a queue the first slab without references is the least recently used one without |
| `Slabs.FreedIsNextTaken` | IQ-Twemcached/src/mc_slabs.c:920-946 | An item put back is the next one its class hands out, and then the heap is as before |
| `Slabs.StepKeeps` | IQ-Twemcached/src/mc_slabs.c:470-815 | Every step keeps the heap good: each slot in exactly one place, counters equal to queues |
| `Slabs.RunKeeps` | IQ-Twemcached/src/mc_slabs.c:470-815 | The heap stays good over every run, and classes keep their item counts |
| `Slabs.OnePlace` | IQ-Twemcached/src/mc_slabs.c:722-815 | Every slot of a class is in exactly one of in use, free queue and tail |
| `Slabs.Conserved` | IQ-Twemcached/src/mc_slabs.c:599-635 | The three add up to slabs times items per slab |
| `Slabs.QueueIsPermutation` | IQ-Twemcached/src/mc_slabs.c:381-391 | The slab queue holds each slab once |
| `Slabs.TakeFreeKeeps` | IQ-Twemcached/src/mc_slabs.c:722-758 | A slot from the free queue was not in use |
| `Slabs.TakeTailKeeps` | IQ-Twemcached/src/mc_slabs.c:781-815 | A slot from the tail was not in use |
| `Slabs.PutFreeKeeps` | IQ-Twemcached/src/mc_slabs.c:920-946 | A returned slot goes from in use to the free queue |
| `Slabs.AddNewKeeps` | IQ-Twemcached/src/mc_slabs.c:599-635 | A new slab becomes the class's tail and has no references |
| `Slabs.RecycledKeeps` | IQ-Twemcached/src/mc_slabs.c:470-525 | Evicting a slab and giving it to a class drops exactly that slab's slots from every queue and from use |
| `Slabs.TouchedKeeps` | IQ-Twemcached/src/mc_slabs.c:992-1021 | Moving a slab to the end of the queue keeps it a permutation; that it then counts as the last one used is `Slabs.StepOrders` |
| `Slabs.SlabHeap.constructor` | IQ-Twemcached/src/mc_slabs.c:205-301 | The empty heap, which is good |
| `Slabs.SlabHeap.FindLru` | IQ-Twemcached/src/mc_slabs.c:565-594 | Of the slabs without references the least recently used; none exactly when there is none among the first fifty of the queue |
| `Slabs.SlabHeap.FindRand` | IQ-Twemcached/src/mc_slabs.c:535-560 | The first random pick without references, not counting the last; none after all tries, or a crash exactly when there is no slab |
| `Slabs.SlabHeap.FindVictim` | IQ-Twemcached/src/mc_slabs.c:663-671 | If age is asked for and finds one, the least recently used slab without references; otherwise, if asked for, the first random pick without |
| `Slabs.SlabHeap.PurgeItems` | IQ-Twemcached/src/mc_slabs.c:488-517 | Every item of the slab leaves use or the free queue, and no other does |
| `Slabs.SlabHeap.EvictOne` | IQ-Twemcached/src/mc_slabs.c:470-525 | Eviction of one slab computes the specified heap |
| `Slabs.SlabHeap.Reuse` | IQ-Twemcached/src/mc_slabs.c:470-525 | Eviction of a slab that then goes to a class |
| `Slabs.SlabHeap.AddOne` | IQ-Twemcached/src/mc_slabs.c:599-635 | A slab joins a class as specified |
| `Slabs.SlabHeap.NewSlab` | IQ-Twemcached/src/mc_slabs.c:425-442 | A slab from memory joins the table and a class |
| `Slabs.SlabHeap.GetSlab` | IQ-Twemcached/src/mc_slabs.c:645-685 | Memory first; then, if age is asked for and finds one, the least recently used slab without references; then the first random pick without; it crashes exactly when random eviction is asked for before there is any slab |
| `Slabs.SlabHeap.GetItem` | IQ-Twemcached/src/mc_slabs.c:781-815 | A slot that was not in use, or whose slab was evicted first: the least recently used without references if age is asked for and finds one; none, or the same crash, otherwise |
| `Slabs.SlabHeap.TakeFromTail` | IQ-Twemcached/src/mc_slabs.c:803-814 | The next slot of the current slab |
| `Slabs.SlabHeap.TakeFromQueue` | IQ-Twemcached/src/mc_slabs.c:722-758 | The head of the free queue, which was not in use |
| `Slabs.SlabHeap.PutItem` | IQ-Twemcached/src/mc_slabs.c:920-946 | The slot joins the head of its class's free queue |
| `Slabs.SlabHeap.Touch` | IQ-Twemcached/src/mc_slabs.c:992-1021 | The slab becomes the most recently used one and goes to the end of the queue, at most once per interval |
| `Profile.Generate` | IQ-Twemcached/src/mc.c:1109-1148 | For every factor above 1: strictly ascending sizes from the chunk size, each the next after the one before, ids in range, ending at the slab size |
| `Profile.Fill` | IQ-Twemcached/src/mc.c:1125-1147 | The loop, for any way of stepping to a larger size |
| `Profile.NextSize` | IQ-Twemcached/src/mc.c:1133-1138 | The next size is larger, aligned, short of the factor times the size by less than one byte and beyond it by at most one alignment step |
| `Profile.NextSizeIsLeast` | IQ-Twemcached/src/mc.c:1133-1138 | No smaller aligned size is larger and short of the factor by less than one byte |
| `Profile.ClassesGrow` | IQ-Twemcached/src/mc.c:1125-1147 | From class to class, the last apart, sizes grow by the factor, short of it by less than one byte and beyond it by at most an alignment step |
| `Profile.IdsSuffice` | IQ-Twemcached/src/mc.c:1125-1147 | The last class, too, is no larger than the next size if and only if 253 steps take the chunk size to the slab size |
| `Profile.GrowsGeometrically` | IQ-Twemcached/src/mc.c:1125-1147 | With a = 1 / (factor - 1), the ids suffice whenever a + factor^253 (chunk - a) reaches the slab size |
| `Profile.WasteIsBounded` | IQ-Twemcached/src/mc_slabs.c:152-183 | With a generated profile whose ids suffice, the slot chosen for an item exceeds it by no more than the factor and one alignment step |
| `Profile.SlabId` | IQ-Twemcached/src/mc_slabs.c:152-183 | The binary search returns the smallest class that fits, and "invalid" exactly when none does |
| `Klog.FifoAlways` | IQ-Twemcached/src/mc_klog.c:252-447 | In every interleaving of worker and collector, with stale index reads and short writes, the output is a prefix of the accepted bytes and no unread byte is overwritten |
| `Klog.EqualIndicesMeanEmpty` | IQ-Twemcached/src/mc_klog.c:69-113 | Equal indices mean that everything accepted has been put out |
| `Klog.BytesInRange` | IQ-Twemcached/src/mc_klog.c:380-447 | In every interleaving the indices and every byte read or written are within the buffer |
| `Klog.DroppedOnlyForLackOfRoom` | IQ-Twemcached/src/mc_klog.c:406-417 | In every run an entry is dropped if and only if what was accepted and not taken, as last seen, leaves no room for the largest entry; every other entry is accepted |
| `Klog.StepKeeps` | IQ-Twemcached/src/mc_klog.c:252-447 | Every byte-sized step of either side keeps the ring invariant |
| `Klog.RunKeeps` | IQ-Twemcached/src/mc_klog.c:252-447 | The ring invariant holds after every run |
| `Klog.RemainIs` | IQ-Twemcached/src/mc_klog.c:69-113 | The space computed from the two indices is the true space |
| `Klog.FillDisturbsNothing` | IQ-Twemcached/src/mc_klog.c:380-447 | Writing an entry, its terminating NUL included, touches no unread byte |
| `Klog.FillKeeps` | IQ-Twemcached/src/mc_klog.c:380-447 | Filling in a byte keeps the invariant |
| `Klog.PublishKeeps` | IQ-Twemcached/src/mc_klog.c:440-446 | Advancing the write index makes exactly the filled bytes readable |
| `Klog.EmitKeeps` | IQ-Twemcached/src/mc_klog.c:252-317 | The byte put out is the next accepted one |
| `Klog.FirstFailureIsHarmless` | IQ-Twemcached/src/mc_klog.c:270-285 | A pass whose first write fails is a pass that stops before its first byte, so it is among the runs above |
| `Klog.SecondFailureRepeats` | IQ-Twemcached/src/mc_klog.c:289-304 | A failing second write, made once the part up to the end of the ring is out, puts bytes out twice: one pass later the output is longer than all that was accepted and no prefix of it |
| `Klog.SecondFailureExactlyWhen` | IQ-Twemcached/src/mc_klog.c:252-317 | A run from an empty ring reaches the second write if and only if the ring is larger than an entry, and then its failure makes the output no prefix of what was accepted |
| `Klog.SpinTo` | IQ-Twemcached/src/mc_klog.c:380-447 | Writing and draining a byte at a time takes an empty ring to any position |
| `Klog.WholeWrite` | IQ-Twemcached/src/mc_klog.c:380-447 | Alone, a worker with room adds exactly its entry |
| `Klog.WholeDrain` | IQ-Twemcached/src/mc_klog.c:252-317 | Alone, the collector puts out everything there is |
| `Klog.FailedPass` | IQ-Twemcached/src/mc_klog.c:252-317 | After any failure the next pass puts out everything from the old read position again |
| `Klog.PlaceIsRemainder` | IQ-Twemcached/src/mc_klog.c:440-446 | A byte's place in the ring is its number modulo the size |
| `Klog.Kbuf.constructor` | IQ-Twemcached/src/mc_klog.c:122-166 | An empty buffer of whole entries |
| `Klog.Kbuf.PutEntry` | IQ-Twemcached/src/mc_klog.c:419-438 | The entry lands behind the write index, wrapped if needed, and disturbs nothing beyond one entry |
| `Klog.Kbuf.Write` | IQ-Twemcached/src/mc_klog.c:380-447 | An entry is queued whole if and only if there is room for the largest entry; otherwise nothing changes |
| `Klog.Kbuf.Collect` | IQ-Twemcached/src/mc_klog.c:252-317 | One or two writes put out a prefix of the queue, all of it if both writes are complete |
| `Klog.Kbuf.Read` | IQ-Twemcached/src/mc_klog.c:252-317 | What is put out leaves the queue, and nothing else |
| `Replies.AddIovKeeps` | IQ-Twemcached/src/mc_connection.c:469-528 | Appending adds exactly the given bytes to the payload, whatever the splitting, and every message stays sendable: at most 1024 buffers, datagrams at most 1400 bytes with header |
| `Replies.HeaderIsOneBuffer` | IQ-Twemcached/src/mc_connection.c:535-571 | The header's own conn_add_iov call never splits and never opens another message |
| `Replies.OpenedHasRoom` | IQ-Twemcached/src/mc_connection.c:485-497 | A limited message has room after a full one is replaced, so the splitting loop makes progress |
| `Replies.AddMsghdrKeeps` | IQ-Twemcached/src/mc_connection.c:535-571 | A new message is sendable and adds no payload |
| `Replies.GatherHolds` | IQ-Twemcached/src/mc_connection.c:469-571 | A reply made of any pieces holds them in order |
| `Replies.GatherCloses` | IQ-Twemcached/src/mc_connection.c:469-528 | Every message of a reply but the last is full: 1024 buffers or, for datagrams and the first message of a stream, 1400 bytes |
| `Replies.CutOnlyWhereFull` | IQ-Twemcached/src/mc_connection.c:469-528 | A piece that fits is one buffer, and where a piece is cut the packet is full |
| `Replies.Header` | IQ-Twemcached/src/mc_connection.c:577-616 | Eight bytes from which request id, sequence number and count can be read back |
| `Replies.AdvanceDrops` | IQ-Twemcached/src/mc_core.c:381-398 | Dropping written buffers and trimming the next removes exactly the bytes written |
| `Replies.TransmitKeeps` | IQ-Twemcached/src/mc_core.c:363-430 | No call loses, repeats or reorders a byte; a successful one makes progress; completion means nothing is pending; a call that would block is told apart from one that failed |
| `Replies.CallsKeep` | IQ-Twemcached/src/mc_core.c:363-430 | The same over any run of calls |
| `Replies.StreamArrives` | IQ-Twemcached/src/mc_core.c:363-430 | For any pieces and any partial sends, at completion the bytes sent are the pieces in order |
| `Replies.DatagramsInStep` | IQ-Twemcached/src/mc_core.c:363-430 | On a datagram socket each call sends the next whole message |
| `Replies.CallInStep` | IQ-Twemcached/src/mc_core.c:363-430 | One call on a datagram socket sends the next whole message or nothing |
| `Replies.DatagramsArrive` | IQ-Twemcached/src/mc_connection.c:577-616 | At completion there is one packet per message, numbered, within 1400 bytes, and their shares make up the pieces in order |
| `Replies.ReplyArrives` | IQ-Twemcached/src/mc_core.c:363-430 | What a reply has come to when a call completes it, for both kinds of socket |
| `Connection.Conn.constructor` | IQ-Twemcached/src/mc_connection.c:235-241 | An empty reply |
| `Connection.Conn.Grow` | IQ-Twemcached/src/mc_connection.c:441-453 | Every message header points into the new array at the same buffers, and no message changes |
| `Connection.Repoint` | IQ-Twemcached/src/mc_connection.c:449-453 | Adding up the lengths lands each header where it was |
| `Connection.Conn.EnsureIovSpace` | IQ-Twemcached/src/mc_connection.c:433-457 | There is room for one more buffer and no message has changed |
| `Connection.Conn.Store` | IQ-Twemcached/src/mc_connection.c:499-525 | One more buffer at the end of the last message, others untouched |
| `Connection.Conn.Write` | IQ-Twemcached/src/mc_connection.c:515-521 | The buffer is stored at iov_used and counted in the last header |
| `Connection.Conn.AddMsghdr` | IQ-Twemcached/src/mc_connection.c:535-571 | Opens the specified message, with room for the header on a datagram socket |
| `Connection.Conn.Turn` | IQ-Twemcached/src/mc_connection.c:478-525 | One turn of the splitting loop, with the limit taken before a new message is opened |
| `Connection.Conn.AddIov` | IQ-Twemcached/src/mc_connection.c:469-528 | The loop ends and computes the specified messages |
| `Connection.Conn.BuildUdpHeaders` | IQ-Twemcached/src/mc_connection.c:577-616 | Every message gets its own header and keeps the rest |
| `Connection.DropWritten` | IQ-Twemcached/src/mc_core.c:381-389 | The loop over written buffers narrows the header to what is left |
| `Connection.Conn.Consume` | IQ-Twemcached/src/mc_core.c:378-399 | The current message loses the bytes written, in place, and no other changes |
| `Connection.Conn.Transmit` | IQ-Twemcached/src/mc_core.c:363-430 | Computes the specified outcome and pending messages |
| `Connection.Conn.Reply` | IQ-Twemcached/src/mc_core.c:701-753 | A whole reply, gathered, given headers and sent over the arrays: when it is reported complete, a stream socket has been given exactly the pieces in order, and a datagram socket numbered packets within 1400 bytes that make them up; building headers again leaves the array only for a reply of one datagram that fills it, and such a reply never completes |
| `Connection.Conn.GatherAll` | IQ-Twemcached/src/mc_ascii.c:4285-4295 | A first message header, then every piece appended |
| `Connection.Conn.Prepare` | IQ-Twemcached/src/mc_ascii.c:1545-1553 | The messages that go out, with headers on a datagram socket |
| `Connection.Conn.TransmitAll` | IQ-Twemcached/src/mc_core.c:701-753 | Turns until the reply is complete or a call fails for good; the calls made are a run of the specified calls |
| `Connection.Conn.Drive` | IQ-Twemcached/src/mc_core.c:701-753 | One turn: headers again while the first message is current, then one call |
| `Connection.Conn.Rebuild` | IQ-Twemcached/src/mc_core.c:702-707 | Building the headers again changes no message, also when the first one is finished; it runs past the array exactly when that was the only message and the array is full |
| `Connection.Conn.GatheredIsValid` | IQ-Twemcached/src/mc_connection.c:433-571 | Messages gathered end to end share no buffer, so the reply is ready to be sent in place |
| `Tokenizer.Tokenize` | IQ-Twemcached/src/mc_ascii.c:232-267 | The array holds the longest space-free words in order; it stops early only when full, just after a space, and then the end marker points there |
| `Tokenizer.WordsConcat` | IQ-Twemcached/src/mc_ascii.c:232-267 | The words of two stretches parted by a space are the words of the whole |
| `Tokenizer.WordsUnique` | IQ-Twemcached/src/mc_ascii.c:232-267 | The list of all longest words in order is unique, so cutting in pieces and in one go agree |
| `Tokenizer.VisitTokens` | IQ-Twemcached/src/mc_ascii.c:1456-1518 | The inner loop visits the words in the array, up to one that is too long |
| `Tokenizer.VisitKeys` | IQ-Twemcached/src/mc_ascii.c:1453-1530 | Filling the array again as often as needed visits every word of the line from the first key on, or stops at the first key that is too long |

## Left out

- The C/O lease family (`ciget`, `oq` commands, `validate`, `dcommit`, `counlease`): the same shape as I/Q leases.
- QuarantineAndRegister: a key with a refresh or incremental lease is excluded (`Registrable`), because the code would read that lease's payload both as a token and as a list of transactions.
- ShareLease: as QuarantineAndRegister.
- `delete` with lease removal, `sar`, and plain `set` inside the lease runs: they go around the lease discipline by design.
- AddKey: a destination that is the old list itself is excluded, because the code then copies between overlapping regions with memcpy, whose result is undefined.
- Key list merging and the other edits in place, for the same reason.
- Increments on right-aligned (prepended) items.
- Item reference counts and pinning above the slab layer, the split between normal and reserved heaps, item LRU queues, `flush_all`, and allocation failure in the item layer and while gathering replies.
- Wrap-around of the 64-bit lease token, of 32-bit item counts, and tables beyond the largest hash power.
- Hashing on big-endian machines.
- Commands with the wildcard configuration number -1, which no server rejects.
- The array of message headers in a connection is a list that grows; its own reallocation is not modelled, only that of the buffer array it points into.
- Replies are gathered before they are sent: appending to a reply that has partly gone out is not modelled, and the server does not do it.
- Errors other than a key that is too long inside the loops over many keys; positions of the other request tokens.
- Profiles given on the command line.
- Rounding of `double` in class sizes and loads.
- Sockets, events, signals, statistics, logging text, gRPC, the client library and workload generation.
- Assign: the result is stated for fragment lists with distinct ids, which every configuration has; with repeated ids the final map keeps one of them.
- AssignBalanceLoad: as Assign; how full the receiving servers become is not bounded, since the code does not bound it in the last loop (`TakeUp` and `RoundRobin` say how each loop shares out).
- Refill: does not repeat for each server what `TakeUp` states for one.
