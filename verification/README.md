# Master/slave connection routing, modelled in Dafny

This project models the request routing state machine of the Rails plugin
`master_slave_replication`. The plugin sends writes to the master database
and reads to a slave database. It keeps read-your-writes consistency by
minting a *sync id* on every write: the id of a fresh row in the master's
`replication_check` table. It also keeps that id in the user's session until
a read finds the row on the slave.

- `wrappers.dfy`: `Option`, for Ruby's `nil`.
- `connection_manager.dfy` (module `ConnectionManager`): `MasterSlaveConnectionManager`.
  The manager state is an immutable record: the pending `syncId`, the cached connection `current`, and the two handles `readConn` and `writeConn`.
  The database side is the record `Db`. It holds the master's auto-increment counter (`lastId`) and counts of slave checks and sleeps made.
  The slave is an oracle `slave(k, id)`: does check number `k` find row `id`?
  `Retrieve` (recursive) and `RetrieveConnection` (the loop) model the bounded polling.
  Ruby blocks are functions `(Manager, Db) -> Step<T>`. An exception is the `Raised` case of `Outcome`.
- `rails_extensions.dfy` (module `Extensions`): the ActiveRecord write wrappers, `connection_with_synchronization`, `with_slave_connection`, `with_master_connection` and the `synchronize_session` around-filter.
- `requests.dfy` (module `Requests`): a controller action as a program of commands: read, write, transaction, forced blocks, raise.
  `Exec` runs a program through the hooks above; writes resolve `connection` as ActiveRecord does, and transactions use the corrected wrapper (see Findings). `Serve` runs a program inside the filter. The lemmas there state what one request does to the session's sync id.

Behaviour of the code that the model keeps as written:

- Falling back to the master lasts for the rest of the request. `@connection ||= …` caches the master, so later reads in that request do not poll again (`FallbackSticksForRequest`).
- The manager is one process-wide object (`Singleton`), not one per request. The model runs one request at a time.
- A failing slave lookup raises. The model's slave always answers.
- Forcing a connection just overwrites the cache for the block; there is no separate pin.
- Every write dispatch point is wrapped: create, update, destroy, `update_all`, `delete_all` and `transaction`.
- Writes take their connection from `connection` too, because `connection` is aliased for every model class. A write issued before anything is cached in a request without a pending id goes to the read connection (`FirstWriteGoesToReadConnection`). A write that reaches the database first resolves `connection`, which may poll the slave and clear the pending id even if the write then raises (`FailedWriteMayClearSession`).

## Model

| member | source | states |
|---|---|---|
| ConnectionManager.Initialize | lib/master_slave_connection_manager.rb:33-48 | the write handle is the master; the read handle is distinct from it exactly when a slave is configured, otherwise it falls back to the same handle; nothing is cached or pending |
| ConnectionManager.Reset | lib/master_slave_connection_manager.rb:51-54 | after `reset` neither a connection nor a sync id is held; the handles are kept |
| ConnectionManager.Synchronize | lib/master_slave_connection_manager.rb:58-62 | the master becomes the cached connection, the pending id is a freshly inserted id newer than all earlier ones, and the result passes through unchanged |
| ConnectionManager.Synchronized | lib/master_slave_connection_manager.rb:70-74 | with no pending id the answer is true and the slave is not asked; otherwise exactly one slave check for that id decides |
| ConnectionManager.Retrieve | lib/master_slave_connection_manager.rb:76-89 | the outcome is either the slave with the id cleared or the master with the state untouched; at most `tries` checks; no more sleeps than checks; with 0 tries the master immediately, without a check |
| ConnectionManager.RetrieveConnection | lib/master_slave_connection_manager.rb:76-89 | the `times` loop with early return computes the same outcome, checks and sleeps as the recursive definition |
| ConnectionManager.Connection | lib/master_slave_connection_manager.rb:65-67 | the result is cached; a cached connection is returned with no state change; no cache and no pending id gives the slave without a check; the pending id is only ever kept or cleared |
| ConnectionManager.DefaultRetriesBoundWait | lib/master_slave_connection_manager.rb:21-24 | with the default of 3 retries, one `connection` makes at most three slave checks and three sleeps |
| ConnectionManager.ForceSlave | lib/master_slave_connection_manager.rb:95-103 | the block runs with the slave cached; on every exit the previous cache (possibly none) is restored, while the block's sync id, database effects and result are kept |
| ConnectionManager.ForceMaster | lib/master_slave_connection_manager.rb:106-114 | the same for the master |
| ConnectionManager.RetrieveFirstHit | lib/master_slave_connection_manager.rb:76-87 | if check k is the first to find the id, polling stops there with one sleep per failed check, clears the id and returns the slave |
| ConnectionManager.RetrieveAllMiss | lib/master_slave_connection_manager.rb:77-88 | if no check finds the id: exactly `tries` checks and `tries` sleeps, the id is kept, and the master is returned |
| ConnectionManager.RetrieveSlaveOnlyIfSeen | lib/master_slave_connection_manager.rb:76-89 | with a real slave, polling hands out the slave only if some check found the pending id there |
| ConnectionManager.RetrieveWithoutSyncId | lib/master_slave_connection_manager.rb:70-83 | with no pending id and at least one try, polling returns the slave without any check |
| ConnectionManager.NoSlaveCheckFindsMintedId | lib/master_slave_connection_manager.rb:70-83 | without a slave, `synchronized?` asks the master, which holds every inserted id: one check finds the pending id, clears it and returns the read connection |
| ConnectionManager.ConnectionIdempotent | lib/master_slave_connection_manager.rb:65-67 | a second `connection` in the same request returns the same handle and changes nothing |
| ConnectionManager.ConnectionConfirmsOnSlave | lib/master_slave_connection_manager.rb:65-83 | the first read with a pending id that the slave confirms at check k caches the slave and clears the id |
| ConnectionManager.FallbackSticksForRequest | lib/master_slave_connection_manager.rb:65-88 | after a fallback the master stays cached, and later reads in the request neither poll nor change anything |
| ConnectionManager.NoSlaveConnectionIsMaster | lib/master_slave_connection_manager.rb:43-46 | without a slave every `connection` is the master |
| ConnectionManager.ForcedSlaveReadLeavesNoTrace | lib/master_slave_connection_manager.rb:95-103 | a read forced onto the slave uses the slave and leaves manager and database exactly as they were |
| ConnectionManager.ForcedMasterReadLeavesNoTrace | lib/master_slave_connection_manager.rb:106-114 | a read forced onto the master uses the master and leaves manager and database exactly as they were |
| ConnectionManager.WriteInsideForceKeepsSyncId | lib/master_slave_connection_manager.rb:95-114 | a write inside either forcing block keeps its new sync id after the block, while the outer cache comes back |
| ConnectionManager.NestedForceRestoresOuter | lib/master_slave_connection_manager.rb:95-114 | a master block nested in a slave block sees the master, and on exit the outermost cache is restored exactly |
| Extensions.SynchronizeAfter | lib/rails_extensions_for_master_slave_replication.rb:19-29 | the wrapped operation's result or exception passes through; an id is minted and the master cached only after it succeeded; a raising operation mints nothing |
| Extensions.TransactionWithSynchronization | lib/rails_extensions_for_master_slave_replication.rb:48-51 | the corrected wrapper (see Findings): the transaction block runs on a state where the master is cached and a fresh id is already minted, and its result is returned |
| Extensions.TransactionAsWritten | lib/rails_extensions_for_master_slave_replication.rb:48-51 | the wrapper as written: the id is minted and the cached connection set to the master, then the original `transaction` runs without the caller's block |
| Extensions.ConnectionWithSynchronization | lib/rails_extensions_for_master_slave_replication.rb:36-38 | a model class's connection is exactly the manager's `connection` |
| Extensions.WithSlaveConnection | lib/rails_extensions_for_master_slave_replication.rb:53-55 | is the manager's `force_slave_connection` |
| Extensions.WithMasterConnection | lib/rails_extensions_for_master_slave_replication.rb:57-59 | is the manager's `force_master_connection` |
| Extensions.SynchronizeSession | lib/rails_extensions_for_master_slave_replication.rb:76-88 | the action starts with the session's sync id; the session receives the manager's final sync id; the manager ends reset; the action's result passes through |
| Requests.Exec | lib/rails_extensions_for_master_slave_replication.rb:19-59 | running an action keeps the handles and only advances the database counters; the pending id afterwards is the old one, none, or one minted during the run; without a slave every read and every write goes to the master |
| Requests.ExecOne | lib/rails_extensions_for_master_slave_replication.rb:19-59 | the same for one command; a write resolves `connection` when it issues SQL and records the handle it used |
| Requests.UnderlyingWrite | lib/rails_extensions_for_master_slave_replication.rb:36-38 | an ActiveRecord write that issues SQL first resolves the manager's `connection` and caches it; a write without SQL touches nothing; the result passes through |
| Requests.NoWritesKeepToken | lib/master_slave_connection_manager.rb:65-89 | an action without writes mints nothing and at most clears the pending id |
| Requests.NoWritesKeepTokenOne | lib/master_slave_connection_manager.rb:65-89 | the same for one command |
| Requests.QuietLeavesStateAlone | lib/rails_extensions_for_master_slave_replication.rb:81-85 | an action that neither reads nor writes leaves manager and database unchanged |
| Requests.QuietLeavesStateAloneOne | lib/rails_extensions_for_master_slave_replication.rb:81-85 | the same for one command |
| Requests.CachedReadsChangeNothing | lib/master_slave_connection_manager.rb:65-67 | once a connection is cached, an action without writes changes nothing, so there are no checks and the sync id is untouched |
| Requests.CachedReadsChangeNothingOne | lib/master_slave_connection_manager.rb:65-67 | the same for one command |
| Requests.CachedRunKeepsPendingId | lib/master_slave_connection_manager.rb:58-67 | with a connection cached and an id pending, any action keeps a connection cached and an id pending, never older than before and never newer than the last id minted |
| Requests.CachedRunKeepsPendingIdOne | lib/master_slave_connection_manager.rb:58-67 | the same for one command |
| Requests.TransactionAlwaysMints | lib/rails_extensions_for_master_slave_replication.rb:48-51 | after any transaction, successful or raising, an id newer than every earlier one is pending |
| Requests.AsWrittenTransactionLosesBody | lib/rails_extensions_for_master_slave_replication.rb:48-51 | as written, the transaction block is dropped: the result equals that of an empty block; a block that reads and writes once reads nothing and mints one id, where the corrected wrapper reads once and mints two |
| Requests.ReadAfterWriteOnMaster | lib/master_slave_connection_manager.rb:58-66 | after any prefix and a successful write, every later read and write of the request outside `with_slave_connection` goes to the master, and the earlier reads are unchanged |
| Requests.MasterCachedServesMaster | lib/master_slave_connection_manager.rb:58-67 | with the master cached, an action without `with_slave_connection` keeps the master cached and sends every read and write to it |
| Requests.MasterCachedServesMasterOne | lib/master_slave_connection_manager.rb:58-67 | the same for one command |
| Requests.FirstWriteGoesToReadConnection | lib/rails_extensions_for_master_slave_replication.rb:36-38 | as written, a write issued before anything is cached in a request without a pending id is sent to the read connection |
| Requests.NoSlaveReadsOnMaster | lib/master_slave_connection_manager.rb:43-46 | without a slave every read and every write of every action goes to the master |
| Requests.QuietRequestKeepsSession | lib/rails_extensions_for_master_slave_replication.rb:81-86 | a request that never reads or writes stores the session's sync id back unchanged |
| Requests.ReadOnlyRequestAddsNoToken | lib/rails_extensions_for_master_slave_replication.rb:81-86 | a request without writes stores back either the old id or nil |
| Requests.ConfirmingFirstReadClearsSession | lib/rails_extensions_for_master_slave_replication.rb:81-86 | a request whose first read finds the session's id on the slave is served by the slave and stores nil back |
| Requests.FallbackKeepsSession | lib/rails_extensions_for_master_slave_replication.rb:70-75 | a request whose first read never finds the id is served by the master and stores the same id back |
| Requests.NextRequestReadIsFresh | lib/master_slave_connection_manager.rb:76-89 | read-your-writes across requests: the first read goes to a real slave only if a check found the session's id there |
| Requests.WriteRequestHandsIdOn | lib/rails_extensions_for_master_slave_replication.rb:76-87 | a request that writes successfully and then only reads hands the fresh id to the session |
| Requests.FailedWriteMintsNothing | lib/rails_extensions_for_master_slave_replication.rb:19-29 | a write that raises mints no id and its exception passes through; the session keeps its id or gets nil; a write that raises before any SQL leaves session and database unchanged |
| Requests.FailedWriteMayClearSession | lib/rails_extensions_for_master_slave_replication.rb:19-29 | as written, a write that raises at the database after its `connection` lookup confirmed the pending id leaves the session with nil after one check |
| Requests.RequestEndsReset | lib/rails_extensions_for_master_slave_replication.rb:86-87 | every request, raising or not, ends with the manager reset and its handles kept |
| Requests.NoSlaveRequestsUseMaster | lib/master_slave_connection_manager.rb:43-46 | on a manager started without a slave, every read and write of every request goes to the master |

`update_all_with_synchronization` and `delete_all_with_synchronization`
(lib/rails_extensions_for_master_slave_replication.rb:40-46) have the same
shape as the instance wrappers. Their arguments are captured by the wrapped
operation, so `Extensions.SynchronizeAfter` models all five wrappers.

## Findings

| source | as written | input that shows it | evidently intended | confidence | as-written member | corrected member |
|---|---|---|---|---|---|---|
| lib/rails_extensions_for_master_slave_replication.rb:48-51 | `transaction_with_synchronization(*args)` mints an id, then calls `transaction_without_synchronization(*args)` without passing on the caller's block, so the block never runs | `Model.transaction { Model.find(1); record.save }`, i.e. a transaction whose block reads once and writes once | the block runs inside the original transaction, after the id is minted | high that the block is not passed on, since Ruby passes a block only explicitly or through a bare `super`; what Rails' `transaction` then does without a block is not part of this model; not executed | Requests.AsWrittenTransactionLosesBody | Extensions.TransactionWithSynchronization |

`Extensions.TransactionAsWritten` is the wrapper as written. The rest of the
model (`Requests.ExecOne`, `Requests.TransactionAlwaysMints`) uses the
corrected wrapper, which runs the block.

## Left out

- `delete_old_sync_ids` (the cleanup of old rows) is raw SQL with no routing logic. It also filters on `updated_at`, but the migration template creates only `created_at`.
- `synchronization_interval` and `sleep`: time is not modelled. The model counts sleeps instead.
- `synchronization_cleanup_interval` is used only by the cleanup above.
- A failing `INSERT` inside `synchronize` and a failing slave `SELECT` inside `synchronized?` are database I/O errors. The model's insert always returns the next id and its slave always answers.
- `initialize`: `establish_connection` and the `AdapterNotSpecified` rescue become the boolean `slaveConfigured`. The logger warning is left out.
- The `Master` and `Slave` ActiveRecord classes, SQL text, `alias_method_chain` and `prepend_around_filter` registration, and `Singleton` are left out. So are init.rb and the generator and migration templates.
- Concurrency: the manager is a process-wide singleton, and the model runs one request at a time.
- The attribute writers for `read_connection` and `write_connection` are never used by the plugin. The handles are fixed after `initialize`.
- Transaction rollback is database behaviour. A failing transaction body is modelled only as the exception it raises.
- ConnectionManager.Synchronized: the slave's answers are an arbitrary oracle, even when no slave is configured and the read connection is the master. `ConnectionManager.NoSlaveCheckFindsMintedId` shows the outcome for the oracle that answers like the master's own table.
- Rails' own `transaction` called without a block (the as-written case of the Findings row) is a parameter of `Extensions.TransactionAsWritten`, because that Rails code is not part of this model.
