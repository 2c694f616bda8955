/**
  The hooks that drive the connection manager from Rails: the write wrappers
  installed on ActiveRecord, the class-level connection and forcing helpers,
  and the around-filter that carries the sync id through the session.
*/
module Extensions {
  import opened Wrappers
  import opened ConnectionManager

  /** A piece of code run against the manager: a Ruby block, an action or a wrapped write. */
  type Block<T> = (Manager, Db) -> Step<T>

  /** The state after a request, with the sync id stored back into the session. */
  datatype Visit<+T> = Visit(m: Manager, db: Db, session: Option<nat>, value: T)

  /**
    `create_with_synchronization`, `update_with_synchronization`,
    `destroy_with_synchronization`, `update_all_with_synchronization` and
    `delete_all_with_synchronization`: run the underlying operation, then
    `synchronize` with its result. An operation that raises mints no id and
    its exception passes through unchanged.
  */
  function SynchronizeAfter<T>(m: Manager, db: Db, op: Block<Outcome<T>>): (r: Step<Outcome<T>>)
    ensures var o := op(m, db);
      && r.value == o.value
      && r.db.checks == o.db.checks && r.db.sleeps == o.db.sleeps
      && r.m.readConn == o.m.readConn && r.m.writeConn == o.m.writeConn
      && (o.value.Raised? ==> r == o)
      && (o.value.Returned? ==>
            && r.db.lastId == o.db.lastId + 1
            && r.m.syncId == Some(r.db.lastId)
            && r.m.current == Some(o.m.writeConn))
  {
    var o := op(m, db);
    if o.value.Raised? then o else Synchronize(o.m, o.db, o.value)
  }

  /**
    `transaction_with_synchronization` as evidently intended: mint a fresh id
    on the master first, then run the transaction block and return whatever
    it returns; the id exists even when the block fails.
  */
  function TransactionWithSynchronization<T>(m: Manager, db: Db, tx: Block<T>): (r: Step<T>)
    ensures r == tx(m.(current := Some(m.writeConn), syncId := Some(db.lastId + 1)), db.(lastId := db.lastId + 1))
  {
    var s := Synchronize(m, db, ());
    tx(s.m, s.db)
  }

  /**
    `transaction_with_synchronization` as written: it mints the id, then
    calls the original `transaction` with the same arguments but without the
    caller's block, so the block never runs. `bare` is what the original
    `transaction` does when it is given no block.
  */
  function TransactionAsWritten<T>(m: Manager, db: Db, block: Block<T>, bare: Block<T>): (r: Step<T>)
    ensures r == bare(m.(current := Some(m.writeConn), syncId := Some(db.lastId + 1)), db.(lastId := db.lastId + 1))
  {
    var s := Synchronize(m, db, ());
    bare(s.m, s.db)
  }

  /** `connection_with_synchronization`: every model class reads through the manager's `connection`. */
  function ConnectionWithSynchronization(m: Manager, db: Db, slave: Slave, tries: nat): (r: Step<Handle>)
    ensures r == Connection(m, db, slave, tries)
  {
    Connection(m, db, slave, tries)
  }

  /** `with_slave_connection`: the manager's `force_slave_connection`. */
  function WithSlaveConnection<T>(m: Manager, db: Db, block: Block<T>): (r: Step<T>)
    ensures r == ForceSlave(m, db, block)
  {
    ForceSlave(m, db, block)
  }

  /** `with_master_connection`: the manager's `force_master_connection`. */
  function WithMasterConnection<T>(m: Manager, db: Db, block: Block<T>): (r: Step<T>)
    ensures r == ForceMaster(m, db, block)
  {
    ForceMaster(m, db, block)
  }

  /**
    The `synchronize_session` around-filter: load the session's sync id into
    the manager, run the action, and on every exit store the manager's final
    sync id back into the session and reset the manager. The action's result
    (or exception) passes through.
  */
  function SynchronizeSession<T>(m: Manager, db: Db, session: Option<nat>, action: Block<T>): (r: Visit<T>)
    ensures var a := action(m.(syncId := session), db);
      && r.session == a.m.syncId
      && r.value == a.value && r.db == a.db
      && r.m.syncId.None? && r.m.current.None?
      && r.m.readConn == a.m.readConn && r.m.writeConn == a.m.writeConn
  {
    var a := action(m.(syncId := session), db);
    Visit(Reset(a.m), a.db, a.m.syncId, a.value)
  }
}
