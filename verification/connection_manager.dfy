/**
  The per-request routing state machine of `MasterSlaveConnectionManager`.

  The manager holds the id of the last write not yet confirmed on the slave
  (`sync_id`), the connection cached for the current request (`@connection`)
  and two fixed handles, the read (slave) and write (master) connections.
  Every operation is a pure transition on that state together with the
  database counters it touches: the master's auto-increment counter of the
  `replication_check` table, and the number of slave checks and sleeps made.
  The slave is an oracle answering the k-th check for an id.
*/
module ConnectionManager {
  import opened Wrappers

  /** The two database connections the manager can hand out. */
  datatype Handle = MasterConn | SlaveConn

  /** Default of the class setting `synchronization_retries`. */
  const DefaultRetries: nat := 3

  /** The manager's instance state. */
  datatype Manager = Manager(
    syncId: Option<nat>,      // last write not yet seen on the slave
    current: Option<Handle>,  // connection cached for this request
    readConn: Handle,         // the slave, or the master when no slave is configured
    writeConn: Handle)        // the master

  /**
    The database as the manager sees it: the last id the master's
    `replication_check` table handed out, and how many slave checks and
    sleeps have been made so far.
  */
  datatype Db = Db(lastId: nat, checks: nat, sleeps: nat)

  /** `slave(k, id)`: whether the k-th check finds row `id` on the slave. */
  type Slave = (nat, nat) -> bool

  /** How a block or a wrapped operation ends: a value, or a raised exception. */
  datatype Outcome<+T> = Returned(value: T) | Raised(error: string)

  /** The state after an operation, with the value it returns. */
  datatype Step<+T> = Step(m: Manager, db: Db, value: T)

  /** The handles are as `initialize` sets them and the cache holds one of them. */
  predicate Valid(m: Manager)
  {
    && m.writeConn == MasterConn
    && (m.current.Some? ==> m.current.value == m.readConn || m.current.value == m.writeConn)
  }

  /**
    `initialize`: the write connection is the master; the read connection is
    the slave, or the master itself when no slave database is configured.
  */
  function Initialize(slaveConfigured: bool): (m: Manager)
    ensures Valid(m)
    ensures m.syncId.None? && m.current.None?
    ensures slaveConfigured <==> m.readConn != m.writeConn
  {
    Manager(None, None, if slaveConfigured then SlaveConn else MasterConn, MasterConn)
  }

  /** `reset`: forget the cached connection and the pending sync id. */
  function Reset(m: Manager): (r: Manager)
    ensures r.syncId.None? && r.current.None?
    ensures r.readConn == m.readConn && r.writeConn == m.writeConn
    ensures Valid(m) ==> Valid(r)
  {
    m.(current := None, syncId := None)
  }

  /**
    `synchronize(result)`: switch to the master, insert a fresh row into the
    replication check table, remember its id and pass `result` through.
  */
  function Synchronize<T>(m: Manager, db: Db, result: T): (r: Step<T>)
    ensures r.value == result
    ensures r.m.current == Some(m.writeConn)
    ensures r.db.lastId > db.lastId && r.m.syncId == Some(r.db.lastId)
    ensures r.db.checks == db.checks && r.db.sleeps == db.sleeps
    ensures r.m.readConn == m.readConn && r.m.writeConn == m.writeConn
    ensures Valid(m) ==> Valid(r.m)
  {
    var id := db.lastId + 1;
    Step(m.(current := Some(m.writeConn), syncId := Some(id)), db.(lastId := id), result)
  }

  /**
    `synchronized?`: true without asking the slave when no sync id is pending;
    otherwise one check of the slave for that id.
  */
  function Synchronized(m: Manager, db: Db, slave: Slave): (r: Step<bool>)
    ensures r.m == m && r.db.lastId == db.lastId && r.db.sleeps == db.sleeps
    ensures m.syncId.None? ==> r.value && r.db == db
    ensures m.syncId.Some? ==>
      r.db.checks == db.checks + 1 && r.value == slave(db.checks, m.syncId.value)
  {
    match m.syncId
    case None => Step(m, db, true)
    case Some(id) => Step(m, db.(checks := db.checks + 1), slave(db.checks, id))
  }

  /**
    `retrieve_connection` with `tries` checks left: on the first successful
    check clear the sync id and use the slave; after a failed check sleep and
    try again; when no tries are left fall back to the master.
  */
  function Retrieve(m: Manager, db: Db, slave: Slave, tries: nat): (r: Step<Handle>)
    ensures (r.value == m.readConn && r.m == m.(syncId := None))
         || (r.value == m.writeConn && r.m == m)
    ensures r.db.lastId == db.lastId
    ensures db.checks <= r.db.checks <= db.checks + tries
    ensures db.sleeps <= r.db.sleeps
    ensures r.db.sleeps - db.sleeps <= r.db.checks - db.checks
    ensures tries == 0 ==> r == Step(m, db, m.writeConn)
    decreases tries
  {
    if tries == 0 then Step(m, db, m.writeConn)
    else
      var c := Synchronized(m, db, slave);
      if c.value then Step(m.(syncId := None), c.db, m.readConn)
      else Retrieve(m, c.db.(sleeps := c.db.sleeps + 1), slave, tries - 1)
  }

  /** The retry loop of `retrieve_connection`, written as the loop it is. */
  method RetrieveConnection(m: Manager, db: Db, slave: Slave, tries: nat) returns (r: Step<Handle>)
    ensures r == Retrieve(m, db, slave, tries)
  {
    var d := db;
    var i := 0;
    while i < tries
      invariant 0 <= i <= tries
      invariant Retrieve(m, d, slave, tries - i) == Retrieve(m, db, slave, tries)
    {
      var c := Synchronized(m, d, slave);
      if c.value {
        return Step(m.(syncId := None), c.db, m.readConn);
      }
      d := c.db.(sleeps := c.db.sleeps + 1);
      i := i + 1;
    }
    r := Step(m, d, m.writeConn);
  }

  /**
    `connection`: the cached connection if there is one; otherwise the slave
    when no sync id is pending, or the result of `retrieve_connection`; the
    result is cached for the rest of the request.
  */
  function Connection(m: Manager, db: Db, slave: Slave, tries: nat): (r: Step<Handle>)
    ensures r.m.current == Some(r.value)
    ensures r.m.readConn == m.readConn && r.m.writeConn == m.writeConn
    ensures r.m.syncId == m.syncId || r.m.syncId.None?
    ensures r.db.lastId == db.lastId && r.db.checks <= db.checks + tries
    ensures r.db.sleeps <= db.sleeps + tries
    ensures m.current.Some? ==> r == Step(m, db, m.current.value)
    ensures m.current.None? && m.syncId.None? ==> r.value == m.readConn && r.db == db
    ensures Valid(m) ==> Valid(r.m)
  {
    match m.current
    case Some(h) => Step(m, db, h)
    case None =>
      var s := if m.syncId.Some? then Retrieve(m, db, slave, tries) else Step(m, db, m.readConn);
      Step(s.m.(current := Some(s.value)), s.db, s.value)
  }

  /**
    `force_slave_connection`: run the block with the read connection cached,
    then restore the previous cache, whatever way the block ends.
  */
  function ForceSlave<T>(m: Manager, db: Db, block: (Manager, Db) -> Step<T>): (r: Step<T>)
    ensures r.m.current == m.current
    ensures var b := block(m.(current := Some(m.readConn)), db);
      r.value == b.value && r.db == b.db && r.m.syncId == b.m.syncId
      && r.m.readConn == b.m.readConn && r.m.writeConn == b.m.writeConn
  {
    var b := block(m.(current := Some(m.readConn)), db);
    Step(b.m.(current := m.current), b.db, b.value)
  }

  /**
    `force_master_connection`: run the block with the write connection cached,
    then restore the previous cache, whatever way the block ends.
  */
  function ForceMaster<T>(m: Manager, db: Db, block: (Manager, Db) -> Step<T>): (r: Step<T>)
    ensures r.m.current == m.current
    ensures var b := block(m.(current := Some(m.writeConn)), db);
      r.value == b.value && r.db == b.db && r.m.syncId == b.m.syncId
      && r.m.readConn == b.m.readConn && r.m.writeConn == b.m.writeConn
  {
    var b := block(m.(current := Some(m.writeConn)), db);
    Step(b.m.(current := m.current), b.db, b.value)
  }

  // ----- Properties of the retry loop -----

  /** Whether the slave's answer to check number `k` for row `id` is yes. */
  predicate Sees(slave: Slave, k: nat, id: nat)
  {
    slave(k, id)
  }

  /**
    If check number k is the first to find the pending id on the slave, the
    loop stops there: the checks up to k are made, one sleep follows each
    failed check, the id is cleared and the slave is used.
  */
  lemma {:induction false} RetrieveFirstHit(m: Manager, db: Db, slave: Slave, tries: nat, id: nat, k: nat)
    requires m.syncId == Some(id) && db.checks <= k < db.checks + tries
    requires Sees(slave, k, id)
    requires forall j :: db.checks <= j < k ==> !Sees(slave, j, id)
    ensures Retrieve(m, db, slave, tries)
         == Step(m.(syncId := None), db.(checks := k + 1, sleeps := db.sleeps + (k - db.checks)), m.readConn)
    decreases k - db.checks
  {
    if k > db.checks {
      assert !Sees(slave, db.checks, id);
      RetrieveFirstHit(m, db.(checks := db.checks + 1, sleeps := db.sleeps + 1), slave, tries - 1, id, k);
    }
  }

  /**
    If no check finds the pending id, the loop makes `tries` checks and
    `tries` sleeps, keeps the id and falls back to the master.
  */
  lemma {:induction false} RetrieveAllMiss(m: Manager, db: Db, slave: Slave, tries: nat, id: nat)
    requires m.syncId == Some(id)
    requires forall j :: db.checks <= j < db.checks + tries ==> !Sees(slave, j, id)
    ensures Retrieve(m, db, slave, tries)
         == Step(m, db.(checks := db.checks + tries, sleeps := db.sleeps + tries), m.writeConn)
    decreases tries
  {
    if tries > 0 {
      assert !Sees(slave, db.checks, id);
      RetrieveAllMiss(m, db.(checks := db.checks + 1, sleeps := db.sleeps + 1), slave, tries - 1, id);
    }
  }

  /**
    Read-your-writes for one lookup: with a real slave, the loop hands out the
    slave only if one of its checks found the pending id there.
  */
  lemma RetrieveSlaveOnlyIfSeen(m: Manager, db: Db, slave: Slave, tries: nat, id: nat)
    requires m.syncId == Some(id) && m.readConn != m.writeConn
    requires Retrieve(m, db, slave, tries).value == m.readConn
    ensures exists j :: db.checks <= j < db.checks + tries && Sees(slave, j, id)
  {
    if forall j :: db.checks <= j < db.checks + tries ==> !Sees(slave, j, id) {
      RetrieveAllMiss(m, db, slave, tries, id);
    }
  }

  /** Without a pending id and with at least one try, the loop uses the slave without a check. */
  lemma RetrieveWithoutSyncId(m: Manager, db: Db, slave: Slave, tries: nat)
    requires m.syncId.None? && tries > 0
    ensures Retrieve(m, db, slave, tries) == Step(m, db, m.readConn)
  {
  }

  /**
    Without a slave, `synchronized?` asks the master itself, which holds every
    id inserted so far: the first check finds the pending id, clears it and
    the (master) read connection is used.
  */
  lemma NoSlaveCheckFindsMintedId(m: Manager, db: Db, tries: nat, id: nat)
    requires m.readConn == m.writeConn && m.syncId == Some(id) && id <= db.lastId && tries > 0
    ensures Retrieve(m, db, (k: nat, i: nat) => i <= db.lastId, tries)
         == Step(m.(syncId := None), db.(checks := db.checks + 1), m.readConn)
  {
  }

  // ----- Properties of the connection cache -----

  /** With the default setting, a read waits for at most three checks and three sleeps. */
  lemma DefaultRetriesBoundWait(m: Manager, db: Db, slave: Slave)
    ensures var r := Connection(m, db, slave, DefaultRetries);
      r.db.checks <= db.checks + 3 && r.db.sleeps <= db.sleeps + 3
  {
  }

  /**
    Once `connection` has resolved, asking again returns the same handle and
    changes nothing: no check, no sleep, the sync id kept.
  */
  lemma ConnectionIdempotent(m: Manager, db: Db, slave: Slave, tries: nat)
    ensures var r1 := Connection(m, db, slave, tries);
      Connection(r1.m, r1.db, slave, tries) == r1
  {
  }

  /**
    The first read of a request that has a pending id, where check number k is
    the first to find it on the slave: the slave is used and cached, and the
    id is cleared.
  */
  lemma ConnectionConfirmsOnSlave(m: Manager, db: Db, slave: Slave, tries: nat, id: nat, k: nat)
    requires m.current.None? && m.syncId == Some(id) && db.checks <= k < db.checks + tries
    requires Sees(slave, k, id)
    requires forall j :: db.checks <= j < k ==> !Sees(slave, j, id)
    ensures Connection(m, db, slave, tries)
         == Step(m.(syncId := None, current := Some(m.readConn)),
                 db.(checks := k + 1, sleeps := db.sleeps + (k - db.checks)), m.readConn)
  {
    RetrieveFirstHit(m, db, slave, tries, id, k);
  }

  /**
    As written, a fallback sticks: when no check finds the pending id, the
    master is cached and every later `connection` of the request returns it
    without checking the slave again.
  */
  lemma FallbackSticksForRequest(m: Manager, db: Db, slave: Slave, tries: nat, id: nat, later: Db)
    requires m.current.None? && m.syncId == Some(id)
    requires forall j :: db.checks <= j < db.checks + tries ==> !Sees(slave, j, id)
    ensures var r := Connection(m, db, slave, tries);
      && r.value == m.writeConn
      && r.m == m.(current := Some(m.writeConn))
      && Connection(r.m, later, slave, tries) == Step(r.m, later, m.writeConn)
  {
    RetrieveAllMiss(m, db, slave, tries, id);
  }

  /** Without a slave, the read and write handles coincide and every read goes to the master. */
  lemma NoSlaveConnectionIsMaster(m: Manager, db: Db, slave: Slave, tries: nat)
    requires Valid(m) && m.readConn == m.writeConn
    ensures Connection(m, db, slave, tries).value == MasterConn
  {
  }

  // ----- Properties of the forcing blocks -----

  /** A read inside `force_slave_connection` uses the slave and leaves the state exactly as it was. */
  lemma ForcedSlaveReadLeavesNoTrace(m: Manager, db: Db, slave: Slave, tries: nat)
    ensures ForceSlave(m, db, (m', d') => Connection(m', d', slave, tries)) == Step(m, db, m.readConn)
  {
  }

  /** A read inside `force_master_connection` uses the master and leaves the state exactly as it was. */
  lemma ForcedMasterReadLeavesNoTrace(m: Manager, db: Db, slave: Slave, tries: nat)
    ensures ForceMaster(m, db, (m', d') => Connection(m', d', slave, tries)) == Step(m, db, m.writeConn)
  {
  }

  /** A write inside a forcing block keeps its new sync id after the block, but not its connection. */
  lemma WriteInsideForceKeepsSyncId<T>(m: Manager, db: Db, result: T)
    ensures var r := ForceSlave(m, db, (m', d') => Synchronize(m', d', result));
      r.m == m.(syncId := Some(db.lastId + 1)) && r.value == result
    ensures var r := ForceMaster(m, db, (m', d') => Synchronize(m', d', result));
      r.m == m.(syncId := Some(db.lastId + 1)) && r.value == result
  {
  }

  /**
    `force_master_connection` nested in `force_slave_connection`: the inner
    block sees the master, the outer cache comes back exactly on exit.
  */
  lemma NestedForceRestoresOuter<T>(m: Manager, db: Db, inner: (Manager, Db) -> Step<T>)
    ensures var r := ForceSlave(m, db, (m1, d1) => ForceMaster(m1, d1, inner));
      var b := inner(m.(current := Some(m.writeConn)), db);
      r.m == b.m.(current := m.current) && r.db == b.db && r.value == b.value
  {
  }
}
