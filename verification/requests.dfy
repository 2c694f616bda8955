/**
  A controller action, as far as routing is concerned, is a program of
  database commands. Running it inside the `synchronize_session` filter ties
  the manager, the write wrappers and the session together, and lets us state
  what one request does to the sync id the session carries.
*/
module Requests {
  import opened Wrappers
  import opened ConnectionManager
  import opened Extensions

  /** One step of a controller action. */
  datatype Cmd =
    | Read                                    // a query through `connection_with_synchronization`
    | Write(sql: bool, result: Outcome<int>)  // create/update/destroy/update_all/delete_all: whether it
                                              // issues SQL through `connection`, and how it ends
    | Transaction(body: seq<Cmd>)             // `transaction { body }`
    | WithSlave(body: seq<Cmd>)               // `with_slave_connection { body }`
    | WithMaster(body: seq<Cmd>)              // `with_master_connection { body }`
    | Fail(error: string)                     // the action raises

  /**
    What an action did: the handle each of its reads used, the handle each of
    its writes sent SQL to, and the exception it raised.
  */
  datatype Log = Log(served: seq<Handle>, written: seq<Handle>, error: Option<string>)

  /** Every entry is the handle `h`. */
  predicate AllOn(hs: seq<Handle>, h: Handle)
  {
    forall i :: 0 <= i < |hs| ==> hs[i] == h
  }

  /** The database counters only move forward. */
  predicate Grows(db: Db, db': Db)
  {
    db.lastId <= db'.lastId && db.checks <= db'.checks && db.sleeps <= db'.sleeps
  }

  /** The pending id after a run is the old one, none, or one minted during the run. */
  predicate PendingFrom(m: Manager, db: Db, m': Manager, db': Db)
  {
    m'.syncId == m.syncId || m'.syncId.None? || db.lastId < m'.syncId.value <= db'.lastId
  }

  /**
    The ActiveRecord operation under a write wrapper: when it issues SQL it
    first asks the class for its `connection`, which is the manager's.
  */
  function UnderlyingWrite(m: Manager, db: Db, slave: Slave, tries: nat, sql: bool, result: Outcome<int>): (r: Step<Outcome<int>>)
    ensures r.value == result
    ensures !sql ==> r.m == m && r.db == db
    ensures sql ==> r.m.current == Some(Connection(m, db, slave, tries).value)
  {
    if sql then
      var c := ConnectionWithSynchronization(m, db, slave, tries);
      Step(c.m, c.db, result)
    else Step(m, db, result)
  }

  /** Run commands in order; the first exception ends the run. */
  function Exec(m: Manager, db: Db, slave: Slave, tries: nat, cmds: seq<Cmd>): (r: Step<Log>)
    ensures r.m.readConn == m.readConn && r.m.writeConn == m.writeConn
    ensures Grows(db, r.db) && PendingFrom(m, db, r.m, r.db)
    ensures Valid(m) ==> Valid(r.m)
    ensures Valid(m) && m.readConn == m.writeConn ==>
      AllOn(r.value.served, MasterConn) && AllOn(r.value.written, MasterConn)
    decreases cmds
  {
    if |cmds| == 0 then Step(m, db, Log([], [], None))
    else
      var s := ExecOne(m, db, slave, tries, cmds[0]);
      if s.value.error.Some? then s
      else
        var t := Exec(s.m, s.db, slave, tries, cmds[1..]);
        Step(t.m, t.db, Log(s.value.served + t.value.served, s.value.written + t.value.written, t.value.error))
  }

  /** Run one command through the hooks that Rails installs. */
  function ExecOne(m: Manager, db: Db, slave: Slave, tries: nat, c: Cmd): (r: Step<Log>)
    ensures r.m.readConn == m.readConn && r.m.writeConn == m.writeConn
    ensures Grows(db, r.db) && PendingFrom(m, db, r.m, r.db)
    ensures Valid(m) ==> Valid(r.m)
    ensures Valid(m) && m.readConn == m.writeConn ==>
      AllOn(r.value.served, MasterConn) && AllOn(r.value.written, MasterConn)
    decreases c
  {
    match c
    case Read =>
      var s := ConnectionWithSynchronization(m, db, slave, tries);
      Step(s.m, s.db, Log([s.value], [], None))
    case Write(sql, result) =>
      var s := SynchronizeAfter(m, db, (m', d') => UnderlyingWrite(m', d', slave, tries, sql, result));
      var used := if sql then [Connection(m, db, slave, tries).value] else [];
      Step(s.m, s.db, Log([], used, if s.value.Raised? then Some(s.value.error) else None))
    case Transaction(body) =>
      TransactionWithSynchronization(m, db, (m', d') => Exec(m', d', slave, tries, body))
    case WithSlave(body) =>
      WithSlaveConnection(m, db, (m', d') => Exec(m', d', slave, tries, body))
    case WithMaster(body) =>
      WithMasterConnection(m, db, (m', d') => Exec(m', d', slave, tries, body))
    case Fail(e) =>
      Step(m, db, Log([], [], Some(e)))
  }

  /** One request: the action runs inside the `synchronize_session` filter. */
  function Serve(m: Manager, db: Db, slave: Slave, tries: nat, session: Option<nat>, action: seq<Cmd>): Visit<Log>
  {
    SynchronizeSession(m, db, session, (m', d') => Exec(m', d', slave, tries, action))
  }

  // ----- What an action contains -----

  /** The commands contain a write (a wrapped write or a transaction) at some depth. */
  predicate Writes(cmds: seq<Cmd>)
    decreases cmds
  {
    |cmds| > 0 && (WritesOne(cmds[0]) || Writes(cmds[1..]))
  }

  predicate WritesOne(c: Cmd)
    decreases c
  {
    match c
    case Write(_, _) => true
    case Transaction(_) => true
    case WithSlave(body) => Writes(body)
    case WithMaster(body) => Writes(body)
    case _ => false
  }

  /** The commands contain a read at some depth. */
  predicate Reads(cmds: seq<Cmd>)
    decreases cmds
  {
    |cmds| > 0 && (ReadsOne(cmds[0]) || Reads(cmds[1..]))
  }

  predicate ReadsOne(c: Cmd)
    decreases c
  {
    match c
    case Read => true
    case Transaction(body) => Reads(body)
    case WithSlave(body) => Reads(body)
    case WithMaster(body) => Reads(body)
    case _ => false
  }

  // ----- Invariants of running an action -----

  /** Without writes no id is minted, and a pending id is at most cleared, never replaced. */
  lemma {:induction false} NoWritesKeepToken(m: Manager, db: Db, slave: Slave, tries: nat, cmds: seq<Cmd>)
    requires !Writes(cmds)
    ensures var r := Exec(m, db, slave, tries, cmds);
      r.db.lastId == db.lastId && (r.m.syncId == m.syncId || r.m.syncId.None?)
    decreases cmds
  {
    if |cmds| > 0 {
      NoWritesKeepTokenOne(m, db, slave, tries, cmds[0]);
      var s := ExecOne(m, db, slave, tries, cmds[0]);
      if s.value.error.None? {
        NoWritesKeepToken(s.m, s.db, slave, tries, cmds[1..]);
      }
    }
  }

  lemma {:induction false} NoWritesKeepTokenOne(m: Manager, db: Db, slave: Slave, tries: nat, c: Cmd)
    requires !WritesOne(c)
    ensures var r := ExecOne(m, db, slave, tries, c);
      r.db.lastId == db.lastId && (r.m.syncId == m.syncId || r.m.syncId.None?)
    decreases c
  {
    match c
    case WithSlave(body) =>
      NoWritesKeepToken(m.(current := Some(m.readConn)), db, slave, tries, body);
    case WithMaster(body) =>
      NoWritesKeepToken(m.(current := Some(m.writeConn)), db, slave, tries, body);
    case _ =>
  }

  /** An action that neither reads nor writes leaves the manager and the database exactly as they were. */
  lemma {:induction false} QuietLeavesStateAlone(m: Manager, db: Db, slave: Slave, tries: nat, cmds: seq<Cmd>)
    requires !Writes(cmds) && !Reads(cmds)
    ensures var r := Exec(m, db, slave, tries, cmds);
      r.m == m && r.db == db && r.value.served == []
    decreases cmds
  {
    if |cmds| > 0 {
      QuietLeavesStateAloneOne(m, db, slave, tries, cmds[0]);
      var s := ExecOne(m, db, slave, tries, cmds[0]);
      if s.value.error.None? {
        QuietLeavesStateAlone(s.m, s.db, slave, tries, cmds[1..]);
      }
    }
  }

  lemma {:induction false} QuietLeavesStateAloneOne(m: Manager, db: Db, slave: Slave, tries: nat, c: Cmd)
    requires !WritesOne(c) && !ReadsOne(c)
    ensures var r := ExecOne(m, db, slave, tries, c);
      r.m == m && r.db == db && r.value.served == []
    decreases c
  {
    match c
    case WithSlave(body) =>
      QuietLeavesStateAlone(m.(current := Some(m.readConn)), db, slave, tries, body);
    case WithMaster(body) =>
      QuietLeavesStateAlone(m.(current := Some(m.writeConn)), db, slave, tries, body);
    case _ =>
  }

  /**
    Once a connection is cached, reads neither check the slave nor touch the
    sync id: an action without writes changes nothing at all.
  */
  lemma {:induction false} CachedReadsChangeNothing(m: Manager, db: Db, slave: Slave, tries: nat, cmds: seq<Cmd>)
    requires m.current.Some? && !Writes(cmds)
    ensures var r := Exec(m, db, slave, tries, cmds);
      r.m == m && r.db == db
    decreases cmds
  {
    if |cmds| > 0 {
      CachedReadsChangeNothingOne(m, db, slave, tries, cmds[0]);
      var s := ExecOne(m, db, slave, tries, cmds[0]);
      if s.value.error.None? {
        CachedReadsChangeNothing(s.m, s.db, slave, tries, cmds[1..]);
      }
    }
  }

  lemma {:induction false} CachedReadsChangeNothingOne(m: Manager, db: Db, slave: Slave, tries: nat, c: Cmd)
    requires m.current.Some? && !WritesOne(c)
    ensures var r := ExecOne(m, db, slave, tries, c);
      r.m == m && r.db == db
    decreases c
  {
    match c
    case WithSlave(body) =>
      CachedReadsChangeNothing(m.(current := Some(m.readConn)), db, slave, tries, body);
    case WithMaster(body) =>
      CachedReadsChangeNothing(m.(current := Some(m.writeConn)), db, slave, tries, body);
    case _ =>
  }

  /**
    With a connection cached and a pending id already minted, running any
    action keeps a connection cached and keeps an id pending that is no
    older than the first one and no newer than the last id minted.
  */
  lemma {:induction false} CachedRunKeepsPendingId(m: Manager, db: Db, slave: Slave, tries: nat, cmds: seq<Cmd>, id: nat)
    requires m.current.Some? && m.syncId == Some(id) && id <= db.lastId
    ensures var r := Exec(m, db, slave, tries, cmds);
      r.m.current.Some? && r.m.syncId.Some? && id <= r.m.syncId.value <= r.db.lastId
    decreases cmds
  {
    if |cmds| > 0 {
      CachedRunKeepsPendingIdOne(m, db, slave, tries, cmds[0], id);
      var s := ExecOne(m, db, slave, tries, cmds[0]);
      if s.value.error.None? {
        CachedRunKeepsPendingId(s.m, s.db, slave, tries, cmds[1..], s.m.syncId.value);
      }
    }
  }

  lemma {:induction false} CachedRunKeepsPendingIdOne(m: Manager, db: Db, slave: Slave, tries: nat, c: Cmd, id: nat)
    requires m.current.Some? && m.syncId == Some(id) && id <= db.lastId
    ensures var r := ExecOne(m, db, slave, tries, c);
      r.m.current.Some? && r.m.syncId.Some? && id <= r.m.syncId.value <= r.db.lastId
    decreases c
  {
    match c
    case Transaction(body) =>
      var s := Synchronize(m, db, ());
      CachedRunKeepsPendingId(s.m, s.db, slave, tries, body, s.db.lastId);
    case WithSlave(body) =>
      CachedRunKeepsPendingId(m.(current := Some(m.readConn)), db, slave, tries, body, id);
    case WithMaster(body) =>
      CachedRunKeepsPendingId(m.(current := Some(m.writeConn)), db, slave, tries, body, id);
    case _ =>
  }

  /**
    A transaction mints its id before the body runs: afterwards an id newer
    than every earlier one is pending, whether the body succeeded or raised.
  */
  lemma TransactionAlwaysMints(m: Manager, db: Db, slave: Slave, tries: nat, body: seq<Cmd>)
    ensures var r := ExecOne(m, db, slave, tries, Transaction(body));
      r.m.syncId.Some? && r.m.syncId.value > db.lastId
  {
    var s := Synchronize(m, db, ());
    CachedRunKeepsPendingId(s.m, s.db, slave, tries, body, s.db.lastId);
  }

  /** A run with `WithSlave` somewhere in it, at any depth. */
  predicate ForcesSlave(cmds: seq<Cmd>)
    decreases cmds
  {
    |cmds| > 0 && (ForcesSlaveOne(cmds[0]) || ForcesSlave(cmds[1..]))
  }

  predicate ForcesSlaveOne(c: Cmd)
    decreases c
  {
    match c
    case WithSlave(_) => true
    case Transaction(body) => ForcesSlave(body)
    case WithMaster(body) => ForcesSlave(body)
    case _ => false
  }

  /** Running `a + b` is running `a`, then, unless `a` raised, running `b` from where `a` ended. */
  lemma {:induction false} ExecAppend(m: Manager, db: Db, slave: Slave, tries: nat, a: seq<Cmd>, b: seq<Cmd>)
    ensures var x := Exec(m, db, slave, tries, a);
      Exec(m, db, slave, tries, a + b)
      == if x.value.error.Some? then x
         else
           var y := Exec(x.m, x.db, slave, tries, b);
           Step(y.m, y.db, Log(x.value.served + y.value.served, x.value.written + y.value.written, y.value.error))
    decreases a
  {
    if |a| == 0 {
      assert a + b == b;
      var y := Exec(m, db, slave, tries, b);
      assert [] + y.value.served == y.value.served && [] + y.value.written == y.value.written;
    } else {
      assert (a + b)[0] == a[0] && (a + b)[1..] == a[1..] + b;
      var s := ExecOne(m, db, slave, tries, a[0]);
      if s.value.error.None? {
        ExecAppend(s.m, s.db, slave, tries, a[1..], b);
        var x := Exec(s.m, s.db, slave, tries, a[1..]);
        if x.value.error.None? {
          var y := Exec(x.m, x.db, slave, tries, b);
          assert s.value.served + (x.value.served + y.value.served) == (s.value.served + x.value.served) + y.value.served;
          assert s.value.written + (x.value.written + y.value.written) == (s.value.written + x.value.written) + y.value.written;
        }
      }
    }
  }

  /**
    With the master cached, an action that never forces the slave keeps the
    master cached and sends every read and every write to the master.
  */
  lemma {:induction false} MasterCachedServesMaster(m: Manager, db: Db, slave: Slave, tries: nat, cmds: seq<Cmd>)
    requires m.current == Some(m.writeConn) && !ForcesSlave(cmds)
    ensures var r := Exec(m, db, slave, tries, cmds);
      r.m.current == Some(m.writeConn) && AllOn(r.value.served, m.writeConn) && AllOn(r.value.written, m.writeConn)
    decreases cmds
  {
    if |cmds| > 0 {
      MasterCachedServesMasterOne(m, db, slave, tries, cmds[0]);
      var s := ExecOne(m, db, slave, tries, cmds[0]);
      if s.value.error.None? {
        MasterCachedServesMaster(s.m, s.db, slave, tries, cmds[1..]);
      }
    }
  }

  lemma {:induction false} MasterCachedServesMasterOne(m: Manager, db: Db, slave: Slave, tries: nat, c: Cmd)
    requires m.current == Some(m.writeConn) && !ForcesSlaveOne(c)
    ensures var r := ExecOne(m, db, slave, tries, c);
      r.m.current == Some(m.writeConn) && AllOn(r.value.served, m.writeConn) && AllOn(r.value.written, m.writeConn)
    decreases c
  {
    match c
    case Transaction(body) =>
      var s := Synchronize(m, db, ());
      MasterCachedServesMaster(s.m, s.db, slave, tries, body);
    case WithMaster(body) =>
      MasterCachedServesMaster(m, db, slave, tries, body);
    case _ =>
  }

  /**
    Read-your-writes within a request: after any prefix and a successful
    write, every later read and write that is not inside `with_slave_connection`
    goes to the master.
  */
  lemma ReadAfterWriteOnMaster(m: Manager, db: Db, slave: Slave, tries: nat, pre: seq<Cmd>, sql: bool, x: int, rest: seq<Cmd>)
    requires !ForcesSlave(rest)
    ensures var w := Exec(m, db, slave, tries, pre + [Write(sql, Returned(x))]);
      var t := Exec(m, db, slave, tries, pre + [Write(sql, Returned(x))] + rest);
      w.value.error.None? ==>
        && |w.value.served| <= |t.value.served|
        && t.value.served[..|w.value.served|] == w.value.served
        && (forall i :: |w.value.served| <= i < |t.value.served| ==> t.value.served[i] == m.writeConn)
        && (forall i :: |w.value.written| <= i < |t.value.written| ==> t.value.written[i] == m.writeConn)
  {
    var wc := [Write(sql, Returned(x))];
    var w := Exec(m, db, slave, tries, pre + wc);
    if w.value.error.None? {
      ExecAppend(m, db, slave, tries, pre, wc);
      var p := Exec(m, db, slave, tries, pre);
      var s := ExecOne(p.m, p.db, slave, tries, wc[0]);
      assert wc[1..] == [];
      assert w.m == s.m;
      assert w.m.current == Some(m.writeConn);
      ExecAppend(m, db, slave, tries, pre + wc, rest);
      MasterCachedServesMaster(w.m, w.db, slave, tries, rest);
      var y := Exec(w.m, w.db, slave, tries, rest);
      assert (w.value.served + y.value.served)[..|w.value.served|] == w.value.served;
    }
  }

  /**
    As written, a write goes through `connection` like a read: a write issued
    before anything is cached in a request without a pending id is sent to
    the read connection.
  */
  lemma FirstWriteGoesToReadConnection(m: Manager, db: Db, slave: Slave, tries: nat, result: Outcome<int>, rest: seq<Cmd>)
    requires m.current.None?
    ensures var v := Serve(m, db, slave, tries, None, [Write(true, result)] + rest);
      |v.value.written| > 0 && v.value.written[0] == m.readConn
  {
    var m0 := m.(syncId := None);
    var s := ExecOne(m0, db, slave, tries, Write(true, result));
    assert ([Write(true, result)] + rest)[0] == Write(true, result);
  }

  /** Without a slave, every read and write of any action goes to the master. */
  lemma NoSlaveReadsOnMaster(m: Manager, db: Db, slave: Slave, tries: nat, cmds: seq<Cmd>)
    requires Valid(m) && m.readConn == m.writeConn
    ensures var r := Exec(m, db, slave, tries, cmds);
      AllOn(r.value.served, MasterConn) && AllOn(r.value.written, MasterConn)
  {
  }

  /**
    As written, the transaction block is dropped: whatever reads and writes
    it holds, the result is the one of an empty block. With an original
    `transaction` that does nothing without a block, a block that reads once
    and writes once leaves no read and mints one id where the forwarding
    wrapper reads once and mints two.
  */
  lemma AsWrittenTransactionLosesBody(m: Manager, db: Db, slave: Slave, tries: nat, body: seq<Cmd>, bare: Block<Log>)
    ensures TransactionAsWritten(m, db, (m', d') => Exec(m', d', slave, tries, body), bare)
         == TransactionAsWritten(m, db, (m', d') => Exec(m', d', slave, tries, []), bare)
    ensures var idle := (m': Manager, d': Db) => Step(m', d', Log([], [], None));
      var cmds := [Read, Write(false, Returned(0))];
      var asWritten := TransactionAsWritten(m, db, (m', d') => Exec(m', d', slave, tries, cmds), idle);
      var intended := ExecOne(m, db, slave, tries, Transaction(cmds));
      && asWritten.value.served == [] && asWritten.db.lastId == db.lastId + 1
      && |intended.value.served| == 1 && intended.db.lastId == db.lastId + 2
  {
  }

  // ----- What a request does to the session -----

  /** A request that neither reads nor writes stores the session's sync id back unchanged. */
  lemma QuietRequestKeepsSession(m: Manager, db: Db, slave: Slave, tries: nat, session: Option<nat>, action: seq<Cmd>)
    requires !Writes(action) && !Reads(action)
    ensures Serve(m, db, slave, tries, session, action).session == session
  {
    QuietLeavesStateAlone(m.(syncId := session), db, slave, tries, action);
  }

  /** A request without writes never puts a new id into the session: it keeps the old one or clears it. */
  lemma ReadOnlyRequestAddsNoToken(m: Manager, db: Db, slave: Slave, tries: nat, session: Option<nat>, action: seq<Cmd>)
    requires !Writes(action)
    ensures var v := Serve(m, db, slave, tries, session, action);
      v.session == session || v.session.None?
  {
    NoWritesKeepToken(m.(syncId := session), db, slave, tries, action);
  }

  /**
    A request whose first read finds the session's id on the slave (first
    at check number k) is served by the slave and stores nil back.
  */
  lemma ConfirmingFirstReadClearsSession(m: Manager, db: Db, slave: Slave, tries: nat, id: nat, k: nat, rest: seq<Cmd>)
    requires m.current.None? && !Writes(rest)
    requires db.checks <= k < db.checks + tries
    requires Sees(slave, k, id)
    requires forall j :: db.checks <= j < k ==> !Sees(slave, j, id)
    ensures var v := Serve(m, db, slave, tries, Some(id), [Read] + rest);
      v.session.None? && |v.value.served| > 0 && v.value.served[0] == m.readConn
  {
    var m0 := m.(syncId := Some(id));
    ConnectionConfirmsOnSlave(m0, db, slave, tries, id, k);
    var s := ExecOne(m0, db, slave, tries, Read);
    assert ([Read] + rest)[0] == Read && ([Read] + rest)[1..] == rest;
    CachedReadsChangeNothing(s.m, s.db, slave, tries, rest);
  }

  /**
    A request whose first read never finds the session's id on the slave is
    served by the master and stores the same id back.
  */
  lemma FallbackKeepsSession(m: Manager, db: Db, slave: Slave, tries: nat, id: nat, rest: seq<Cmd>)
    requires m.current.None? && !Writes(rest)
    requires forall j :: db.checks <= j < db.checks + tries ==> !Sees(slave, j, id)
    ensures var v := Serve(m, db, slave, tries, Some(id), [Read] + rest);
      v.session == Some(id) && |v.value.served| > 0 && v.value.served[0] == m.writeConn
  {
    var m0 := m.(syncId := Some(id));
    RetrieveAllMiss(m0, db, slave, tries, id);
    var s := ExecOne(m0, db, slave, tries, Read);
    assert ([Read] + rest)[0] == Read && ([Read] + rest)[1..] == rest;
    CachedReadsChangeNothing(s.m, s.db, slave, tries, rest);
  }

  /**
    Read-your-writes across requests: with a real slave, the first read of a
    request carrying a pending id is served by the slave only if a check
    found that id there.
  */
  lemma NextRequestReadIsFresh(m: Manager, db: Db, slave: Slave, tries: nat, id: nat, rest: seq<Cmd>)
    requires m.current.None? && m.readConn != m.writeConn
    requires var v := Serve(m, db, slave, tries, Some(id), [Read] + rest);
      |v.value.served| > 0 && v.value.served[0] == m.readConn
    ensures exists j :: db.checks <= j < db.checks + tries && Sees(slave, j, id)
  {
    var m0 := m.(syncId := Some(id));
    var s := ExecOne(m0, db, slave, tries, Read);
    assert ([Read] + rest)[0] == Read;
    RetrieveSlaveOnlyIfSeen(m0, db, slave, tries, id);
  }

  /**
    A request that writes successfully and then only reads hands the write's
    fresh id to the session, whatever it had before.
  */
  lemma WriteRequestHandsIdOn(m: Manager, db: Db, slave: Slave, tries: nat, session: Option<nat>, sql: bool, x: int, rest: seq<Cmd>)
    requires !Writes(rest)
    ensures Serve(m, db, slave, tries, session, [Write(sql, Returned(x))] + rest).session == Some(db.lastId + 1)
  {
    var m0 := m.(syncId := session);
    var s := ExecOne(m0, db, slave, tries, Write(sql, Returned(x)));
    assert ([Write(sql, Returned(x))] + rest)[0] == Write(sql, Returned(x));
    assert ([Write(sql, Returned(x))] + rest)[1..] == rest;
    CachedReadsChangeNothing(s.m, s.db, slave, tries, rest);
  }

  /**
    A write that raises mints nothing and its exception passes through. The
    session keeps its id or, when the write's `connection` lookup confirmed
    the id on the slave first, gets nil; a write that raises before issuing
    any SQL leaves session and database exactly as they were.
  */
  lemma FailedWriteMintsNothing(m: Manager, db: Db, slave: Slave, tries: nat, session: Option<nat>, sql: bool, e: string)
    ensures var v := Serve(m, db, slave, tries, session, [Write(sql, Raised(e))]);
      && v.db.lastId == db.lastId && v.value.error == Some(e)
      && (v.session == session || v.session.None?)
      && (!sql ==> v.session == session && v.db == db)
  {
    var cmds := [Write(sql, Raised(e))];
    var s := ExecOne(m.(syncId := session), db, slave, tries, cmds[0]);
    assert s.db.lastId == db.lastId && s.value.error == Some(e);
    assert s.m.syncId == session || s.m.syncId.None?;
  }

  /**
    As written, a write that raises at the database has already looked up
    `connection`: with a pending id that the slave confirms, the session
    loses its id although the write failed.
  */
  lemma FailedWriteMayClearSession(m: Manager, db: Db, slave: Slave, tries: nat, id: nat, e: string)
    requires m.current.None? && tries > 0 && Sees(slave, db.checks, id)
    ensures var v := Serve(m, db, slave, tries, Some(id), [Write(true, Raised(e))]);
      v.session.None? && v.db.checks == db.checks + 1 && v.value.error == Some(e)
  {
    var m0 := m.(syncId := Some(id));
    ConnectionConfirmsOnSlave(m0, db, slave, tries, id, db.checks);
    var s := ExecOne(m0, db, slave, tries, Write(true, Raised(e)));
    assert s.m.syncId.None? && s.db.checks == db.checks + 1;
  }

  /** Every request ends with the manager reset, so the next one starts from a clean cache. */
  lemma RequestEndsReset(m: Manager, db: Db, slave: Slave, tries: nat, session: Option<nat>, action: seq<Cmd>)
    ensures var v := Serve(m, db, slave, tries, session, action);
      v.m.syncId.None? && v.m.current.None? && v.m.readConn == m.readConn && v.m.writeConn == m.writeConn
  {
  }

  /** With no slave configured, every read and write of every request goes to the master. */
  lemma NoSlaveRequestsUseMaster(db: Db, slave: Slave, tries: nat, session: Option<nat>, action: seq<Cmd>)
    ensures var v := Serve(Initialize(false), db, slave, tries, session, action);
      AllOn(v.value.served, MasterConn) && AllOn(v.value.written, MasterConn)
  {
    NoSlaveReadsOnMaster(Initialize(false).(syncId := session), db, slave, tries, action);
  }
}
