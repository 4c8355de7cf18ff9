/** Transaction control on the one database connection: begin, commit and
    rollback, the auto-commit flag they switch, and the trace of
    transaction statements they issue. */
module Transactions {
  import opened Schema

  /** A transaction-control statement sent to the database. */
  datatype TxnEvent = Begin | Commit | Rollback

  /** Whether a transaction is open, and if so the Reservation table as it
      stood when it began (what a rollback returns to). */
  datatype Txn = Idle | Active(saved: Table)

  /** The connection: the database as the open transaction sees it, the
      auto-commit flag, the transaction state, and every transaction
      statement issued so far. */
  datatype Conn = Conn(db: Db, autoCommit: bool, txn: Txn, log: seq<TxnEvent>)

  /** Puts the connection into a new transaction: auto-commit off, then
      BEGIN TRANSACTION. */
  function BeginTransaction(c: Conn): (c': Conn)
    requires c.txn.Idle?
    ensures !c'.autoCommit && c'.txn == Active(c.db.reservations)
    ensures c'.db == c.db && c'.log == c.log + [Begin]
  {
    c.(autoCommit := false, txn := Active(c.db.reservations), log := c.log + [Begin])
  }

  /** COMMIT TRANSACTION, then back to one transaction per statement: the
      writes of the transaction stay. */
  function CommitTransaction(c: Conn): (c': Conn)
    requires c.txn.Active?
    ensures c'.autoCommit && c'.txn.Idle?
    ensures c'.db == c.db && c'.log == c.log + [Commit]
  {
    c.(autoCommit := true, txn := Idle, log := c.log + [Commit])
  }

  /** ROLLBACK TRANSACTION, then back to one transaction per statement:
      every write of the transaction is undone. */
  function RollbackTransaction(c: Conn): (c': Conn)
    requires c.txn.Active?
    ensures c'.autoCommit && c'.txn.Idle?
    ensures c'.db.flights == c.db.flights && c'.log == c.log + [Rollback]
    ensures c'.db.reservations == c.txn.saved
  {
    c.(db := c.db.(reservations := c.txn.saved), autoCommit := true, txn := Idle, log := c.log + [Rollback])
  }

  /** Whatever a transaction has written, rolling it back returns the
      Reservation table to its state at BEGIN. */
  lemma RollbackUndoesTransaction(c: Conn, work: Conn)
    requires c.txn.Idle?
    requires work.txn == BeginTransaction(c).txn
    requires work.db.flights == c.db.flights
    ensures RollbackTransaction(work).db == c.db
  {
  }
}
