/** A session on connections from the pool: what the pool lends is what the session asks for, and the other way round. */
module PooledSession {
  import opened ConnectionPool
  import opened Database
  import opened Session
  import opened Words

  /** The worker has no reference yet. */
  ghost predicate Newcomer(refs: multiset<(User, Connection)>, w: User) {
    forall p :: p in refs ==> p.0 != w
  }

  /** The worker alone was lent two different connections. */
  ghost predicate LentBoth(pool: Pool, w: User, con: Connection, con2: Connection,
                           refs: multiset<(User, Connection)>, loans: map<Connection, User>)
    reads pool
  {
    && con != con2 && con !in loans && con2 !in loans
    && pool.loans == loans[con := w][con2 := w]
    && pool.refs == refs + multiset{(w, con)} + multiset{(w, con2)}
  }

  lemma {:induction false} ReferencedOnce(refs: multiset<(User, Connection)>, w: User, con: Connection)
    requires (w, con) !in refs
    ensures
      var more := refs + multiset{(w, con)};
      (w, con) in more && more - multiset{(w, con)} == refs
  {
  }

  lemma {:induction false} ReferencedBoth(refs: multiset<(User, Connection)>, w: User, con: Connection, con2: Connection)
    requires Newcomer(refs, w) && con != con2
    ensures
      var both := refs + multiset{(w, con)} + multiset{(w, con2)};
      && (w, con2) in both && (w, con2) !in both - multiset{(w, con2)}
      && (w, con) in both - multiset{(w, con2)} && both - multiset{(w, con2)} - multiset{(w, con)} == refs
      && (w, con) !in refs && (w, con2) !in refs
  {
    assert (w, con) !in refs && (w, con2) !in refs;
  }

  lemma {:induction false} LoanEnds(loans: map<Connection, User>, w: User, con: Connection)
    requires con !in loans
    ensures loans[con := w] - {con} == loans
  {
  }

  /** Two borrows; if the second fails, the first connection is let go and everything is as it was. */
  method BorrowBoth(pool: Pool, w: User, create: bool, create2: bool) returns (both: Option<(Connection, Connection)>)
    requires pool.Valid() && Newcomer(pool.refs, w)
    modifies pool
    ensures pool.Valid()
    ensures both.Some? ==>
              var (con, con2) := both.value;
              && LentBoth(pool, w, con, con2, old(pool.refs), old(pool.loans))
              && con.pending == con2.pending == [] && con.store == con2.store == pool.store
              && (con in old(pool.pool) || fresh(con)) && (con2 in old(pool.pool) || fresh(con2))
    ensures both.None? ==> pool.refs == old(pool.refs) && pool.loans == old(pool.loans)
    ensures |old(pool.pool)| >= 2 ==> both.Some?
  {
    hide Shelved, Tracked;
    var first := pool.Borrow(w, create);
    if !first.Lent? {
      return None;
    }
    var con := first.conn;
    ReferencedOnce(old(pool.refs), w, con);
    LoanEnds(old(pool.loans), w, con);
    var second := pool.Borrow(w, create2);
    if !second.Lent? {
      pool.Drop(w, con);
      return None;
    }
    return Some((con, second.conn));
  }

  /** The end of a worker: connections with nothing to commit may go back, and both references go. */
  method GiveBack(pool: Pool, w: User, con: Connection, con2: Connection, back: bool, back2: bool,
                  ghost refs: multiset<(User, Connection)>, ghost loans: map<Connection, User>)
    requires pool.Valid() && Newcomer(refs, w) && LentBoth(pool, w, con, con2, refs, loans)
    requires (back ==> con.pending == []) && (back2 ==> con2.pending == [])
    modifies pool
    ensures pool.Valid() && pool.refs == refs && pool.loans == loans
    ensures back ==> con in pool.pool
    ensures back2 ==> con2 in pool.pool
  {
    hide Shelved, Tracked, Newcomer;
    ReferencedBoth(refs, w, con, con2);
    LoanEnds(loans[con := w], w, con2);
    LoanEnds(loans, w, con);
    assert loans[con := w][con2 := w] == loans[con2 := w][con := w];
    LoanEnds(loans[con2 := w], w, con);
    LoanEnds(loans, w, con2);
    if back2 {
      pool.Unborrow(w, con2);
    }
    if back {
      pool.Unborrow(w, con);
    }
    pool.Drop(w, con2);
    pool.Drop(w, con);
  }

  /**
   * One worker from borrowing to giving back, with no other at work in between: the session finds its two
   * connections clean, and what it gives back keeps the pool clean.
   */
  method ServeFromPool(pool: Pool, w: User, create: bool, create2: bool, rejoin: bool, banned: bool, now: nat, later: nat,
                       messages: seq<Message>) returns (ending: Outcome)
    requires pool.Valid() && Newcomer(pool.refs, w)
    modifies pool, pool.pool, pool.store
    ensures pool.Valid() && pool.refs == old(pool.refs) && pool.loans == old(pool.loans)
    ensures pool.store.rows.account == old(pool.store.rows.account) ||
            (ending.Committed? && Stored(old(pool.store.rows.account), Served(messages), pool.store.rows.account))
    ensures pool.store.failures == old(pool.store.failures) && ending.Crashed? ==> |old(pool.pool)| < 2
  {
    hide Stored, Newcomer;
    var both := BorrowBoth(pool, w, create, create2);
    if both.None? {
      return Crashed;
    }
    var (con, con2) := both.value;
    BothAreBorrowed(pool, w, con, con2, old(pool.refs), old(pool.loans));
    var reply, back, back2;
    ending, reply, back, back2 := Serve(con, con2, rejoin, banned, now, later, messages);
    GiveBack(pool, w, con, con2, back, back2, old(pool.refs), old(pool.loans));
  }

  lemma {:induction false} BothAreBorrowed(pool: Pool, w: User, con: Connection, con2: Connection,
                                           refs: multiset<(User, Connection)>, loans: map<Connection, User>)
    requires pool.Valid() && LentBoth(pool, w, con, con2, refs, loans)
    ensures con !in pool.pool && con2 !in pool.pool
  {
    assert con in pool.loans && con2 in pool.loans;
  }
}
