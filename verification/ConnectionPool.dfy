/** The connection pool: what is free, what is borrowed, and the shared pointers its users keep. */
module ConnectionPool {
  import opened Database
  import opened Words

  type User = nat

  /** What borrow gives or throws. */
  datatype Borrowed<C> = Lent(conn: C) | ConnectionUnavailable | ConnectionImpossible

  /** Every connection is free or borrowed and not both, and there are as many as the pool was made for. */
  ghost predicate Shelved<C>(pool: seq<C>, borrowed: set<C>, poolSize: nat) {
    && |pool| + |borrowed| == poolSize
    && (forall i, j :: 0 <= i < j < |pool| ==> pool[i] != pool[j])
    && (forall c :: c in pool ==> c !in borrowed)
  }

  /**
   * What borrow may do, given the borrowed connections that nobody references and whether the factory can make
   * a connection: lend the first free one; with none free, put a new one in the place of an abandoned one; or
   * throw and change nothing.
   */
  ghost predicate Borrows<C>(pool: seq<C>, borrowed: set<C>, abandoned: set<C>, create: bool,
                             r: Borrowed<C>, pool': seq<C>, borrowed': set<C>) {
    if pool != [] then r == Lent(pool[0]) && pool' == pool[1..] && borrowed' == borrowed + {pool[0]}
    else if abandoned == {} then r.ConnectionUnavailable? && pool' == pool && borrowed' == borrowed
    else if !create then r.ConnectionImpossible? && pool' == pool && borrowed' == borrowed
    else
      && r.Lent? && r.conn !in borrowed && pool' == []
      && exists c :: c in abandoned && borrowed' == borrowed - {c} + {r.conn}
  }

  /** Whatever borrow does keeps the count, and what it lends was not borrowed before. */
  lemma {:induction false} BorrowKeepsShelves<C>(pool: seq<C>, borrowed: set<C>, abandoned: set<C>, create: bool,
      r: Borrowed<C>, pool': seq<C>, borrowed': set<C>, poolSize: nat)
    requires Shelved(pool, borrowed, poolSize) && abandoned <= borrowed
    requires Borrows(pool, borrowed, abandoned, create, r, pool', borrowed')
    ensures Shelved(pool', borrowed', poolSize)
    ensures r.Lent? ==> r.conn !in borrowed && r.conn in borrowed' && r.conn !in pool'
    ensures !r.Lent? <==> pool == [] && (abandoned == {} || !create)
  {
    if pool != [] {
      FrontMoves(pool, borrowed, poolSize);
    }
  }

  lemma {:induction false} FrontMoves<C>(pool: seq<C>, borrowed: set<C>, poolSize: nat)
    requires Shelved(pool, borrowed, poolSize) && pool != []
    ensures Shelved(pool[1..], borrowed + {pool[0]}, poolSize)
    ensures forall c :: c in pool <==> c == pool[0] || c in pool[1..]
    ensures [pool[0]] + pool[1..] == pool && pool[0] !in borrowed && pool[0] !in pool[1..]
  {
  }

  lemma {:induction false} OneReplaced<C>(pool: seq<C>, borrowed: set<C>, poolSize: nat, abandoned: C, conn: C)
    requires Shelved(pool, borrowed, poolSize) && pool == [] && abandoned in borrowed && conn !in borrowed
    ensures Shelved(pool, borrowed - {abandoned} + {conn}, poolSize)
    ensures borrowed - (borrowed - {abandoned} + {conn}) == {abandoned}
  {
    assert |borrowed - {abandoned} + {conn}| == |borrowed|;
  }

  /** Loans are of borrowed connections that the borrower references; nobody references a destroyed one. */
  ghost predicate Tracked<C>(pool: seq<C>, borrowed: set<C>, refs: multiset<(User, C)>, loans: map<C, User>,
                             destroyed: set<C>) {
    && (forall c :: c in loans ==> c in borrowed && (loans[c], c) in refs)
    && (forall p :: p in refs ==> p.1 in pool || p.1 in borrowed)
    && (forall c :: c in destroyed ==> c !in pool && c !in borrowed)
  }

  lemma {:induction false} FrontIsTracked<C>(pool: seq<C>, borrowed: set<C>, refs: multiset<(User, C)>,
      loans: map<C, User>, destroyed: set<C>, w: User, poolSize: nat)
    requires Shelved(pool, borrowed, poolSize) && Tracked(pool, borrowed, refs, loans, destroyed) && pool != []
    ensures pool[0] !in loans
    ensures Tracked(pool[1..], borrowed + {pool[0]}, refs + multiset{(w, pool[0])}, loans[pool[0] := w], destroyed)
  {
    FrontMoves(pool, borrowed, poolSize);
  }

  lemma {:induction false} NewIsTracked<C>(borrowed: set<C>, refs: multiset<(User, C)>, loans: map<C, User>,
      destroyed: set<C>, w: User, abandoned: C, conn: C)
    requires Tracked([], borrowed, refs, loans, destroyed) && conn !in borrowed && conn !in destroyed
    requires abandoned in borrowed && forall p :: p in refs ==> p.1 != abandoned
    ensures conn !in loans
    ensures Tracked([], borrowed - {abandoned} + {conn}, refs + multiset{(w, conn)}, loans[conn := w],
                    destroyed + {abandoned})
  {
  }

  class Pool {
    const poolSize: nat
    const store: Store
    var pool: seq<Connection>
    var borrowed: set<Connection>
    /** The shared pointers that exist outside the pool, each with the user that has it. */
    var refs: multiset<(User, Connection)>
    /** The user that each connection is on loan to: lent, not returned, and still referenced by the borrower. */
    ghost var loans: map<Connection, User>
    ghost var destroyed: set<Connection>

    /** No shared pointer outside the pool refers to the connection. */
    predicate Unique(c: Connection)
      reads `refs
    {
      forall p :: p in refs ==> p.1 != c
    }

    ghost function Abandoned(): set<Connection>
      reads `refs, `borrowed
    {
      set c | c in borrowed && Unique(c)
    }

    /** Free connections have nothing left to commit. */
    ghost predicate Clean()
      reads `pool, `borrowed, pool
    {
      && (forall c :: c in pool ==> c.pending == [] && c.store == store)
      && (forall c :: c in borrowed ==> c.store == store)
    }

    ghost predicate Valid()
      reads this, pool
    {
      Shelved(pool, borrowed, poolSize) && Tracked(pool, borrowed, refs, loans, destroyed) && Clean()
    }

    /** The members before the pool is filled. */
    constructor (poolSize: nat, store: Store)
      ensures this.poolSize == poolSize && this.store == store
      ensures pool == [] && borrowed == {} && refs == multiset{} && loans == map[] && destroyed == {}
    {
      this.poolSize, this.store := poolSize, store;
      pool, borrowed, refs, loans, destroyed := [], {}, multiset{}, map[], {};
    }

    /**
     * Construction: the pool is filled with new connections. The factory makes `creatable` of them and throws at
     * the next; the exception leaves no pool.
     */
    static method Make(poolSize: nat, store: Store, creatable: nat) returns (p: Option<Pool>)
      ensures p.Some? <==> poolSize <= creatable
      ensures p.Some? ==>
                && fresh(p.value) && p.value.Valid() && p.value.poolSize == poolSize == |p.value.pool|
                && p.value.store == store && p.value.borrowed == {} && p.value.loans == map[]
                && p.value.refs == multiset{} && forall c :: c in p.value.pool ==> fresh(c)
    {
      var made := new Pool(poolSize, store);
      while |made.pool| < made.poolSize
        invariant |made.pool| <= poolSize && |made.pool| <= creatable
        invariant made.borrowed == {} && made.refs == multiset{} && made.loans == map[] && made.destroyed == {}
        invariant forall i, j :: 0 <= i < j < |made.pool| ==> made.pool[i] != made.pool[j]
        invariant forall c :: c in made.pool ==> fresh(c) && c.pending == [] && c.store == store
      {
        if |made.pool| == creatable {
          return None;
        }
        var conn := new Connection(store);
        made.pool := made.pool + [conn];
      }
      return Some(made);
    }

    /** A borrowed connection that nobody references any more, if there is one. */
    method FindAbandoned() returns (c: Option<Connection>)
      ensures c.Some? ==> c.value in Abandoned() && c.value in borrowed && Unique(c.value)
      ensures c.None? ==> Abandoned() == {}
    {
      var todo := borrowed;
      while todo != {}
        invariant todo <= borrowed
        invariant forall b :: b in borrowed && b !in todo ==> !Unique(b)
      {
        var it :| it in todo;
        if Unique(it) {
          return Some(it);
        }
        todo := todo - {it};
      }
      return None;
    }

    /** Lends a connection with nothing to commit, never one that is on loan; a failure changes nothing. */
    method Borrow(w: User, create: bool) returns (r: Borrowed<Connection>)
      requires Valid()
      modifies this
      ensures Valid()
      ensures Borrows(old(pool), old(borrowed), old(Abandoned()), create, r, pool, borrowed)
      ensures !r.Lent? ==> unchanged(this)
      ensures r.Lent? ==>
                && r.conn !in old(loans) && loans == old(loans)[r.conn := w]
                && refs == old(refs) + multiset{(w, r.conn)}
                && r.conn.pending == [] && r.conn.store == store && (r.conn in old(pool) || fresh(r.conn))
                && destroyed == old(destroyed) + (old(borrowed) - borrowed)
    {
      hide Shelved, Tracked, Clean, Unique;
      assert old(borrowed) - (old(borrowed) + {}) == {};
      if |pool| == 0 {
        var abandoned := FindAbandoned();
        if abandoned.None? {
          return ConnectionUnavailable;
        }
        if !create {
          return ConnectionImpossible;
        }
        var conn := Replace(w, abandoned.value);
        return Lent(conn);
      }
      var conn := TakeFront(w);
      return Lent(conn);
    }

    /** The branch of borrow that destroys an abandoned connection and lends a new one. */
    method Replace(w: User, abandoned: Connection) returns (conn: Connection)
      requires Valid() && pool == [] && abandoned in borrowed && Unique(abandoned)
      modifies `borrowed, `refs, `loans, `destroyed
      ensures Valid() && fresh(conn) && conn.pending == [] && conn.store == store
      ensures borrowed == old(borrowed) - {abandoned} + {conn} && destroyed == old(destroyed) + {abandoned}
      ensures refs == old(refs) + multiset{(w, conn)} && conn !in old(loans) && loans == old(loans)[conn := w]
      ensures conn !in old(borrowed) && old(borrowed) - borrowed == {abandoned}
    {
      hide Shelved, Tracked;
      conn := new Connection(store);
      OneReplaced(pool, borrowed, poolSize, abandoned, conn);
      NewIsTracked(borrowed, refs, loans, destroyed, w, abandoned, conn);
      borrowed := borrowed - {abandoned};
      borrowed := borrowed + {conn};
      refs := refs + multiset{(w, conn)};
      destroyed := destroyed + {abandoned};
      loans := loans[conn := w];
    }

    /** The branch of borrow that lends the first free connection. */
    method TakeFront(w: User) returns (conn: Connection)
      requires Valid() && pool != []
      modifies `pool, `borrowed, `refs, `loans
      ensures Valid() && [conn] + pool == old(pool) && borrowed == old(borrowed) + {conn}
      ensures conn.pending == [] && conn.store == store && old(borrowed) - borrowed == {}
      ensures refs == old(refs) + multiset{(w, conn)} && conn !in old(loans) && loans == old(loans)[conn := w]
    {
      hide Shelved, Tracked;
      FrontMoves(pool, borrowed, poolSize);
      FrontIsTracked(pool, borrowed, refs, loans, destroyed, w, poolSize);
      conn := pool[0];
      pool := pool[1..];
      borrowed := borrowed + {conn};
      refs := refs + multiset{(w, conn)};
      loans := loans[conn := w];
    }

    /** Takes a connection back from its borrower, whose reference may linger; it must have nothing to commit. */
    method Unborrow(w: User, conn: Connection)
      requires Valid() && conn in loans && loans[conn] == w && conn.pending == []
      modifies this
      ensures Valid() && pool == old(pool) + [conn] && borrowed == old(borrowed) - {conn}
      ensures loans == old(loans) - {conn} && refs == old(refs) && destroyed == old(destroyed)
    {
      pool := pool + [conn];
      borrowed := borrowed - {conn};
      loans := loans - {conn};
    }

    /** A reference goes out of scope; with the borrower's last one the loan ends and the connection is abandoned. */
    method Drop(w: User, conn: Connection)
      requires Valid() && (w, conn) in refs
      modifies `refs, `loans
      ensures Valid() && refs == old(refs) - multiset{(w, conn)}
      ensures loans == if conn in old(loans) && old(loans)[conn] == w && (w, conn) !in refs
                       then old(loans) - {conn} else old(loans)
      ensures !old(Unique(conn))
    {
      refs := refs - multiset{(w, conn)};
      if conn in loans && loans[conn] == w && (w, conn) !in refs {
        loans := loans - {conn};
      }
    }
  }
}
