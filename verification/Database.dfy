/** The rows of one player, and connections that change them in transactions. */
module Database {
  import opened LeavePenalty
  import opened Words

  /** The columns of the account row. */
  datatype Account = Account(rank: int, level: int, matches: int, wins: int, losses: int, kills: int, chickens: int)

  const NEW_ACCOUNT := Account(1, 0, 0, 0, 0, 0, 0)

  /** What is stored for one player: the account row and the administration row, each absent before its creation. */
  datatype Rows = Rows(account: Option<Account>, ban: Option<Ban>)

  datatype Write =
    | CreateAccount
    | AddKills(n: int)
    | AddChickens(n: int)
    | SetAccount(a: Account)
    | CreateBan(now: nat)
    | SetBan(b: Ban)

  predicate OnAccount(w: Write) {
    w.CreateAccount? || w.AddKills? || w.AddChickens? || w.SetAccount?
  }

  /** One SQL statement: inserts ignore an existing row, updates a missing one. */
  function Apply(r: Rows, w: Write): Rows {
    match w
    case CreateAccount => if r.account.None? then r.(account := Some(NEW_ACCOUNT)) else r
    case AddKills(n) =>
      if r.account.Some? then r.(account := Some(r.account.value.(kills := r.account.value.kills + n))) else r
    case AddChickens(n) =>
      if r.account.Some? then r.(account := Some(r.account.value.(chickens := r.account.value.chickens + n))) else r
    case SetAccount(a) => if r.account.Some? then r.(account := Some(a)) else r
    case CreateBan(now) => if r.ban.None? then r.(ban := Some(Ban(0, now))) else r
    case SetBan(b) => if r.ban.Some? then r.(ban := Some(b)) else r
  }

  function Fold(r: Rows, ws: seq<Write>): Rows
    decreases |ws|
  {
    if ws == [] then r else Apply(Fold(r, ws[..|ws| - 1]), ws[|ws| - 1])
  }

  lemma {:induction false} FoldOne(r: Rows, ws: seq<Write>, w: Write)
    ensures Fold(r, ws + [w]) == Apply(Fold(r, ws), w)
  {
    assert (ws + [w])[..|ws|] == ws;
  }

  /** Account writes and administration writes do not see each other's row. */
  lemma {:induction false} RowsAreSeparate(r: Rows, q: Rows, ws: seq<Write>)
    ensures (forall w :: w in ws ==> OnAccount(w)) ==>
              Fold(r, ws).ban == r.ban && (r.account == q.account ==> Fold(r, ws).account == Fold(q, ws).account)
    ensures (forall w :: w in ws ==> !OnAccount(w)) ==>
              Fold(r, ws).account == r.account && (r.ban == q.ban ==> Fold(r, ws).ban == Fold(q, ws).ban)
    decreases |ws|
  {
    if ws == [] {
    } else {
      var shorter := ws[..|ws| - 1];
      assert forall w :: w in shorter ==> w in ws;
      assert ws[|ws| - 1] in ws;
      RowsAreSeparate(r, q, shorter);
    }
  }

  lemma {:induction false} FoldNone(r: Rows)
    ensures Fold(r, []) == r
  {
  }

  /** The durable rows of the player, and how many calls into the database have failed so far. */
  class Store {
    var rows: Rows
    ghost var failures: nat

    constructor (rows: Rows)
      ensures this.rows == rows && failures == 0
    {
      this.rows := rows;
      failures := 0;
    }
  }

  /** A connection with autocommit off: writes wait in the transaction until it commits. */
  class Connection {
    const store: Store
    var pending: seq<Write>

    constructor (store: Store)
      ensures this.store == store && pending == []
    {
      this.store := store;
      pending := [];
    }

    method Execute(w: Write) returns (ok: bool)
      modifies this, store`failures
      ensures pending == if ok then old(pending) + [w] else old(pending)
      ensures store.failures == old(store.failures) + if ok then 0 else 1
    {
      ok := *;
      if ok {
        pending := pending + [w];
      } else {
        store.failures := store.failures + 1;
      }
    }

    /** A commit that reports failure may or may not have taken effect. */
    method CommitData() returns (ok: bool)
      modifies this, store
      ensures store.rows == old(store.rows) || store.rows == Fold(old(store.rows), old(pending))
      ensures ok ==> pending == [] && store.rows == Fold(old(store.rows), old(pending))
      ensures store.failures == old(store.failures) + if ok then 0 else 1
    {
      ok := *;
      var reached: bool := *;
      if ok || reached {
        store.rows := Fold(store.rows, pending);
      }
      if ok {
        pending := [];
      } else {
        store.failures := store.failures + 1;
      }
    }

    /** Reads the account row as this transaction sees it; None if the call fails or there is no row. */
    method GetAccount() returns (account: Option<Account>)
      modifies store`failures
      ensures account.Some? ==> account == Fold(store.rows, pending).account
      ensures old(store.failures) <= store.failures
      ensures store.failures == old(store.failures) ==> account == Fold(store.rows, pending).account
    {
      var ok: bool := *;
      account := Fold(store.rows, pending).account;
      if !ok {
        account := None;
        store.failures := store.failures + 1;
      }
    }

    /** Reads the administration row as this transaction sees it; None if the call fails or there is no row. */
    method GetBanData() returns (ban: Option<Ban>)
      modifies store`failures
      ensures ban.Some? ==> ban == Fold(store.rows, pending).ban
      ensures old(store.failures) <= store.failures
      ensures store.failures == old(store.failures) ==> ban == Fold(store.rows, pending).ban
    {
      var ok: bool := *;
      ban := Fold(store.rows, pending).ban;
      if !ok {
        ban := None;
        store.failures := store.failures + 1;
      }
    }
  }
}
