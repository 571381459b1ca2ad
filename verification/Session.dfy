/**
 * A worker's session with the database: it locks the rows of its account, serves the messages of the client and
 * commits at the end. Every call into the database may fail.
 */
module Session {
  import opened Database
  import opened LeavePenalty
  import opened Words

  /** A message to a worker; every name that is not a Publish ends the session. */
  datatype Message = PublishKills(n: int) | PublishChickens(n: int) | PublishAccount(a: Account) | Commit(punish: bool)

  /** The writes of the messages before the one that ends the session. */
  function Published(messages: seq<Message>): seq<Write> {
    if messages == [] || messages[0].Commit? then []
    else [WriteOf(messages[0])] + Published(messages[1..])
  }

  function WriteOf(m: Message): Write
    requires !m.Commit?
  {
    match m
    case PublishKills(n) => AddKills(n)
    case PublishChickens(n) => AddChickens(n)
    case PublishAccount(a) => SetAccount(a)
  }

  /** Whether the message that ends the session, if there is one, asks for a punishment. */
  function Ending(messages: seq<Message>): Option<bool> {
    if messages == [] then None
    else if messages[0].Commit? then Some(messages[0].punish)
    else Ending(messages[1..])
  }

  /** Serving the next message publishes one more write. */
  lemma {:induction false} PublishedOne(messages: seq<Message>, k: nat)
    requires k < |messages| && !messages[k].Commit? && forall i :: 0 <= i < k ==> !messages[i].Commit?
    ensures Published(messages[..k + 1]) == Published(messages[..k]) + [WriteOf(messages[k])]
    decreases k
  {
    if k == 0 {
      assert messages[..1][1..] == [];
      assert messages[..0] == [];
    } else {
      PublishedOne(messages[1..], k - 1);
      assert messages[..k + 1][1..] == messages[1..][..k];
      assert messages[..k][1..] == messages[1..][..k - 1];
    }
  }

  lemma {:induction false} PublishedAll(messages: seq<Message>, k: nat)
    requires k <= |messages| && forall i :: 0 <= i < k ==> !messages[i].Commit?
    ensures k == |messages| ==> Ending(messages) == None
    ensures k < |messages| && messages[k].Commit? ==>
              Ending(messages) == Some(messages[k].punish) && Published(messages[..k]) == Published(messages)
    decreases k
  {
    if k == 0 {
    } else {
      PublishedAll(messages[1..], k - 1);
      assert messages[..k][1..] == messages[1..][..k - 1];
    }
  }

  lemma {:induction false} PublishedOnAccount(messages: seq<Message>)
    ensures forall w :: w in Published(messages) ==> OnAccount(w)
  {
    if messages == [] || messages[0].Commit? {
    } else {
      PublishedOnAccount(messages[1..]);
    }
  }

  // ---------- What the published writes make of the account row ----------

  function SumOfKills(messages: seq<Message>): int {
    if messages == [] then 0
    else (if messages[0].PublishKills? then messages[0].n else 0) + SumOfKills(messages[1..])
  }

  function SumOfChickens(messages: seq<Message>): int {
    if messages == [] then 0
    else (if messages[0].PublishChickens? then messages[0].n else 0) + SumOfChickens(messages[1..])
  }

  lemma {:induction false} SumsGrow(messages: seq<Message>, m: Message)
    ensures SumOfKills(messages + [m]) == SumOfKills(messages) + if m.PublishKills? then m.n else 0
    ensures SumOfChickens(messages + [m]) == SumOfChickens(messages) + if m.PublishChickens? then m.n else 0
    decreases |messages|
  {
    if messages == [] {
      assert messages + [m] == [m];
    } else {
      SumsGrow(messages[1..], m);
      assert (messages + [m])[1..] == messages[1..] + [m];
    }
  }

  /** The row that is there, or the one that a new player gets. */
  function Begun(account: Option<Account>): Account {
    if account.Some? then account.value else Account(1, 0, 0, 0, 0, 0, 0)
  }

  predicate OnlyAdds(messages: seq<Message>) {
    forall i :: 0 <= i < |messages| ==> messages[i].PublishKills? || messages[i].PublishChickens?
  }

  predicate OnlyPublishes(messages: seq<Message>) {
    forall i :: 0 <= i < |messages| ==> !messages[i].Commit?
  }

  /** Kills and chickens are added up; nothing else changes. */
  lemma {:induction false} AddsAreSums(rows: Rows, messages: seq<Message>)
    requires OnlyAdds(messages)
    ensures
      var base := Begun(rows.account);
      Fold(rows, [CreateAccount] + Published(messages)).account ==
      Some(Account(base.rank, base.level, base.matches, base.wins, base.losses,
                   base.kills + SumOfKills(messages), base.chickens + SumOfChickens(messages)))
    decreases |messages|
  {
    if messages == [] {
      assert [CreateAccount] + Published(messages) == [] + [CreateAccount];
      FoldOne(rows, [], CreateAccount);
      FoldNone(rows);
    } else {
      var front, m := messages[..|messages| - 1], messages[|messages| - 1];
      AddsAreSums(rows, front);
      LastWrite(rows, front, m);
      SumsGrow(front, m);
      assert messages == front + [m];
    }
  }

  /** Serving one more message applies its write to the row as the messages before left it. */
  lemma {:induction false} LastWrite(rows: Rows, front: seq<Message>, m: Message)
    requires OnlyPublishes(front) && !m.Commit?
    ensures Fold(rows, [CreateAccount] + Published(front + [m]))
            == Apply(Fold(rows, [CreateAccount] + Published(front)), WriteOf(m))
  {
    hide Apply, Fold;
    var all := front + [m];
    PublishedOne(all, |front|);
    assert all[..|front|] == front && all[..|front| + 1] == all;
    assert [CreateAccount] + Published(all) == [CreateAccount] + Published(front) + [WriteOf(m)];
    FoldOne(rows, [CreateAccount] + Published(front), WriteOf(m));
  }

  lemma {:induction false} RowIsThere(rows: Rows, messages: seq<Message>)
    requires OnlyPublishes(messages)
    ensures Fold(rows, [CreateAccount] + Published(messages)).account.Some?
    decreases |messages|
  {
    if messages == [] {
      AddsAreSums(rows, messages);
    } else {
      var front, m := messages[..|messages| - 1], messages[|messages| - 1];
      RowIsThere(rows, front);
      LastWrite(rows, front, m);
      assert messages == front + [m];
    }
  }

  /** A published account replaces the row; kills and chickens published behind it are added to that. */
  lemma {:induction false} AddsBehindAccount(rows: Rows, front: seq<Message>, a: Account, adds: seq<Message>)
    requires OnlyPublishes(front) && OnlyAdds(adds)
    ensures Fold(rows, [CreateAccount] + Published(front + [PublishAccount(a)] + adds)).account ==
            Some(Account(a.rank, a.level, a.matches, a.wins, a.losses,
                         a.kills + SumOfKills(adds), a.chickens + SumOfChickens(adds)))
    decreases |adds|
  {
    if adds == [] {
      assert front + [PublishAccount(a)] + adds == front + [PublishAccount(a)];
      RowIsThere(rows, front);
      LastWrite(rows, front, PublishAccount(a));
    } else {
      var less, m := adds[..|adds| - 1], adds[|adds| - 1];
      assert adds == less + [m];
      AddsBehindAccount(rows, front, a, less);
      assert front + [PublishAccount(a)] + adds == front + [PublishAccount(a)] + less + [m];
      LastWrite(rows, front + [PublishAccount(a)] + less, m);
      SumsGrow(less, m);
    }
  }

  /** From `k` on there are only kills and chickens, and right before it a published account or nothing. */
  predicate TalliesFrom(before: Option<Account>, messages: seq<Message>, row: Account, k: nat) {
    && k <= |messages| && (k > 0 ==> messages[k - 1].PublishAccount?)
    && (forall i :: k <= i < |messages| ==> messages[i].PublishKills? || messages[i].PublishChickens?)
    && var base := if k == 0 then Begun(before) else messages[k - 1].a;
       row == Account(base.rank, base.level, base.matches, base.wins, base.losses,
                      base.kills + SumOfKills(messages[k..]), base.chickens + SumOfChickens(messages[k..]))
  }

  /** The row after these messages, told by the last account among them and the sums behind it. */
  ghost predicate Tallies(before: Option<Account>, messages: seq<Message>, row: Account) {
    exists k: nat :: TalliesFrom(before, messages, row, k)
  }

  ghost predicate Stored(before: Option<Account>, messages: seq<Message>, row: Option<Account>) {
    row.Some? && Tallies(before, messages, row.value)
  }

  /** The messages in front of the one that ends the session. */
  function Served(messages: seq<Message>): seq<Message> {
    if messages == [] || messages[0].Commit? then [] else [messages[0]] + Served(messages[1..])
  }

  lemma {:induction false} ServedPublishes(messages: seq<Message>)
    ensures OnlyPublishes(Served(messages)) && Published(Served(messages)) == Published(messages)
    decreases |messages|
  {
    if messages == [] || messages[0].Commit? {
    } else {
      ServedPublishes(messages[1..]);
      assert Served(messages)[1..] == Served(messages[1..]);
    }
  }

  /** Over every message sequence the fold of the published writes is the tally of the served messages. */
  lemma {:induction false} WritesTally(rows: Rows, messages: seq<Message>)
    ensures
      var row := Fold(rows, [CreateAccount] + Published(messages)).account;
      Stored(rows.account, Served(messages), row)
  {
    var served := Served(messages);
    ServedPublishes(messages);
    var k := AddsFrom(served);
    var adds := served[k..];
    assert forall i :: k <= i < |served| ==> served[i] == adds[i - k];
    if k == 0 {
      assert served[0..] == served;
      AddsAreSums(rows, served);
    } else {
      assert served == served[..k - 1] + [PublishAccount(served[k - 1].a)] + adds;
      AddsBehindAccount(rows, served[..k - 1], served[k - 1].a, adds);
    }
    assert TalliesFrom(rows.account, served, Fold(rows, [CreateAccount] + Published(served)).account.value, k);
  }

  /** Where the last published account leaves off. */
  lemma {:induction false} AddsFrom(messages: seq<Message>) returns (k: nat)
    requires OnlyPublishes(messages)
    ensures k <= |messages| && OnlyAdds(messages[k..]) && (k > 0 ==> messages[k - 1].PublishAccount?)
    decreases |messages|
  {
    if messages == [] {
      k := 0;
    } else if messages[|messages| - 1].PublishAccount? {
      k := |messages|;
    } else {
      var front := messages[..|messages| - 1];
      k := AddsFrom(front);
      assert messages[k..] == front[k..] + [messages[|messages| - 1]];
    }
  }

  /** Two tallies of the same messages are the same row. */
  lemma {:induction false} TallyIsUnique(before: Option<Account>, messages: seq<Message>, row: Account, row': Account)
    requires Tallies(before, messages, row) && Tallies(before, messages, row')
    ensures row == row'
  {
    var k: nat :| TalliesFrom(before, messages, row, k);
    var j: nat :| TalliesFrom(before, messages, row', j);
    assert k == j;
  }

  // ---------- The session ----------

  /** The administration row that the opening transaction leaves. */
  function OpenedBan(ban: Option<Ban>, now: nat, rejoin: bool, banned: bool): Ban {
    var b := if ban.Some? then ban.value else Ban(0, now);
    if rejoin then Rejoin(b, banned) else b
  }

  /** What the client is told when the session is open. */
  datatype Reply = Reply(account: Account, ban: Ban, flag: bool)

  /** The player's own transaction on the administration row, on the second connection. */
  method OpenBan(con2: Connection, rejoin: bool, banned: bool, now: nat) returns (stable: bool, ban: Ban)
    requires con2.pending == []
    modifies con2, con2.store
    ensures con2.store.rows.account == old(con2.store.rows.account)
    ensures
      var begun := Some(OpenedBan(old(con2.store.rows.ban), now, rejoin, banned));
      && (con2.store.rows.ban == old(con2.store.rows.ban) || con2.store.rows.ban == begun)
      && (stable ==> con2.store.rows.ban == begun == Some(ban) && con2.pending == [])
    ensures old(con2.store.failures) <= con2.store.failures
    ensures con2.store.failures == old(con2.store.failures) ==> stable
  {
    hide Fold, Rejoin;
    ghost var rows := con2.store.rows;
    assert Fold(rows, []) == rows by { FoldNone(rows); }
    FoldOne(rows, [], CreateBan(now));
    ban := Ban(0, now);
    stable := con2.Execute(CreateBan(now));
    if stable {
      var read := con2.GetBanData();
      stable := read.Some?;
      if stable {
        ban := read.value;
      }
    }
    if stable && rejoin {
      ban := Rejoin(ban, banned);
      FoldOne(rows, con2.pending, SetBan(ban));
      stable := con2.Execute(SetBan(ban));
    }
    if stable {
      stable := con2.CommitData();
    }
  }

  /**
   * The opening of a session. Its account writes stay in the first connection's transaction; the rejoin of the
   * player is committed at once on the second one.
   */
  method Open(con: Connection, con2: Connection, rejoin: bool, banned: bool, now: nat) returns (reply: Option<Reply>)
    requires con.store == con2.store && con != con2 && con.pending == con2.pending == []
    modifies con, con2, con.store
    ensures con.store.rows.account == old(con.store.rows.account)
    ensures con.store.rows.ban == old(con.store.rows.ban) ||
            con.store.rows.ban == Some(OpenedBan(old(con.store.rows.ban), now, rejoin, banned))
    ensures reply.Some? ==>
              && con.pending == [CreateAccount] && con2.pending == []
              && con.store.rows.ban == Some(reply.value.ban)
              && reply.value.ban == OpenedBan(old(con.store.rows.ban), now, rejoin, banned)
              && reply.value.account == Begun(old(con.store.rows.account))
    ensures reply.Some? && old(con.store.rows.ban).Some? ==>
              (reply.value.flag <==> Reported(old(con.store.rows.ban).value, rejoin, banned))
    ensures old(con.store.failures) <= con.store.failures
    ensures con.store.failures == old(con.store.failures) ==> reply.Some?
  {
    hide Rejoin;
    reply := None;
    AddsAreSums(con.store.rows, []);
    assert [CreateAccount] + Published([]) == [CreateAccount];
    var stable := con.Execute(CreateAccount);
    if stable {
      var account := con.GetAccount();
      stable := account.Some?;
      if stable {
        var ban;
        stable, ban := OpenBan(con2, rejoin, banned, now);
        if stable {
          reply := Some(Reply(account.value, ban, banned && ban.left > 4));
        }
      }
    }
  }

  /** The end of a session: the punishment is committed on the second connection, then the account on the first. */
  method End(con: Connection, con2: Connection, punish: bool, now: nat) returns (back: bool, back2: bool)
    requires con.store == con2.store && con != con2 && con2.pending == []
    requires forall w :: w in con.pending ==> OnAccount(w)
    modifies con, con2, con.store
    ensures
      var row := Fold(old(con.store.rows), old(con.pending)).account;
      && (con.store.rows.account == old(con.store.rows.account) || con.store.rows.account == row)
      && (back ==> con.store.rows.account == row && con.pending == [])
    ensures con.store.rows.ban == old(con.store.rows.ban) ||
            (punish && old(con.store.rows.ban).Some? && con.store.rows.ban == Some(Punish(old(con.store.rows.ban).value, now)))
    ensures back2 ==> con2.pending == []
    ensures back2 && punish ==>
              old(con.store.rows.ban).Some? && con.store.rows.ban == Some(Punish(old(con.store.rows.ban).value, now))
    ensures old(con.store.failures) <= con.store.failures
    ensures con.store.failures == old(con.store.failures) ==> back && (back2 <==> !punish || old(con.store.rows.ban).Some?)
    ensures !punish ==> back2 && con.store.rows.ban == old(con.store.rows.ban)
  {
    hide Fold, Punish, OnAccount;
    ghost var rows, writes := con.store.rows, con.pending;
    FoldNone(rows);
    back2 := !punish;
    if punish {
      var read := con2.GetBanData();
      if read.Some? {
        var ban := Punish(read.value, now);
        FoldOne(rows, [], SetBan(ban));
        var ok := con2.Execute(SetBan(ban));
        if ok {
          back2 := con2.CommitData();
        }
      }
    }
    RowsAreSeparate(con.store.rows, rows, writes);
    back := con.CommitData();
  }

  /** How a session ends: with a Commit message, by a failure that is reported, or not yet. */
  datatype Outcome = Committed | Crashed | Waiting

  /**
   * The whole session. Whatever fails, the durable account row is the one before the session or the tally of
   * all messages served, and the latter only after the client's Commit; a connection goes back to the pool only
   * with nothing left to commit. If no call fails, the session does not crash, and a Commit stores the tally and
   * the administration row and gives both connections back.
   */
  method Serve(con: Connection, con2: Connection, rejoin: bool, banned: bool, now: nat, later: nat, messages: seq<Message>)
      returns (ending: Outcome, reply: Option<Reply>, back: bool, back2: bool)
    requires con.store == con2.store && con != con2 && con.pending == con2.pending == []
    modifies con, con2, con.store
    ensures ending.Committed? ==> Ending(messages).Some?
    ensures ending.Waiting? ==> Ending(messages).None?
    ensures con.store.rows.account == old(con.store.rows.account) ||
            (ending.Committed? && Stored(old(con.store.rows.account), Served(messages), con.store.rows.account))
    ensures back ==>
              && ending.Committed? && con.pending == []
              && Stored(old(con.store.rows.account), Served(messages), con.store.rows.account)
    ensures
      var begun := OpenedBan(old(con.store.rows.ban), now, rejoin, banned);
      && (con.store.rows.ban == old(con.store.rows.ban) || con.store.rows.ban == Some(begun) ||
          (Ending(messages) == Some(true) && con.store.rows.ban == Some(Punish(begun, later))))
      && (back2 ==> con2.pending == [] && ending.Committed? &&
                    con.store.rows.ban == Some(if Ending(messages).value then Punish(begun, later) else begun))
    ensures reply.None? ==> ending.Crashed?
    ensures con.store.failures == old(con.store.failures) ==> !ending.Crashed? && (ending.Committed? ==> back && back2)
  {
    back, back2 := false, false;
    reply := Open(con, con2, rejoin, banned, now);
    if reply.None? {
      return Crashed, reply, back, back2;
    }
    hide Fold, Punish, Rejoin, OpenedBan, Published, Ending, Stored, Served;
    WritesTally(old(con.store.rows), messages);
    ghost var rows := con.store.rows;
    var retry, k := true, 0;
    assert messages[..0] == [] && [CreateAccount] + Published([]) == [CreateAccount] by { NothingPublished(); }
    while retry && k < |messages|
      invariant con.store.rows == rows && con2.pending == []
      invariant 0 <= k <= |messages| && forall i :: 0 <= i < k ==> !messages[i].Commit?
      invariant retry ==> con.pending == [CreateAccount] + Published(messages[..k])
      invariant old(con.store.failures) <= con.store.failures
      invariant con.store.failures == old(con.store.failures) ==> retry
      decreases |messages| - k
    {
      var msg := messages[k];
      if msg.Commit? {
        PublishedAll(messages, k);
        PublishedOnAccount(messages);
        RowsAreSeparate(rows, old(con.store.rows), con.pending);
        back, back2 := End(con, con2, msg.punish, later);
        return Committed, reply, back, back2;
      }
      PublishedOne(messages, k);
      retry := con.Execute(WriteOf(msg));
      k := k + 1;
    }
    PublishedAll(messages, k);
    return if retry then Waiting else Crashed, reply, back, back2;
  }

  lemma {:induction false} NothingPublished()
    ensures Published([]) == []
  {
  }

  /** What a session does to the administration row are steps of a penalty run, so the bounds of runs hold. */
  lemma {:induction false} SessionsAreRuns(r: Run, rejoin: bool, banned: bool, now: nat, later: nat)
    ensures
      var begun := r.(steps := r.steps + if rejoin then [(Rejoining(banned), true)] else []);
      var punished := begun.(steps := begun.steps + [(Punishing(later), true)]);
      && OpenedBan(Some(Row(r)), now, rejoin, banned) == Row(begun)
      && Punish(OpenedBan(Some(Row(r)), now, rejoin, banned), later) == Row(punished)
      && OpenedBan(None, now, rejoin, banned) == Row(Run(now, []))
  {
    var begun := r.(steps := r.steps + if rejoin then [(Rejoining(banned), true)] else []);
    var punished := begun.(steps := begun.steps + [(Punishing(later), true)]);
    if rejoin {
      assert Before(begun) == r;
    } else {
      assert begun == r;
    }
    assert Before(punished) == begun;
  }
}
