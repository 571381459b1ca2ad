/** The leave counter of an account: rejoining works it off, leaving a match is punished, and 5 is a ban. */
module LeavePenalty {
  import opened Words

  /** The administration row: the counter (Ditch) and the time of the last ban (Banned). */
  datatype Ban = Ban(left: int, stamp: nat)

  /** What a connecting player who rejoins pays off; a ban that is over clears the counter. */
  function Rejoin(b: Ban, banned: bool): Ban {
    if b.left > 0 then
      if b.left > 4 && !banned then b.(left := 0) else b.(left := b.left - 1)
    else b.(left := 0)
  }

  /** What a player who leaves is charged; the fifth charge bans from `now` on. */
  function Punish(b: Ban, now: nat): Ban {
    if b.left > 4 then b.(left := 1)
    else if b.left > 3 then Ban(5, now)
    else b.(left := b.left + 1)
  }

  datatype Transaction = Rejoining(banned: bool) | Punishing(now: nat)

  /** One transaction; it either commits as a whole or leaves the row alone. */
  function After(b: Ban, t: Transaction, commits: bool): Ban {
    if !commits then b
    else match t
      case Rejoining(banned) => Rejoin(b, banned)
      case Punishing(now) => Punish(b, now)
  }

  /** A finished run: the row and what happened since the row was created with stamp `created`. */
  datatype Run = Run(created: nat, steps: seq<(Transaction, bool)>)

  function Row(r: Run): Ban
    decreases |r.steps|
  {
    if r.steps == [] then Ban(0, r.created)
    else
      var last := r.steps[|r.steps| - 1];
      After(Row(Before(r)), last.0, last.1)
  }

  function Before(r: Run): Run
    requires r.steps != []
  {
    r.(steps := r.steps[..|r.steps| - 1])
  }

  predicate LastPunishes(r: Run)
    requires r.steps != []
  {
    r.steps[|r.steps| - 1].1 && r.steps[|r.steps| - 1].0.Punishing?
  }

  /** Punishments committed after the counter was last zero. */
  function PunishedSinceZero(r: Run): nat
    decreases |r.steps|
  {
    if r.steps == [] || Row(r).left == 0 then 0
    else PunishedSinceZero(Before(r)) + if LastPunishes(r) then 1 else 0
  }

  /** The last step of the run took the counter from four to five. */
  predicate Bans(r: Run) {
    r.steps != [] && LastPunishes(r) && Row(Before(r)).left == 4 && Row(r).left == 5
  }

  /** The time of the latest step from four to five. */
  function LatestBan(r: Run): Option<nat>
    decreases |r.steps|
  {
    if r.steps == [] then None
    else if Bans(r) then Some(r.steps[|r.steps| - 1].0.now)
    else LatestBan(Before(r))
  }

  /** The counter stays in 0..5 and never exceeds the punishments since it was last zero. */
  lemma {:induction false} CounterIsEarned(r: Run)
    ensures 0 <= Row(r).left <= 5 && Row(r).left <= PunishedSinceZero(r)
    decreases |r.steps|
  {
    if r.steps == [] {
    } else {
      CounterIsEarned(Before(r));
    }
  }

  /** The stamp is that of the latest step to five, or of the creation of the row; a counter of five has had one. */
  lemma {:induction false} StampIsOfLatestBan(r: Run)
    ensures Row(r).stamp == if LatestBan(r).Some? then LatestBan(r).value else r.created
    ensures Row(r).left == 5 ==> LatestBan(r).Some?
    decreases |r.steps|
  {
    if r.steps == [] {
    } else {
      StampIsOfLatestBan(Before(r));
      CounterIsEarned(Before(r));
    }
  }

  /** The stamp changes on no step but the one from four to five. */
  lemma {:induction false} StampChangesOnlyOnBan(r: Run)
    requires r.steps != []
    ensures Row(r).stamp != Row(Before(r)).stamp ==> Bans(r)
    ensures Row(r).left == 5 && Row(Before(r)).left != 5 ==> Bans(r)
  {
    CounterIsEarned(Before(r));
  }

  /**
   * Every step of a run, in numbers: a failed transaction changes nothing; a punishment takes a counter of 0 to 3
   * one up, 4 to a ban from now on, and a ban back to 1; a rejoin takes one off or clears a ban that is over.
   */
  lemma {:induction false} EveryStep(r: Run)
    requires r.steps != []
    ensures
      var (t, commits) := r.steps[|r.steps| - 1];
      var before, after := Row(Before(r)), Row(r);
      && 0 <= before.left <= 5
      && (!commits ==> after == before)
      && (commits && t.Punishing? ==>
            && (before.left <= 3 ==> after == Ban(before.left + 1, before.stamp))
            && (before.left == 4 ==> after == Ban(5, t.now))
            && (before.left == 5 ==> after == Ban(1, before.stamp)))
      && (commits && t.Rejoining? ==>
            && (before.left == 0 ==> after == before)
            && (1 <= before.left <= 4 ==> after == Ban(before.left - 1, before.stamp))
            && (before.left == 5 ==> after == Ban(if t.banned then 4 else 0, before.stamp)))
  {
    CounterIsEarned(Before(r));
  }

  /** Committed punishments of a run. */
  function Punishments(steps: seq<(Transaction, bool)>): nat {
    if steps == [] then 0
    else Punishments(steps[..|steps| - 1]) + if steps[|steps| - 1].0.Punishing? && steps[|steps| - 1].1 then 1 else 0
  }

  /**
   * Without a committed rejoin the counter counts the committed punishments: 1, 2, 3, 4, 5, and from 1 again.
   * Transactions that failed do not matter.
   */
  lemma {:induction false} PunishmentsCount(r: Run)
    requires forall i :: 0 <= i < |r.steps| && r.steps[i].0.Rejoining? ==> !r.steps[i].1
    ensures
      var k := Punishments(r.steps);
      Row(r).left == if k == 0 then 0 else (k - 1) % 5 + 1
    decreases |r.steps|
  {
    if r.steps == [] {
    } else {
      PunishmentsCount(Before(r));
      EveryStep(r);
    }
  }

  /** A rejoin takes one off the counter, clears a ban that is over, and always leaves the counter below a ban. */
  lemma {:induction false} RejoinWorksOff(r: Run, banned: bool)
    ensures Rejoin(Row(r), banned).left == if Row(r).left == 5 && !banned then 0 else Max(0, Row(r).left - 1)
    ensures Rejoin(Row(r), banned).left <= 4
  {
    CounterIsEarned(r);
  }

  /** The flag sent to the client: banned, with a counter above four after the connection's own transaction. */
  predicate Reported(b: Ban, rejoin: bool, banned: bool) {
    banned && (if rejoin then Rejoin(b, banned) else b).left > 4
  }

  /**
   * On every reachable row a player is reported as banned exactly if the ban lasts and it does not rejoin: the
   * rejoin takes the counter below the ban before the flag is computed.
   */
  lemma {:induction false} BanIsReportedUnlessRejoining(r: Run, rejoin: bool, banned: bool)
    ensures Reported(Row(r), rejoin, banned) <==> banned && Row(r).left == 5 && !rejoin
  {
    CounterIsEarned(r);
  }
}
