/**
 * Workers that borrow connections, serve a session on them and give them back, while other workers do the same.
 * The pool is locked only inside one call of borrow or unborrow, so each step below is one such call, or what a
 * worker does to its own slots and its own connections between two of them.
 */
module Borrowing {
  import opened ConnectionPool
  import opened Database
  import opened Words

  type Conn = nat

  /** Where a worker stands; Replacing holds the result of borrow before the assignment to the first slot. */
  datatype Phase =
    | Looping
    | Replacing(lent: Conn)
    | Halfway
    | Checking(retry: bool, stable: bool)
    | GivingSecond
    | GivingFirst
    | Serving
    | Closing
    | Leaving
    | Gone

  /** The two slots of a worker, and the connections it has on loan. */
  datatype Worker = Worker(phase: Phase, con: Option<Conn>, con2: Option<Conn>, loans: set<Conn>)

  datatype State = State(size: nat, pool: seq<Conn>, borrowed: set<Conn>, workers: seq<Worker>, made: nat,
                         destroyed: set<Conn>, pending: map<Conn, seq<Write>>)

  /** `create` tells whether the factory can make a connection, `abandoned` which one the search comes upon first. */
  datatype Action =
    | Start
    | BorrowFirst(w: nat, create: bool, abandoned: Conn)
    | Assign(w: nat)
    | BorrowSecond(w: nat, create: bool, abandoned: Conn)
    | Check(w: nat, commit: bool)
    | GiveSecond(w: nat)
    | GiveFirst(w: nat)
    | Execute(w: nat, second: bool, write: Write)
    | CommitData(w: nat, second: bool, ok: bool)
    | ReturnSecond(w: nat, back: bool)
    | ReturnFirst(w: nat, back: bool)
    | Crash(w: nat)
    | Forget(w: nat)

  function Fill(size: nat): State {
    State(size, seq(size, i => i), {}, [], size, {}, map[])
  }

  function Only(slot: Option<Conn>): set<Conn> {
    if slot.Some? then {slot.value} else {}
  }

  /** The connections a worker has a shared pointer to. */
  function Refs(k: Worker): set<Conn> {
    Only(k.con) + Only(k.con2) + if k.phase.Replacing? then {k.phase.lent} else {}
  }

  predicate Referenced(workers: seq<Worker>, c: Conn) {
    exists i :: 0 <= i < |workers| && c in Refs(workers[i])
  }

  function Abandoned(s: State): set<Conn> {
    set c | c in s.borrowed && !Referenced(s.workers, c)
  }

  function Pending(pending: map<Conn, seq<Write>>, c: Conn): seq<Write> {
    if c in pending then pending[c] else []
  }

  /** The two slots hold different connections. */
  predicate Apart(k: Worker) {
    k.con.Some? && k.con2.Some? ==> k.con != k.con2
  }

  /** A call of borrow: its result and the pool afterwards; None if the search could not come upon `abandoned`. */
  function Borrow(s: State, create: bool, abandoned: Conn): Option<(Borrowed<Conn>, State)> {
    if s.pool != [] then
      Some((Lent(s.pool[0]), s.(pool := s.pool[1..], borrowed := s.borrowed + {s.pool[0]})))
    else if Abandoned(s) == {} then Some((ConnectionUnavailable, s))
    else if abandoned !in Abandoned(s) then None
    else if !create then Some((ConnectionImpossible, s))
    else
      Some((Lent(s.made), s.(borrowed := s.borrowed - {abandoned} + {s.made}, made := s.made + 1,
                             destroyed := s.destroyed + {abandoned})))
  }

  function Unborrow(s: State, c: Conn): (t: State)
    ensures t.workers == s.workers && t.pending == s.pending
  {
    s.(pool := s.pool + [c], borrowed := s.borrowed - {c})
  }

  function With(s: State, w: nat, k: Worker): State
    requires w < |s.workers|
  {
    s.(workers := s.workers[w := k])
  }

  /** The worker that acts; Start has none. */
  function Actor(a: Action): Option<nat> {
    match a
    case Start => None
    case _ => Some(a.w)
  }

  function Next(s: State, a: Action): Option<State> {
    if a.Start? then Some(s.(workers := s.workers + [Worker(Looping, None, None, {})]))
    else if a.w >= |s.workers| then None
    else
      var k := s.workers[a.w];
      match a
      case BorrowFirst(w, create, abandoned) =>
        var b := if k.phase.Looping? then Borrow(s, create, abandoned) else None;
        if b.None? then None
        else Some(With(b.value.1, w,
          match b.value.0
          case Lent(c) => k.(phase := Replacing(c), loans := k.loans + {c})
          case ConnectionUnavailable => k.(phase := Checking(true, true))
          case ConnectionImpossible => k.(phase := Checking(true, false))))
      case Assign(w) =>
        if k.phase.Replacing? then
          Some(With(s, w, k.(phase := Halfway, con := Some(k.phase.lent), loans := k.loans - Only(k.con))))
        else None
      case BorrowSecond(w, create, abandoned) =>
        var b := if k.phase.Halfway? then Borrow(s, create, abandoned) else None;
        if b.None? then None
        else Some(With(b.value.1, w,
          match b.value.0
          case Lent(c) => k.(phase := Checking(false, true), con2 := Some(c), loans := k.loans - Only(k.con2) + {c})
          case ConnectionUnavailable => k.(phase := Checking(true, true))
          case ConnectionImpossible => k.(phase := Checking(true, false))))
      case Check(w, commit) =>
        if k.phase.Checking? then
          Some(With(s, w, k.(phase :=
            if commit then if k.phase.retry then Leaving else GivingSecond
            else if !k.phase.retry then Serving
            else if k.phase.stable then Looping else Leaving)))
        else None
      case GiveSecond(w) =>
        if k.phase.GivingSecond? && k.con2.Some? then
          Some(With(Unborrow(s, k.con2.value), w, k.(phase := GivingFirst, loans := k.loans - {k.con2.value})))
        else None
      case GiveFirst(w) =>
        if k.phase.GivingFirst? && k.con.Some? then
          Some(With(Unborrow(s, k.con.value), w, k.(phase := Leaving, loans := k.loans - {k.con.value})))
        else None
      case Execute(w, second, write) =>
        var slot := if second then k.con2 else k.con;
        if k.phase.Serving? && slot.Some? then
          Some(s.(pending := s.pending[slot.value := Pending(s.pending, slot.value) + [write]]))
        else None
      case CommitData(w, second, ok) =>
        var slot := if second then k.con2 else k.con;
        if (k.phase.Serving? || (k.phase.Closing? && !second)) && slot.Some? then
          Some(if ok then s.(pending := s.pending[slot.value := []]) else s)
        else None
      case ReturnSecond(w, back) =>
        if k.phase.Serving? && k.con2.Some? && (back ==> Pending(s.pending, k.con2.value) == []) then
          var t := if back then Unborrow(s, k.con2.value) else s;
          Some(With(t, w, k.(phase := Closing, loans := if back then k.loans - {k.con2.value} else k.loans)))
        else None
      case ReturnFirst(w, back) =>
        if k.phase.Closing? && k.con.Some? && (back ==> Pending(s.pending, k.con.value) == []) then
          var t := if back then Unborrow(s, k.con.value) else s;
          Some(With(t, w, k.(phase := Leaving, loans := if back then k.loans - {k.con.value} else k.loans)))
        else None
      case Crash(w) => if k.phase.Serving? then Some(With(s, w, k.(phase := Leaving))) else None
      case Forget(w) =>
        if !k.phase.Leaving? then None
        else if k.con2.Some? then Some(With(s, w, k.(con2 := None, loans := k.loans - {k.con2.value})))
        else if k.con.Some? then Some(With(s, w, k.(con := None, loans := k.loans - {k.con.value})))
        else Some(With(s, w, k.(phase := Gone)))
  }

  function Run(size: nat, actions: seq<Action>): Option<State>
    decreases |actions|
  {
    if actions == [] then Some(Fill(size))
    else
      var before := Run(size, actions[..|actions| - 1]);
      if before.None? then None else Next(before.value, actions[|actions| - 1])
  }

  /** What a worker has on loan is what its slots hold, and where it stands tells which slots. */
  predicate SlotsFit(k: Worker) {
    && Apart(k) && k.loans <= Refs(k)
    && match k.phase
       case Looping => k.con2.None? && k.loans == Only(k.con)
       case Replacing(c) => k.con2.None? && k.con != Some(c) && k.loans == Only(k.con) + {c}
       case Halfway => k.con.Some? && k.con2.None? && k.loans == Only(k.con)
       case Checking(retry, _) => (if retry then k.con2.None? else k.con.Some? && k.con2.Some?) && k.loans == Refs(k)
       case GivingSecond => k.con.Some? && k.con2.Some? && k.loans == Refs(k)
       case GivingFirst => k.con.Some? && k.loans == Only(k.con)
       case Serving => k.con.Some? && k.con2.Some? && k.loans == Refs(k)
       case Closing => k.con.Some? && k.con.value in k.loans
       case Leaving => true
       case Gone => k.con.None? && k.con2.None?
  }

  predicate AllSlotsFit(s: State) {
    forall i :: 0 <= i < |s.workers| ==> SlotsFit(s.workers[i])
  }

  /** The pool loses no connection, and makes a new one only for one that it destroys. */
  ghost predicate Counted(s: State) {
    && Shelved(s.pool, s.borrowed, s.size)
    && (forall c :: c in s.pool || c in s.borrowed || c in s.destroyed ==> c < s.made)
    && (forall c :: c in s.destroyed ==> c !in s.pool && c !in s.borrowed)
    && (forall c :: c in s.pending ==> c < s.made)
  }

  /** Loans are borrowed connections, of one worker each; whatever a worker points to still exists. */
  predicate Exclusive(s: State) {
    && (forall i :: 0 <= i < |s.workers| ==> s.workers[i].loans <= s.borrowed)
    && (forall i, j :: 0 <= i < j < |s.workers| ==> s.workers[i].loans !! s.workers[j].loans)
    && (forall i, c :: 0 <= i < |s.workers| && c in Refs(s.workers[i]) ==> c in s.pool || c in s.borrowed)
  }

  predicate InSession(p: Phase) {
    p.Serving? || p.Closing? || p.Leaving?
  }

  /** Free connections, and those lent for a session that has not begun, have nothing to commit. */
  predicate Clean(s: State) {
    && (forall c :: c in s.pool ==> Pending(s.pending, c) == [])
    && (forall i, c :: 0 <= i < |s.workers| && !InSession(s.workers[i].phase) && c in s.workers[i].loans ==>
          Pending(s.pending, c) == [])
  }

  ghost predicate Invariant(s: State) {
    AllSlotsFit(s) && Counted(s) && Exclusive(s) && Clean(s)
  }

  /** The call of borrow is one that the pool class allows. */
  lemma {:induction false} BorrowIsThePools(s: State, create: bool, abandoned: Conn)
    requires Counted(s) && Borrow(s, create, abandoned).Some?
    ensures
      var (r, t) := Borrow(s, create, abandoned).value;
      Borrows(s.pool, s.borrowed, Abandoned(s), create, r, t.pool, t.borrowed)
  {
  }

  /** Lending the first free connection. */
  lemma {:induction false} FrontFacts(s: State)
    requires Invariant(s) && s.pool != []
    ensures
      var t := s.(pool := s.pool[1..], borrowed := s.borrowed + {s.pool[0]});
      Counted(t) && Exclusive(t) && Clean(t)
    ensures s.pool[0] !in s.borrowed && Pending(s.pending, s.pool[0]) == []
  {
    hide SlotsFit, Pending;
    FrontMoves(s.pool, s.borrowed, s.size);
  }

  /** Putting a new connection in the place of one that nobody references. */
  lemma {:induction false} ReplaceFacts(s: State, abandoned: Conn)
    requires Invariant(s) && s.pool == [] && abandoned in Abandoned(s)
    ensures
      var t := s.(borrowed := s.borrowed - {abandoned} + {s.made}, made := s.made + 1,
                  destroyed := s.destroyed + {abandoned});
      Counted(t) && Exclusive(t) && Clean(t)
    ensures s.made !in s.borrowed && Pending(s.pending, s.made) == []
  {
    OneReplaced(s.pool, s.borrowed, s.size, abandoned, s.made);
    forall i | 0 <= i < |s.workers| ensures abandoned !in Refs(s.workers[i]) && abandoned !in s.workers[i].loans {
      assert !Referenced(s.workers, abandoned);
      assert SlotsFit(s.workers[i]);
    }
    hide SlotsFit, Shelved, Refs;
  }

  /** What a call of borrow leaves alone, and what it lends: nothing on loan to anybody, and nothing to commit. */
  lemma {:induction false} BorrowFacts(s: State, create: bool, abandoned: Conn)
    requires Invariant(s) && Borrow(s, create, abandoned).Some?
    ensures
      var (r, t) := Borrow(s, create, abandoned).value;
      && t.workers == s.workers && t.pending == s.pending && Counted(t) && Exclusive(t) && Clean(t)
      && (r.Lent? ==>
            && r.conn in t.borrowed && Pending(s.pending, r.conn) == []
            && forall i :: 0 <= i < |s.workers| ==> r.conn !in s.workers[i].loans)
  {
    hide SlotsFit, Counted, Clean, Refs;
    if s.pool != [] {
      FrontFacts(s);
    } else if Borrow(s, create, abandoned).value.0.Lent? {
      ReplaceFacts(s, abandoned);
    }
  }

  /** One worker's new record fits beside the others. */
  lemma {:induction false} RecordFits(s: State, w: nat, k: Worker)
    requires w < |s.workers| && Exclusive(s)
    requires k.loans <= s.borrowed && forall c :: c in Refs(k) ==> c in s.pool || c in s.borrowed
    requires forall i :: 0 <= i < |s.workers| && i != w ==> s.workers[i].loans !! k.loans
    ensures Exclusive(With(s, w, k))
  {
  }

  lemma {:induction false} SlotsKept(s: State, a: Action)
    requires Invariant(s) && Next(s, a).Some?
    ensures AllSlotsFit(Next(s, a).value)
  {
    hide Borrow, Abandoned, Referenced, Counted, Clean, Pending;
    var t := Next(s, a).value;
    if a.BorrowFirst? || a.BorrowSecond? {
      BorrowFacts(s, a.create, a.abandoned);
    }
    forall i | 0 <= i < |t.workers| ensures SlotsFit(t.workers[i]) {
      if i < |s.workers| {
        assert SlotsFit(s.workers[i]);
      }
    }
  }

  /** A worker that gives back one of its loans, with nothing to commit. */
  lemma {:induction false} UnborrowFacts(s: State, w: nat, c: Conn)
    requires Invariant(s) && w < |s.workers| && c in s.workers[w].loans && Pending(s.pending, c) == []
    ensures
      var t := Unborrow(s, c);
      && Counted(t) && t.workers == s.workers && t.pending == s.pending
      && (forall x :: x in t.pool ==> Pending(t.pending, x) == [])
      && (forall i :: 0 <= i < |s.workers| && i != w ==> s.workers[i].loans <= t.borrowed)
      && s.workers[w].loans - {c} <= t.borrowed
      && (forall x :: x in s.pool || x in s.borrowed ==> x in t.pool || x in t.borrowed)
  {
    hide SlotsFit, Refs, Pending;
  }

  /** The loan that a give-back step returns. */
  lemma {:induction false} GiveBackFacts(s: State, a: Action)
    requires Invariant(s) && Next(s, a).Some?
    requires a.GiveSecond? || a.GiveFirst? || ((a.ReturnSecond? || a.ReturnFirst?) && a.back)
    ensures
      var k := s.workers[a.w];
      var c := if a.GiveSecond? || a.ReturnSecond? then k.con2.value else k.con.value;
      && c in k.loans && Pending(s.pending, c) == []
      && |Next(s, a).value.workers| == |s.workers|
      && var k' := Next(s, a).value.workers[a.w];
         Next(s, a).value == With(Unborrow(s, c), a.w, k') && k'.loans == k.loans - {c} && Refs(k') == Refs(k)
  {
    hide Counted, Exclusive, Pending;
    var k := s.workers[a.w];
    assert SlotsFit(k);
    var c := if a.GiveSecond? || a.ReturnSecond? then k.con2.value else k.con.value;
    assert c in k.loans;
    var k' := Next(s, a).value.workers[a.w];
    assert Next(s, a).value == With(Unborrow(s, c), a.w, k');
  }

  lemma {:induction false} CountedKept(s: State, a: Action)
    requires Invariant(s) && Next(s, a).Some?
    ensures Counted(Next(s, a).value)
  {
    hide Borrow, Shelved, Clean, Pending, Unborrow;
    if a.BorrowFirst? || a.BorrowSecond? {
      BorrowFacts(s, a.create, a.abandoned);
    } else if a.GiveSecond? || a.GiveFirst? || ((a.ReturnSecond? || a.ReturnFirst?) && a.back) {
      GiveBackFacts(s, a);
      var k := s.workers[a.w];
      UnborrowFacts(s, a.w, if a.GiveSecond? || a.ReturnSecond? then k.con2.value else k.con.value);
    } else if a.Execute? || a.CommitData? {
      assert SlotsFit(s.workers[a.w]);
    }
  }

  /** A worker's record beside the others once it gave a loan back. */
  lemma {:induction false} GivenBackFits(s: State, w: nat, c: Conn, k: Worker)
    requires Invariant(s) && w < |s.workers| && c in s.workers[w].loans && Pending(s.pending, c) == []
    requires k.loans == s.workers[w].loans - {c} && Refs(k) == Refs(s.workers[w])
    ensures Exclusive(With(Unborrow(s, c), w, k))
  {
    UnborrowFacts(s, w, c);
    hide SlotsFit, Refs, Counted, Clean, Unborrow, Pending;
    var t, u := Unborrow(s, c), With(Unborrow(s, c), w, k);
    assert forall i :: 0 <= i < |u.workers| ==> u.workers[i].loans <= s.workers[i].loans && u.workers[i].loans <= t.borrowed;
    forall i, x | 0 <= i < |u.workers| && x in Refs(u.workers[i]) ensures x in u.pool || x in u.borrowed {
      assert x in Refs(s.workers[i]);
    }
  }

  lemma {:induction false} ExclusiveKept(s: State, a: Action)
    requires Invariant(s) && Next(s, a).Some?
    ensures Exclusive(Next(s, a).value)
  {
    hide Borrow, Counted, Clean, Pending, Unborrow, Exclusive;
    var t := Next(s, a).value;
    if a.Start? {
      NewcomerFits(s);
    } else if a.GiveSecond? || a.GiveFirst? || ((a.ReturnSecond? || a.ReturnFirst?) && a.back) {
      GiveBackFacts(s, a);
      var k := s.workers[a.w];
      var c := if a.GiveSecond? || a.ReturnSecond? then k.con2.value else k.con.value;
      GivenBackFits(s, a.w, c, t.workers[a.w]);
    } else if a.BorrowFirst? || a.BorrowSecond? {
      BorrowFacts(s, a.create, a.abandoned);
      var (r, u) := Borrow(s, a.create, a.abandoned).value;
      LendingFits(s, u, a.w, t.workers[a.w], r);
    } else {
      SmallerFits(s, t, a.w);
    }
  }

  lemma {:induction false} NewcomerFits(s: State)
    requires Exclusive(s)
    ensures Exclusive(s.(workers := s.workers + [Worker(Looping, None, None, {})]))
  {
  }

  lemma {:induction false} LendingFits(s: State, t: State, w: nat, k: Worker, r: Borrowed<Conn>)
    requires w < |s.workers| && t.workers == s.workers && Exclusive(t)
    requires r.Lent? ==> r.conn in t.borrowed && forall i :: 0 <= i < |s.workers| ==> r.conn !in s.workers[i].loans
    requires k.loans <= s.workers[w].loans + if r.Lent? then {r.conn} else {}
    requires Refs(k) <= Refs(s.workers[w]) + if r.Lent? then {r.conn} else {}
    ensures Exclusive(With(t, w, k))
  {
    hide Refs;
    RecordFits(t, w, k);
  }

  lemma {:induction false} SmallerFits(s: State, t: State, w: nat)
    requires w < |s.workers| && Exclusive(s) && t.pool == s.pool && t.borrowed == s.borrowed
    requires |t.workers| == |s.workers| && t.workers == s.workers[w := t.workers[w]]
    requires t.workers[w].loans <= s.workers[w].loans && Refs(t.workers[w]) <= Refs(s.workers[w])
    ensures Exclusive(t)
  {
    hide Refs;
    RecordFits(s, w, t.workers[w]);
  }

  lemma {:induction false} CleanKept(s: State, a: Action)
    requires Invariant(s) && Next(s, a).Some?
    ensures Clean(Next(s, a).value)
  {
    hide Borrow, Counted, Pending, Unborrow, Exclusive;
    var t := Next(s, a).value;
    if a.Start? {
    } else if a.GiveSecond? || a.GiveFirst? || ((a.ReturnSecond? || a.ReturnFirst?) && a.back) {
      GiveBackFacts(s, a);
      var k := s.workers[a.w];
      UnborrowFacts(s, a.w, if a.GiveSecond? || a.ReturnSecond? then k.con2.value else k.con.value);
    } else if a.BorrowFirst? || a.BorrowSecond? {
      BorrowFacts(s, a.create, a.abandoned);
    } else if a.Execute? || a.CommitData? {
      WritesStayApart(s, a);
    }
  }

  /** A session writes only on its own connections, which nobody else has on loan and which are not free. */
  lemma {:induction false} WritesStayApart(s: State, a: Action)
    requires Invariant(s) && Next(s, a).Some? && (a.Execute? || a.CommitData?)
    ensures Clean(Next(s, a).value)
  {
    var k := s.workers[a.w];
    assert SlotsFit(k);
    var c := if a.second then k.con2.value else k.con.value;
    assert c in k.loans;
    assert c in s.borrowed && c !in s.pool;
    hide SlotsFit, Borrow, Shelved, Refs;
    var t := Next(s, a).value;
    assert t.workers == s.workers && t.pool == s.pool;
    assert forall x :: x != c ==> Pending(t.pending, x) == Pending(s.pending, x);
    forall i | 0 <= i < |s.workers| && !InSession(s.workers[i].phase) ensures c !in s.workers[i].loans {
      assert i != a.w;
    }
  }

  /** Every state that any interleaving of any number of workers reaches keeps the whole invariant. */
  lemma {:induction false} EveryRun(size: nat, actions: seq<Action>)
    requires Run(size, actions).Some?
    ensures Invariant(Run(size, actions).value) && Run(size, actions).value.size == size
    decreases |actions|
  {
    if actions == [] {
      assert Fill(size).pool == seq(size, i => i);
    } else {
      var shorter, a := actions[..|actions| - 1], actions[|actions| - 1];
      EveryRun(size, shorter);
      var s := Run(size, shorter).value;
      SlotsKept(s, a);
      CountedKept(s, a);
      ExclusiveKept(s, a);
      CleanKept(s, a);
      SizeStays(s, a);
    }
  }

  lemma {:induction false} SizeStays(s: State, a: Action)
    requires Next(s, a).Some?
    ensures Next(s, a).value.size == s.size
  {
  }

  /** In every run the pool and the loans fit together, and a connection that was destroyed is referenced nowhere. */
  lemma {:induction false} LoansAreSafe(size: nat, actions: seq<Action>)
    requires Run(size, actions).Some?
    ensures
      var s := Run(size, actions).value;
      && |s.pool| + |s.borrowed| == size
      && (forall c :: c in s.pool ==> c !in s.borrowed)
      && (forall w, c :: 0 <= w < |s.workers| && c in s.workers[w].loans ==>
            && c in s.borrowed && c in Refs(s.workers[w])
            && forall v :: 0 <= v < |s.workers| && v != w ==> c !in s.workers[v].loans)
      && (forall w, c :: 0 <= w < |s.workers| && c in Refs(s.workers[w]) ==> c !in s.destroyed)
  {
    EveryRun(size, actions);
    var s := Run(size, actions).value;
    assert forall w :: 0 <= w < |s.workers| ==> SlotsFit(s.workers[w]);
    hide Run, SlotsFit, Refs;
  }

  /**
   * In every run a step of one worker leaves the slots and the loans of every other worker as they are, what is
   * on loan to it borrowed, and what waits to be committed there untouched.
   */
  lemma {:induction false} OthersAreLeftAlone(size: nat, actions: seq<Action>, a: Action, v: nat)
    requires Run(size, actions).Some? && Next(Run(size, actions).value, a).Some?
    requires v < |Run(size, actions).value.workers| && Actor(a) != Some(v)
    ensures
      var s, t := Run(size, actions).value, Next(Run(size, actions).value, a).value;
      && v < |t.workers| && t.workers[v] == s.workers[v]
      && (forall c :: c in s.workers[v].loans ==> c in t.borrowed && Pending(t.pending, c) == Pending(s.pending, c))
      && (forall c :: c in Refs(s.workers[v]) ==> c !in t.destroyed)
  {
    EveryRun(size, actions);
    hide Run;
    var s, t := Run(size, actions).value, Next(Run(size, actions).value, a).value;
    RecordStays(s, a, v);
    CountedKept(s, a);
    ExclusiveKept(s, a);
    if a.Execute? || a.CommitData? {
      assert SlotsFit(s.workers[a.w]);
      assert s.workers[a.w].loans !! s.workers[v].loans;
    }
    PendingStays(s, a);
    hide Next, SlotsFit, Refs, Shelved;
  }

  lemma {:induction false} RecordStays(s: State, a: Action, v: nat)
    requires Next(s, a).Some? && v < |s.workers| && Actor(a) != Some(v)
    ensures v < |Next(s, a).value.workers| && Next(s, a).value.workers[v] == s.workers[v]
  {
  }

  lemma {:induction false} PendingStays(s: State, a: Action)
    requires Next(s, a).Some?
    ensures !a.Execute? && !a.CommitData? ==> Next(s, a).value.pending == s.pending
    ensures a.Execute? || a.CommitData? ==>
              var k := s.workers[a.w];
              forall c :: c !in (if a.second then Only(k.con2) else Only(k.con)) ==>
                Pending(Next(s, a).value.pending, c) == Pending(s.pending, c)
  {
  }

  /**
   * In every run a worker that begins its session has two different connections on loan, to itself alone, with
   * nothing to commit on either: what the session asks for.
   */
  lemma {:induction false} SessionsBeginClean(size: nat, actions: seq<Action>, w: nat)
    requires Run(size, actions).Some? && w < |Run(size, actions).value.workers|
    requires Run(size, actions).value.workers[w].phase == Checking(false, true)
    ensures
      var s := Run(size, actions).value;
      var k := s.workers[w];
      && k.con.Some? && k.con2.Some? && k.con != k.con2 && k.loans == {k.con.value, k.con2.value}
      && Pending(s.pending, k.con.value) == [] && Pending(s.pending, k.con2.value) == []
      && forall v :: 0 <= v < |s.workers| && v != w ==> s.workers[v].loans !! k.loans
    ensures
      var s := Run(size, actions).value;
      Run(size, actions + [Check(w, false)]) == Some(s.(workers := s.workers[w := s.workers[w].(phase := Serving)]))
  {
    EveryRun(size, actions);
    OneStep(size, actions, Check(w, false));
    hide Run;
    var s := Run(size, actions).value;
    assert SlotsFit(s.workers[w]);
    assert s.workers[w].con.value in s.workers[w].loans && s.workers[w].con2.value in s.workers[w].loans;
  }

  /** In every run a worker that is gone has left no loan and no reference behind. */
  lemma {:induction false} NothingStaysBehind(size: nat, actions: seq<Action>, w: nat)
    requires Run(size, actions).Some? && w < |Run(size, actions).value.workers|
    requires Run(size, actions).value.workers[w].phase.Gone?
    ensures
      var k := Run(size, actions).value.workers[w];
      k.loans == {} && Refs(k) == {}
  {
    EveryRun(size, actions);
    hide Run;
    assert SlotsFit(Run(size, actions).value.workers[w]);
  }

  // ---------- Where a worker's own steps lead it ----------

  lemma {:induction false} OneStep(size: nat, actions: seq<Action>, a: Action)
    requires Run(size, actions).Some?
    ensures Run(size, actions + [a]) == Next(Run(size, actions).value, a)
  {
    hide Next;
    assert (actions + [a])[..|actions|] == actions;
  }

  lemma {:induction false} RecordTwice(s: State, w: nat, j: Worker, k: Worker)
    requires w < |s.workers|
    ensures With(With(s, w, j), w, k) == With(s, w, k)
  {
    assert s.workers[w := j][w := k] == s.workers[w := k];
  }

  /** Some worker has a shared pointer to the connection. */
  predicate InUse(s: State, c: Conn) {
    exists i :: 0 <= i < |s.workers| &&
      (s.workers[i].con == Some(c) || s.workers[i].con2 == Some(c) || s.workers[i].phase == Replacing(c))
  }

  lemma {:induction false} InUseIsReferenced(s: State, c: Conn)
    ensures InUse(s, c) <==> Referenced(s.workers, c)
  {
    if InUse(s, c) {
      var i :| 0 <= i < |s.workers| &&
        (s.workers[i].con == Some(c) || s.workers[i].con2 == Some(c) || s.workers[i].phase == Replacing(c));
      assert c in Refs(s.workers[i]);
    }
  }

  /** The call of borrow that a worker makes where it stands. */
  function BorrowNext(k: Worker, w: nat, create: bool, abandoned: Conn): Action {
    if k.phase.Looping? then BorrowFirst(w, create, abandoned) else BorrowSecond(w, create, abandoned)
  }

  /** With nothing free and nothing abandoned a worker is back at the top of its loop, or leaves on a Commit. */
  lemma {:induction false} UnavailableTriesAgain(
      size: nat, actions: seq<Action>, w: nat, create: bool, abandoned: Conn, commit: bool)
    requires Run(size, actions).Some?
    requires
      var s := Run(size, actions).value;
      && w < |s.workers| && (s.workers[w].phase.Looping? || s.workers[w].phase.Halfway?)
      && s.pool == [] && forall c :: c in s.borrowed ==> InUse(s, c)
    ensures
      var s := Run(size, actions).value;
      var k := s.workers[w];
      Run(size, actions + [BorrowNext(k, w, create, abandoned)] + [Check(w, commit)]) ==
      Some(s.(workers := s.workers[w := k.(phase := if commit then Leaving else Looping)]))
  {
    hide Run, Referenced;
    var s := Run(size, actions).value;
    var a := BorrowNext(s.workers[w], w, create, abandoned);
    forall c | c in s.borrowed ensures Referenced(s.workers, c) {
      InUseIsReferenced(s, c);
    }
    assert Abandoned(s) == {};
    OneStep(size, actions, a);
    OneStep(size, actions + [a], Check(w, commit));
    var waits := s.workers[w].(phase := Checking(true, true));
    RecordTwice(s, w, waits, waits.(phase := if commit then Leaving else Looping));
  }

  /** With nothing free, something abandoned and no new connection to be had, a worker leaves. */
  lemma {:induction false} ImpossibleGivesUp(size: nat, actions: seq<Action>, w: nat, abandoned: Conn, commit: bool)
    requires Run(size, actions).Some?
    requires
      var s := Run(size, actions).value;
      && w < |s.workers| && (s.workers[w].phase.Looping? || s.workers[w].phase.Halfway?)
      && s.pool == [] && abandoned in s.borrowed && !InUse(s, abandoned)
    ensures
      var s := Run(size, actions).value;
      var k := s.workers[w];
      Run(size, actions + [BorrowNext(k, w, false, abandoned)] + [Check(w, commit)]) ==
      Some(s.(workers := s.workers[w := k.(phase := Leaving)]))
  {
    hide Run, Referenced;
    var s := Run(size, actions).value;
    var a := BorrowNext(s.workers[w], w, false, abandoned);
    InUseIsReferenced(s, abandoned);
    assert abandoned in Abandoned(s);
    OneStep(size, actions, a);
    OneStep(size, actions + [a], Check(w, commit));
    var fails := s.workers[w].(phase := Checking(true, false));
    RecordTwice(s, w, fails, fails.(phase := Leaving));
  }

  /** With nothing free and a new connection to be had, it takes the place of an abandoned one and is lent. */
  lemma {:induction false} AbandonedIsReplaced(size: nat, actions: seq<Action>, w: nat, abandoned: Conn)
    requires Run(size, actions).Some?
    requires
      var s := Run(size, actions).value;
      && w < |s.workers| && (s.workers[w].phase.Looping? || s.workers[w].phase.Halfway?)
      && s.pool == [] && abandoned in s.borrowed && !InUse(s, abandoned)
    ensures
      var s := Run(size, actions).value;
      var k, made := s.workers[w], s.made;
      var t := Run(size, actions + [BorrowNext(k, w, true, abandoned)]);
      && t.Some? && t.value.pool == [] && t.value.borrowed == s.borrowed - {abandoned} + {made}
      && t.value.destroyed == s.destroyed + {abandoned} && t.value.pending == s.pending
      && t.value.workers == s.workers[w :=
           if k.phase.Looping? then Worker(Replacing(made), k.con, k.con2, k.loans + {made})
           else Worker(Checking(false, true), k.con, Some(made), k.loans + {made})]
  {
    EveryRun(size, actions);
    hide Run, Referenced;
    var s := Run(size, actions).value;
    var a := BorrowNext(s.workers[w], w, true, abandoned);
    assert SlotsFit(s.workers[w]);
    InUseIsReferenced(s, abandoned);
    assert abandoned in Abandoned(s);
    OneStep(size, actions, a);
  }

  lemma {:induction false} FirstIsLent(s: State, w: nat, create: bool, abandoned: Conn)
    requires w < |s.workers| && s.workers[w].phase.Looping? && s.pool != []
    requires SlotsFit(s.workers[w]) && Some(s.pool[0]) != s.workers[w].con
    ensures
      var c := s.pool[0];
      var t := Next(s, BorrowFirst(w, create, abandoned));
      && t.Some?
      && Next(t.value, Assign(w)) ==
         Some(s.(pool := s.pool[1..], borrowed := s.borrowed + {c},
                 workers := s.workers[w := Worker(Halfway, Some(c), None, {c})]))
  {
    hide Abandoned;
    var k, c := s.workers[w], s.pool[0];
    var t := s.(pool := s.pool[1..], borrowed := s.borrowed + {c});
    assert k.loans + {c} - Only(k.con) == {c};
    RecordTwice(t, w, k.(phase := Replacing(c), loans := k.loans + {c}), Worker(Halfway, Some(c), None, {c}));
  }

  /** `was` is the list of workers before the first connection was lent. */
  lemma {:induction false} SecondIsLent(s: State, w: nat, first: Conn, create: bool, abandoned: Conn, was: seq<Worker>)
    requires w < |was| && s.pool != []
    ensures
      Next(s.(workers := was[w := Worker(Halfway, Some(first), None, {first})]), BorrowSecond(w, create, abandoned)) ==
      Some(s.(pool := s.pool[1..], borrowed := s.borrowed + {s.pool[0]},
              workers := was[w := Worker(Checking(false, true), Some(first), Some(s.pool[0]), {first, s.pool[0]})]))
  {
    hide Abandoned;
    assert {first} - {} + {s.pool[0]} == {first, s.pool[0]};
    RecordTwice(s.(pool := s.pool[1..], borrowed := s.borrowed + {s.pool[0]}, workers := was), w,
      Worker(Halfway, Some(first), None, {first}),
      Worker(Checking(false, true), Some(first), Some(s.pool[0]), {first, s.pool[0]}));
  }

  /** With two connections free a worker borrows both, and is ready for its session. */
  lemma {:induction false} BothAreLent(size: nat, actions: seq<Action>, w: nat, create: bool, abandoned: Conn)
    requires Run(size, actions).Some?
    requires
      var s := Run(size, actions).value;
      && w < |s.workers| && s.workers[w].phase.Looping? && |s.pool| >= 2
    ensures
      var s := Run(size, actions).value;
      var first, second := s.pool[0], s.pool[1];
      Run(size, actions + [BorrowFirst(w, create, abandoned)] + [Assign(w)] + [BorrowSecond(w, create, abandoned)]) ==
      Some(s.(pool := s.pool[2..], borrowed := s.borrowed + {first, second},
              workers := s.workers[w := Worker(Checking(false, true), Some(first), Some(second), {first, second})]))
  {
    EveryRun(size, actions);
    hide Run, Next, Counted, Exclusive, Clean;
    var s := Run(size, actions).value;
    assert SlotsFit(s.workers[w]);
    OneStep(size, actions, BorrowFirst(w, create, abandoned));
    OneStep(size, actions + [BorrowFirst(w, create, abandoned)], Assign(w));
    OneStep(size, actions + [BorrowFirst(w, create, abandoned)] + [Assign(w)], BorrowSecond(w, create, abandoned));
    FirstIsLent(s, w, create, abandoned);
    SecondIsLent(s.(pool := s.pool[1..], borrowed := s.borrowed + {s.pool[0]}), w, s.pool[0], create, abandoned, s.workers);
    assert s.pool[1..][1..] == s.pool[2..];
    assert s.borrowed + {s.pool[0]} + {s.pool[1]} == s.borrowed + {s.pool[0], s.pool[1]};
  }

  lemma {:induction false} BothGivenBack(s: State, w: nat)
    requires w < |s.workers| && s.workers[w].phase == Checking(false, true)
    requires SlotsFit(s.workers[w])
    ensures
      var k := s.workers[w];
      var t := With(s, w, k.(phase := GivingSecond));
      var u := With(Unborrow(s, k.con2.value), w, Worker(GivingFirst, k.con, k.con2, {k.con.value}));
      && Next(s, Check(w, true)) == Some(t)
      && Next(t, GiveSecond(w)) == Some(u)
      && Next(u, GiveFirst(w)) ==
         Some(s.(pool := s.pool + [k.con2.value, k.con.value], borrowed := s.borrowed - {k.con.value, k.con2.value},
                 workers := s.workers[w := Worker(Leaving, k.con, k.con2, {})]))
  {
    var k := s.workers[w];
    var giving, given := k.(phase := GivingSecond), Worker(GivingFirst, k.con, k.con2, {k.con.value});
    var after := Unborrow(s, k.con2.value);
    assert k.loans - {k.con2.value} == {k.con.value};
    RecordTwice(after, w, giving, given);
    RecordTwice(Unborrow(after, k.con.value), w, given, Worker(Leaving, k.con, k.con2, {}));
    assert {k.con.value} - {k.con.value} == {};
    assert s.pool + [k.con2.value] + [k.con.value] == s.pool + [k.con2.value, k.con.value];
    assert s.borrowed - {k.con2.value} - {k.con.value} == s.borrowed - {k.con.value, k.con2.value};
  }

  /** A Commit that arrives before the session begins gives both connections back, the second one first. */
  lemma {:induction false} CommitGivesBoth(size: nat, actions: seq<Action>, w: nat)
    requires Run(size, actions).Some?
    requires
      var s := Run(size, actions).value;
      w < |s.workers| && s.workers[w].phase == Checking(false, true)
    ensures
      var s := Run(size, actions).value;
      var k := s.workers[w];
      && k.con.Some? && k.con2.Some?
      && Run(size, actions + [Check(w, true)] + [GiveSecond(w)] + [GiveFirst(w)]) ==
         Some(s.(pool := s.pool + [k.con2.value, k.con.value], borrowed := s.borrowed - {k.con.value, k.con2.value},
                 workers := s.workers[w := Worker(Leaving, k.con, k.con2, {})]))
  {
    EveryRun(size, actions);
    hide Run;
    var s := Run(size, actions).value;
    assert SlotsFit(s.workers[w]);
    hide Next;
    OneStep(size, actions, Check(w, true));
    OneStep(size, actions + [Check(w, true)], GiveSecond(w));
    OneStep(size, actions + [Check(w, true)] + [GiveSecond(w)], GiveFirst(w));
    BothGivenBack(s, w);
  }

  /** In a session a write waits behind those before it on its own connection, and a commit empties that one. */
  lemma {:induction false} WritesWait(size: nat, actions: seq<Action>, w: nat, second: bool, write: Write)
    requires Run(size, actions).Some?
    requires
      var s := Run(size, actions).value;
      w < |s.workers| && s.workers[w].phase.Serving?
    ensures
      var s := Run(size, actions).value;
      var slot := if second then s.workers[w].con2 else s.workers[w].con;
      var t := Run(size, actions + [Execute(w, second, write)]);
      var u := Run(size, actions + [CommitData(w, second, true)]);
      && slot.Some? && t.Some? && u.Some?
      && t.value == s.(pending := t.value.pending) && u.value == s.(pending := u.value.pending)
      && Pending(t.value.pending, slot.value) == Pending(s.pending, slot.value) + [write]
      && Pending(u.value.pending, slot.value) == []
      && forall c :: c != slot.value ==>
           Pending(t.value.pending, c) == Pending(s.pending, c) && Pending(u.value.pending, c) == Pending(s.pending, c)
  {
    EveryRun(size, actions);
    hide Run;
    assert SlotsFit(Run(size, actions).value.workers[w]);
    OneStep(size, actions, Execute(w, second, write));
    OneStep(size, actions, CommitData(w, second, true));
  }

  /** The next step of a worker that is told to commit wherever it listens. */
  function EndStep(s: State, w: nat, abandoned: Conn): Action
    requires w < |s.workers|
  {
    var k := s.workers[w];
    match k.phase
    case Looping => BorrowFirst(w, false, abandoned)
    case Replacing(_) => Assign(w)
    case Halfway => BorrowSecond(w, false, abandoned)
    case Checking(_, _) => Check(w, true)
    case GivingSecond => GiveSecond(w)
    case GivingFirst => GiveFirst(w)
    case Serving => if Uncommitted(s, k.con2) == [] then ReturnSecond(w, true) else CommitData(w, true, true)
    case Closing => if Uncommitted(s, k.con) == [] then ReturnFirst(w, true) else CommitData(w, false, true)
    case _ => Forget(w)
  }

  function Uncommitted(s: State, slot: Option<Conn>): seq<Write> {
    if slot.Some? then Pending(s.pending, slot.value) else []
  }

  function StepsLeft(s: State, k: Worker): nat {
    match k.phase
    case Looping => 12
    case Replacing(_) => 11
    case Halfway => 10
    case Checking(_, _) => 9
    case Serving => if Uncommitted(s, k.con2) == [] then 7 else 8
    case Closing => if Uncommitted(s, k.con) == [] then 5 else 6
    case GivingSecond => 7
    case GivingFirst => 6
    case Leaving => if k.con2.Some? then 4 else if k.con.Some? then 3 else 2
    case Gone => 0
  }

  /** Where a worker stands that still has its second connection to give back, or its first. */
  predicate OwesSecond(p: Phase) {
    p.Serving? || p.GivingSecond? || (p.Checking? && !p.retry)
  }

  predicate OwesFirst(p: Phase) {
    OwesSecond(p) || p.Closing? || p.GivingFirst?
  }

  /** Where a worker still takes connections. */
  predicate Seeks(p: Phase) {
    p.Looping? || p.Replacing? || p.Halfway?
  }

  lemma {:induction false} EndMoves(s: State, w: nat, abandoned: Conn)
    requires Invariant(s) && w < |s.workers| && !s.workers[w].phase.Gone?
    requires s.pool == [] && Abandoned(s) != {} ==> abandoned in Abandoned(s)
    ensures !EndStep(s, w, abandoned).Crash? && Actor(EndStep(s, w, abandoned)) == Some(w)
    ensures Next(s, EndStep(s, w, abandoned)).Some?
    ensures
      var t := Next(s, EndStep(s, w, abandoned)).value;
      && w < |t.workers| && t.workers == s.workers[w := t.workers[w]]
      && StepsLeft(t, t.workers[w]) < StepsLeft(s, s.workers[w])
  {
    hide Abandoned, Unborrow, Apart, Counted, Exclusive, Clean;
    assert SlotsFit(s.workers[w]);
  }

  /** What a worker on its way out owes it gives back, and it takes nothing. */
  lemma {:induction false} EndGivesBack(s: State, w: nat, abandoned: Conn)
    requires Invariant(s) && w < |s.workers| && !s.workers[w].phase.Gone?
    requires Next(s, EndStep(s, w, abandoned)).Some?
    ensures
      var k, t := s.workers[w], Next(s, EndStep(s, w, abandoned)).value;
      && w < |t.workers|
      && var j := t.workers[w];
         && (!Seeks(k.phase) ==> s.pool <= t.pool && !Seeks(j.phase))
         && (OwesFirst(k.phase) || OwesSecond(k.phase) ==> !Seeks(k.phase) && k.con.Some?)
         && (OwesSecond(k.phase) ==> k.con2.Some?)
         && (OwesSecond(k.phase) ==> (OwesSecond(j.phase) && j.con2 == k.con2) || k.con2.value in t.pool)
         && (OwesFirst(k.phase) ==> (OwesFirst(j.phase) && j.con == k.con) || k.con.value in t.pool)
  {
    hide Abandoned, Apart, Counted, Exclusive, Clean;
    assert SlotsFit(s.workers[w]);
  }

  /** A worker that is gone owes nothing. */
  lemma {:induction false} GoneHoldsNothing(s: State, w: nat)
    requires Invariant(s) && w < |s.workers| && s.workers[w].phase.Gone?
    ensures s.workers[w] == Worker(Gone, None, None, {}) && !OwesFirst(Gone) && !OwesSecond(Gone)
  {
  }

  /**
   * From every reachable state every worker can come to its end by steps of its own, none of them a crash; what it
   * owes it gives back, and every other worker stands where it stood.
   */
  lemma {:induction false} EveryWorkerCanEnd(size: nat, actions: seq<Action>, w: nat) returns (longer: seq<Action>)
    requires Run(size, actions).Some? && w < |Run(size, actions).value.workers|
    ensures actions <= longer && Run(size, longer).Some?
    ensures forall i :: |actions| <= i < |longer| ==> Actor(longer[i]) == Some(w) && !longer[i].Crash?
    ensures
      var s, t := Run(size, actions).value, Run(size, longer).value;
      var k := s.workers[w];
      && t.workers == s.workers[w := Worker(Gone, None, None, {})]
      && (OwesSecond(k.phase) ==> k.con2.Some? && k.con2.value in t.pool)
      && (OwesFirst(k.phase) ==> k.con.Some? && k.con.value in t.pool)
      && (!Seeks(k.phase) ==> s.pool <= t.pool)
    decreases
      var s := Run(size, actions).value;
      StepsLeft(s, s.workers[w])
  {
    hide *;
    EveryRun(size, actions);
    var s := Run(size, actions).value;
    if s.workers[w].phase.Gone? {
      GoneHoldsNothing(s, w);
      longer := actions;
      assert s.workers[w := s.workers[w]] == s.workers;
    } else {
      var abandoned: Conn := 0;
      if Abandoned(s) != {} {
        abandoned :| abandoned in Abandoned(s);
      }
      var a := EndStep(s, w, abandoned);
      EndMoves(s, w, abandoned);
      EndGivesBack(s, w, abandoned);
      OneStep(size, actions, a);
      longer := EveryWorkerCanEnd(size, actions + [a], w);
      assert s.workers[w := Next(s, a).value.workers[w]][w := Worker(Gone, None, None, {})] ==
             s.workers[w := Worker(Gone, None, None, {})];
    }
  }
}
