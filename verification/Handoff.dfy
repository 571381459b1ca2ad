/**
 * The Commit hand-off: the dispatcher sends every worker named in a Commit message a protected message that
 * shares an array with the original, then hands the original to the cleanup thread, which waits for the
 * workers and deletes it.
 */
module Handoff {
  import opened Words

  /** Entry `e` of Commit message `b`: the array that names one worker. */
  type Entry = (nat, nat)

  /** A worker's copy of one entry, whose data protection is on, or the original message with all entries. */
  datatype Msg = Shared(entry: Entry, dataProtection: bool) | Original(b: nat)

  datatype Thread = WorkerThread(w: nat) | CleanupThread

  datatype Free = Free(entry: Entry, thread: Thread)

  /** A worker in its callback, reading a Commit message, past deleting it, and no longer running. */
  datatype Phase = Serving | Reading(msg: Msg) | Ending | Left

  datatype Worker = Worker(phase: Phase, inbox: seq<Msg>)

  datatype Dispatcher = Idle | Dispatching(b: nat, next: nat)

  datatype Cleanup = Waiting | Working(input: seq<nat>, i: nat, j: nat)

  /** `batches[b]` lists the workers named in Commit message `b`; `frees` and `deleted` record the past. */
  datatype State = State(
    batches: seq<seq<nat>>, dispatcher: Dispatcher, workers: seq<Worker>, queue: seq<nat>, cleanup: Cleanup,
    frees: seq<Free>, deleted: seq<Entry>)

  datatype Action =
    | Connect
    | Commit(names: seq<nat>)
    | SendNext
    | HandOver
    | Receive(w: nat)
    | DeleteMsg(w: nat)
    | Leave(w: nat)
    | TakeAll
    | CleanEntry
    | DeleteBatch
    | EndRound

  const START := State([], Idle, [], [], Waiting, [], [])

  function Entries(b: nat, n: nat): (s: seq<Entry>)
    ensures |s| == n
    ensures forall e :: 0 <= e < n ==> s[e] == (b, e)
  {
    seq(n, e => (b, e))
  }

  /** The arrays that deleting a message deletes: a protected message leaves the shared one alone. */
  function FreedBy(batches: seq<seq<nat>>, m: Msg): seq<Entry>
    requires m.Original? ==> m.b < |batches|
  {
    match m
    case Shared(entry, dataProtection) => if dataProtection then [] else [entry]
    case Original(b) => Entries(b, |batches[b]|)
  }

  /** The message that the dispatcher makes of an entry: its data set, then its data protection switched on. */
  function NewMessage(entry: Entry): Msg {
    var m := Shared(entry, false);
    m.(dataProtection := true)
  }

  function FreesOf(entries: seq<Entry>, thread: Thread): (s: seq<Free>)
    ensures |s| == |entries|
    ensures forall k :: 0 <= k < |s| ==> s[k] == Free(entries[k], thread)
  {
    seq(|entries|, k requires 0 <= k < |entries| => Free(entries[k], thread))
  }

  /** The worker is named in a Commit message already. */
  predicate Named(batches: seq<seq<nat>>, w: nat) {
    exists b :: 0 <= b < |batches| && w in batches[b]
  }

  /** What the client owes: it commits known workers only, and each at most once. */
  predicate MayCommit(s: State, names: seq<nat>) {
    && (forall e :: 0 <= e < |names| ==> names[e] < |s.workers| && !Named(s.batches, names[e]))
    && (forall e, f :: 0 <= e < f < |names| ==> names[e] != names[f])
  }

  function Next(s: State, a: Action): Option<State> {
    match a
    case Connect => Some(s.(workers := s.workers + [Worker(Serving, [])]))
    case Commit(names) =>
      if s.dispatcher.Idle? && MayCommit(s, names) then
        Some(s.(batches := s.batches + [names], dispatcher := Dispatching(|s.batches|, 0)))
      else None
    case SendNext =>
      if s.dispatcher.Dispatching? && s.dispatcher.b < |s.batches| && s.dispatcher.next < |s.batches[s.dispatcher.b]| then
        var b, e := s.dispatcher.b, s.dispatcher.next;
        var w := s.batches[b][e];
        if w < |s.workers| then
          Some(s.(workers := s.workers[w := s.workers[w].(inbox := s.workers[w].inbox + [NewMessage((b, e))])],
                  dispatcher := Dispatching(b, e + 1)))
        else None
      else None
    case HandOver =>
      if s.dispatcher.Dispatching? && s.dispatcher.b < |s.batches| && s.dispatcher.next >= |s.batches[s.dispatcher.b]| then
        Some(s.(queue := s.queue + [s.dispatcher.b], dispatcher := Idle))
      else None
    case Receive(w) =>
      if w < |s.workers| && s.workers[w].phase.Serving? && s.workers[w].inbox != [] then
        Some(s.(workers := s.workers[w := Worker(Reading(s.workers[w].inbox[0]), s.workers[w].inbox[1..])]))
      else None
    case DeleteMsg(w) =>
      if w < |s.workers| && s.workers[w].phase.Reading? && s.workers[w].phase.msg.Shared? then
        Some(s.(workers := s.workers[w := Worker(Ending, s.workers[w].inbox)],
                frees := s.frees + FreesOf(FreedBy(s.batches, s.workers[w].phase.msg), WorkerThread(w))))
      else None
    case Leave(w) =>
      if w < |s.workers| && (s.workers[w].phase.Serving? || s.workers[w].phase.Ending?) then
        Some(s.(workers := s.workers[w := Worker(Left, s.workers[w].inbox)]))
      else None
    case TakeAll =>
      if s.cleanup.Waiting? && s.queue != [] then Some(s.(cleanup := Working(s.queue, 0, 0), queue := [])) else None
    case CleanEntry =>
      if s.cleanup.Working? then Clean(s, s.cleanup.input, s.cleanup.i, s.cleanup.j) else None
    case DeleteBatch =>
      if s.cleanup.Working? then Delete(s, s.cleanup.input, s.cleanup.i, s.cleanup.j) else None
    case EndRound =>
      if s.cleanup.Working? && s.cleanup.i >= |s.cleanup.input| then Some(s.(cleanup := Waiting)) else None
  }

  /** The cleanup thread deletes the hives of a worker once it is not running any more. */
  function Clean(s: State, input: seq<nat>, i: nat, j: nat): Option<State> {
    if i < |input| && input[i] < |s.batches| && j < |s.batches[input[i]]| then
      var w := s.batches[input[i]][j];
      if w < |s.workers| && s.workers[w].phase.Left? then
        Some(s.(cleanup := Working(input, i, j + 1), deleted := s.deleted + [(input[i], j)]))
      else None
    else None
  }

  /** The cleanup thread deletes a Commit message when it is through with its entries. */
  function Delete(s: State, input: seq<nat>, i: nat, j: nat): Option<State> {
    if i < |input| && input[i] < |s.batches| && j >= |s.batches[input[i]]| then
      Some(s.(cleanup := Working(input, i + 1, 0),
              frees := s.frees + FreesOf(FreedBy(s.batches, Original(input[i])), CleanupThread)))
    else None
  }

  function Run(actions: seq<Action>): Option<State>
    decreases |actions|
  {
    if actions == [] then Some(START)
    else
      var before := Run(actions[..|actions| - 1]);
      if before.None? then None else Next(before.value, actions[|actions| - 1])
  }

  /** The batches between the hand-over and their deletion. */
  function Pending(s: State): seq<nat> {
    (if s.cleanup.Working? && s.cleanup.i <= |s.cleanup.input| then s.cleanup.input[s.cleanup.i..] else []) + s.queue
  }

  function Dispatched(s: State): seq<nat> {
    if s.dispatcher.Dispatching? then [s.dispatcher.b] else []
  }

  /** Number of messages the cleanup thread has deleted. */
  function Done(s: State): int {
    |s.batches| - |Pending(s)| - |Dispatched(s)|
  }

  function Cleaned(s: State): nat {
    if s.cleanup.Working? then s.cleanup.j else 0
  }

  /** All entries of the first `n` messages, in order. */
  function AllEntries(batches: seq<seq<nat>>, n: nat): seq<Entry>
    requires n <= |batches|
  {
    if n == 0 then [] else AllEntries(batches, n - 1) + Entries(n - 1, |batches[n - 1]|)
  }

  /** Messages pass from dispatcher to queue to cleanup thread in the order they were sent. */
  predicate InTurn(s: State) {
    && 0 <= Done(s)
    && (forall k :: 0 <= k < |Pending(s)| ==> Pending(s)[k] == Done(s) + k)
    && (s.dispatcher.Dispatching? ==> s.dispatcher.b == |s.batches| - 1)
    && (s.cleanup.Working? ==> s.cleanup.i <= |s.cleanup.input|)
    && (0 < Cleaned(s) ==> s.cleanup.i < |s.cleanup.input| && Cleaned(s) <= |s.batches[Done(s)]|)
  }

  predicate NamedOnce(s: State) {
    && (forall b, e :: 0 <= b < |s.batches| && 0 <= e < |s.batches[b]| ==> s.batches[b][e] < |s.workers|)
    && (forall b, e, c, f ::
          (0 <= b < |s.batches| && 0 <= e < |s.batches[b]| && 0 <= c < |s.batches| && 0 <= f < |s.batches[c]|) ==>
            s.batches[b][e] == s.batches[c][f] ==> b == c && e == f)
  }

  predicate Addressed(s: State, w: nat, entry: Entry) {
    entry.0 < |s.batches| && entry.1 < |s.batches[entry.0]| && s.batches[entry.0][entry.1] == w
  }

  /** A protected message whose entry names the worker. */
  predicate MeantFor(s: State, w: nat, m: Msg) {
    m.Shared? && m.dataProtection && Addressed(s, w, m.entry)
  }

  /** A worker reads, and is sent, only protected messages with entries that name it. */
  predicate WellAddressed(s: State) {
    forall w :: 0 <= w < |s.workers| ==>
      && (s.workers[w].phase.Reading? ==> MeantFor(s, w, s.workers[w].phase.msg))
      && (forall k :: 0 <= k < |s.workers[w].inbox| ==> MeantFor(s, w, s.workers[w].inbox[k]))
  }

  /** The entry exists and the dispatcher has passed it. */
  predicate Passed(s: State, b: nat, e: nat) {
    && b < |s.batches| && e < |s.batches[b]|
    && !(s.dispatcher.Dispatching? && s.dispatcher.b == b && s.dispatcher.next <= e)
  }

  /** The worker has its Commit message still to read, reads it, or is past it; or it left before. */
  predicate Got(k: Worker, b: nat, e: nat) {
    match k.phase
    case Serving => k.inbox == [Shared((b, e), true)]
    case Reading(msg) => msg == Shared((b, e), true) && k.inbox == []
    case Ending => k.inbox == []
    case Left => true
  }

  /** A worker that was not sent anything. */
  predicate Unsent(k: Worker) {
    k.inbox == [] && (k.phase.Serving? || k.phase.Left?)
  }

  /** Of every entry that the dispatcher has passed the worker it names got a message; nobody else got any. */
  ghost predicate Delivered(s: State) {
    && (forall b: nat, e: nat :: Passed(s, b, e) ==>
          s.batches[b][e] < |s.workers| && Got(s.workers[s.batches[b][e]], b, e))
    && (forall w :: 0 <= w < |s.workers| && !Unsent(s.workers[w]) ==>
          exists b: nat, e: nat :: Passed(s, b, e) && s.batches[b][e] == w)
  }

  predicate Reads(k: Worker, entry: Entry) {
    k.phase.Reading? && k.phase.msg.Shared? && k.phase.msg.entry == entry
  }

  /** The entry exists and the worker it names has left its callback. */
  predicate LeftBy(s: State, entry: Entry) {
    && entry.0 < |s.batches| && entry.1 < |s.batches[entry.0]|
    && s.batches[entry.0][entry.1] < |s.workers| && s.workers[s.batches[entry.0][entry.1]].phase.Left?
  }

  /** Every worker whose entry the cleanup thread has passed is gone. */
  predicate GoneBefore(s: State)
    requires InTurn(s) && NamedOnce(s)
  {
    && (forall b, e :: 0 <= b < Done(s) && 0 <= e < |s.batches[b]| ==> s.workers[s.batches[b][e]].phase.Left?)
    && (forall e :: 0 <= e < Cleaned(s) ==> s.workers[s.batches[Done(s)][e]].phase.Left?)
  }

  /** The arrays freed are those of the deleted messages, once each and by the cleanup thread; likewise the hives. */
  predicate FreedInTurn(s: State)
    requires InTurn(s)
  {
    && s.frees == FreesOf(AllEntries(s.batches, Done(s)), CleanupThread)
    && s.deleted == AllEntries(s.batches, Done(s)) + Entries(Done(s), Cleaned(s))
  }

  ghost predicate Invariant(s: State) {
    InTurn(s) && NamedOnce(s) && WellAddressed(s) && GoneBefore(s) && FreedInTurn(s) && Delivered(s)
  }

  /** The message at hand is the first one pending. */
  lemma {:induction false} AtHand(s: State)
    requires InTurn(s) && s.cleanup.Working? && s.cleanup.i < |s.cleanup.input|
    ensures s.cleanup.input[s.cleanup.i] == Done(s) < |s.batches|
    ensures Pending(s)[1..] == s.cleanup.input[s.cleanup.i + 1..] + s.queue
  {
    assert Pending(s)[0] == s.cleanup.input[s.cleanup.i];
  }

  lemma {:induction false} PendingAfter(s: State, a: Action)
    requires InTurn(s) && Next(s, a).Some?
    ensures Pending(Next(s, a).value) ==
            if a.HandOver? then Pending(s) + [s.dispatcher.b] else if a.DeleteBatch? then Pending(s)[1..] else Pending(s)
    ensures a.DeleteBatch? ==> Pending(s) != []
  {
    hide InTurn;
    if a.HandOver? {
      var t := Next(s, a).value;
      assert t.queue == s.queue + [s.dispatcher.b];
    } else if a.DeleteBatch? {
      AtHand(s);
    }
  }

  lemma {:induction false} DoneKept(s: State, a: Action)
    requires InTurn(s) && Next(s, a).Some?
    ensures Done(Next(s, a).value) == if a.DeleteBatch? then Done(s) + 1 else Done(s)
  {
    PendingAfter(s, a);
    hide Pending, FreesOf, FreedBy, MayCommit, InTurn;
  }

  lemma {:induction false} PendingInTurn(s: State, a: Action)
    requires InTurn(s) && Next(s, a).Some?
    ensures
      var t := Next(s, a).value;
      forall k :: 0 <= k < |Pending(t)| ==> Pending(t)[k] == Done(t) + k
  {
    PendingAfter(s, a);
    DoneKept(s, a);
    if a.HandOver? {
      HandedLast(s);
    }
    hide Next, Pending, Done;
  }

  lemma {:induction false} PlacesKept(s: State, a: Action)
    requires InTurn(s) && Next(s, a).Some?
    ensures
      var t := Next(s, a).value;
      && (t.dispatcher.Dispatching? ==> t.dispatcher.b == |t.batches| - 1)
      && (t.cleanup.Working? ==> t.cleanup.i <= |t.cleanup.input|)
  {
    hide Pending, Done, Cleaned, FreesOf, FreedBy, MayCommit;
  }

  lemma {:induction false} CleanedInTurn(s: State, a: Action)
    requires InTurn(s) && Next(s, a).Some?
    ensures
      var t := Next(s, a).value;
      0 < Cleaned(t) ==>
        t.cleanup.i < |t.cleanup.input| && 0 <= Done(s) < |t.batches| && Cleaned(t) <= |t.batches[Done(s)]|
  {
    DoneIsBounded(s);
    hide Pending, Done, FreesOf, FreedBy, MayCommit;
    if s.cleanup.Working? && s.cleanup.i < |s.cleanup.input| {
      AtHand(s);
    }
  }

  lemma {:induction false} TurnKept(s: State, a: Action)
    requires InTurn(s) && Next(s, a).Some?
    ensures InTurn(Next(s, a).value)
  {
    PendingInTurn(s, a);
    DoneKept(s, a);
    PlacesKept(s, a);
    CleanedInTurn(s, a);
    assert a.DeleteBatch? ==> Cleaned(Next(s, a).value) == 0;
    hide Next, Pending, Done, Cleaned;
  }

  lemma {:induction false} HandedLast(s: State)
    requires InTurn(s) && s.dispatcher.Dispatching?
    ensures Done(s) + |Pending(s)| == s.dispatcher.b == |s.batches| - 1
  {
  }

  lemma {:induction false} NamesKept(s: State, a: Action)
    requires NamedOnce(s) && Next(s, a).Some?
    ensures NamedOnce(Next(s, a).value)
  {
  }

  lemma {:induction false} AddressKept(s: State, a: Action)
    requires WellAddressed(s) && Next(s, a).Some?
    ensures WellAddressed(Next(s, a).value)
  {
  }

  /** What a step passes of the entries: the one that is sent, if any. */
  lemma {:induction false} PassedAfter(s: State, a: Action, b: nat, e: nat)
    requires InTurn(s) && Next(s, a).Some?
    ensures Passed(Next(s, a).value, b, e) <==>
            Passed(s, b, e) || (a.SendNext? && s.dispatcher == Dispatching(b, e))
    ensures Passed(s, b, e) ==> b < |Next(s, a).value.batches| && Next(s, a).value.batches[b] == s.batches[b]
  {
    hide Pending, Done, Cleaned, FreesOf, FreedBy, MayCommit;
  }

  /** A step of a worker keeps what it got, and one that got nothing never stands anywhere but in its callback. */
  lemma {:induction false} WorkerKeeps(s: State, a: Action, w: nat)
    requires Next(s, a).Some? && w < |s.workers|
    requires a.SendNext? ==> s.batches[s.dispatcher.b][s.dispatcher.next] != w
    ensures w < |Next(s, a).value.workers|
    ensures Unsent(s.workers[w]) ==> Unsent(Next(s, a).value.workers[w])
    ensures forall b: nat, e: nat :: Got(s.workers[w], b, e) ==> Got(Next(s, a).value.workers[w], b, e)
  {
    hide FreesOf, FreedBy, MayCommit;
  }

  /** The message that is sent is the only one its worker has. */
  lemma {:induction false} SentIsGot(s: State)
    requires InTurn(s) && NamedOnce(s) && Delivered(s) && Next(s, SendNext).Some?
    ensures
      var b, e := s.dispatcher.b, s.dispatcher.next;
      var w := s.batches[b][e];
      w < |Next(s, SendNext).value.workers| && Got(Next(s, SendNext).value.workers[w], b, e)
  {
    hide Pending, Done, Cleaned;
    assert Unsent(s.workers[s.batches[s.dispatcher.b][s.dispatcher.next]]);
  }

  lemma {:induction false} SomebodyActs(s: State, a: Action)
    requires Next(s, a).Some?
    ensures
      var t := Next(s, a).value;
      |t.workers| == |s.workers| || (|t.workers| == |s.workers| + 1 && Unsent(t.workers[|s.workers|]))
  {
    hide FreesOf, FreedBy, MayCommit;
  }

  lemma {:induction false} DeliveredKept(s: State, a: Action)
    requires InTurn(s) && NamedOnce(s) && Delivered(s) && Next(s, a).Some?
    ensures Delivered(Next(s, a).value)
  {
    var t := Next(s, a).value;
    SomebodyActs(s, a);
    forall b: nat, e: nat | Passed(t, b, e) ensures t.batches[b][e] < |t.workers| && Got(t.workers[t.batches[b][e]], b, e) {
      PassedAfter(s, a, b, e);
      if Passed(s, b, e) {
        if a.SendNext? {
          assert s.batches[s.dispatcher.b][s.dispatcher.next] != s.batches[b][e];
        }
        WorkerKeeps(s, a, s.batches[b][e]);
      } else {
        SentIsGot(s);
      }
    }
    forall w | 0 <= w < |t.workers| && !Unsent(t.workers[w])
      ensures exists b: nat, e: nat :: Passed(t, b, e) && t.batches[b][e] == w
    {
      if a.SendNext? && s.batches[s.dispatcher.b][s.dispatcher.next] == w {
        PassedAfter(s, a, s.dispatcher.b, s.dispatcher.next);
        assert Passed(t, s.dispatcher.b, s.dispatcher.next);
      } else {
        WorkerKeeps(s, a, w);
        var b: nat, e: nat :| Passed(s, b, e) && s.batches[b][e] == w;
        PassedAfter(s, a, b, e);
        assert Passed(t, b, e);
      }
    }
  }

  /** Workers that left stay away, and messages stay as they were sent. */
  lemma {:induction false} LeftStays(s: State, a: Action)
    requires Next(s, a).Some?
    ensures
      var t := Next(s, a).value;
      && |s.workers| <= |t.workers| && |s.batches| <= |t.batches|
      && (forall w :: 0 <= w < |s.workers| && s.workers[w].phase.Left? ==> t.workers[w].phase.Left?)
      && (forall b :: 0 <= b < |s.batches| ==> t.batches[b] == s.batches[b])
  {
    hide FreesOf, FreedBy, MayCommit;
  }

  /** The cleanup thread passes an entry only when its worker left, and a message only after all its entries. */
  lemma {:induction false} CleanedKept(s: State, a: Action)
    requires InTurn(s) && Next(s, a).Some?
    ensures Done(s) <= |s.batches| && (a.DeleteBatch? || 0 < Cleaned(s) ==> Done(s) < |s.batches|)
    ensures Cleaned(Next(s, a).value) <= Cleaned(s) + if a.CleanEntry? then 1 else 0
    ensures a.CleanEntry? ==> LeftBy(s, (Done(s), Cleaned(s)))
    ensures a.DeleteBatch? ==> Cleaned(Next(s, a).value) == 0 && |s.batches[Done(s)]| <= Cleaned(s)
  {
    hide Pending, FreesOf, FreedBy, MayCommit;
    DoneIsBounded(s);
    if s.cleanup.Working? && s.cleanup.i < |s.cleanup.input| {
      AtHand(s);
    }
  }

  lemma {:induction false} GoneKept(s: State, a: Action)
    requires InTurn(s) && NamedOnce(s) && GoneBefore(s) && Next(s, a).Some?
    ensures InTurn(Next(s, a).value) && NamedOnce(Next(s, a).value) && GoneBefore(Next(s, a).value)
  {
    hide Next, Pending, Done, Cleaned, FreesOf, FreedBy, MayCommit;
    TurnKept(s, a);
    NamesKept(s, a);
    DoneKept(s, a);
    CleanedKept(s, a);
    LeftStays(s, a);
  }

  lemma {:induction false} DoneIsBounded(s: State)
    requires InTurn(s)
    ensures Done(s) <= |s.batches| && (0 < Cleaned(s) ==> Done(s) < |s.batches|)
  {
  }

  lemma {:induction false} EntriesStay(batches: seq<seq<nat>>, names: seq<nat>, n: nat)
    requires n <= |batches|
    ensures AllEntries(batches + [names], n) == AllEntries(batches, n)
  {
    if n == 0 {
    } else {
      EntriesStay(batches, names, n - 1);
    }
  }

  lemma {:induction false} FreedKept(s: State, a: Action)
    requires InTurn(s) && WellAddressed(s) && FreedInTurn(s) && Next(s, a).Some?
    ensures InTurn(Next(s, a).value) && FreedInTurn(Next(s, a).value)
  {
    hide Pending, Done, MayCommit;
    TurnKept(s, a);
    DoneKept(s, a);
    DoneIsBounded(s);
    var t, done := Next(s, a).value, Done(s);
    if s.cleanup.Working? && s.cleanup.i < |s.cleanup.input| {
      AtHand(s);
    }
    if a.Commit? {
      EntriesStay(s.batches, a.names, done);
    } else if a.DeleteBatch? {
      assert Cleaned(s) == |s.batches[done]|;
      assert t.frees == FreesOf(AllEntries(s.batches, done) + Entries(done, |s.batches[done]|), CleanupThread);
      assert t.deleted == AllEntries(s.batches, done + 1) + Entries(done + 1, 0);
    } else if a.CleanEntry? {
      assert Entries(done, Cleaned(s) + 1) == Entries(done, Cleaned(s)) + [(done, Cleaned(s))];
    } else if a.DeleteMsg? {
      assert t.frees == s.frees;
    }
  }

  /** Every state that any interleaving reaches keeps the whole hand-off invariant. */
  lemma {:induction false} EveryRun(actions: seq<Action>)
    requires Run(actions).Some?
    ensures Invariant(Run(actions).value)
    decreases |actions|
  {
    if actions == [] {
    } else {
      var shorter, a := actions[..|actions| - 1], actions[|actions| - 1];
      EveryRun(shorter);
      var s := Run(shorter).value;
      hide Next, InTurn, NamedOnce, WellAddressed, GoneBefore, FreedInTurn, Delivered;
      AddressKept(s, a);
      DeliveredKept(s, a);
      GoneKept(s, a);
      FreedKept(s, a);
    }
  }

  /**
   * In every run, of every entry the dispatcher has passed, the named worker has the protected message as the
   * only one in its inbox, or reads it, or is past it, or left; nobody else has it.
   */
  lemma {:induction false} CommitArrives(actions: seq<Action>, b: nat, e: nat)
    requires Run(actions).Some?
    requires
      var s := Run(actions).value;
      b < |s.batches| && e < |s.batches[b]| && (s.dispatcher.Dispatching? && s.dispatcher.b == b ==> e < s.dispatcher.next)
    ensures
      var s := Run(actions).value;
      && s.batches[b][e] < |s.workers|
      && var k := s.workers[s.batches[b][e]];
         && (k.phase.Serving? ==> k.inbox == [Shared((b, e), true)])
         && (k.phase.Reading? ==> k.phase.msg == Shared((b, e), true) && k.inbox == [])
         && (k.phase.Ending? ==> k.inbox == [])
    ensures
      var s := Run(actions).value;
      forall w :: 0 <= w < |s.workers| && w != s.batches[b][e] ==>
        Shared((b, e), true) !in s.workers[w].inbox && !Reads(s.workers[w], (b, e))
  {
    EveryRun(actions);
    var s := Run(actions).value;
    hide Run, InTurn, FreedInTurn;
    assert Passed(s, b, e);
    forall w | 0 <= w < |s.workers| && w != s.batches[b][e]
      ensures Shared((b, e), true) !in s.workers[w].inbox && !Reads(s.workers[w], (b, e))
    {
      assert s.workers[w].phase.Reading? ==> MeantFor(s, w, s.workers[w].phase.msg);
    }
  }

  /** The entries of the first `n` messages, each once. */
  lemma {:induction false} EntriesOnce(batches: seq<seq<nat>>, n: nat)
    requires n <= |batches|
    ensures forall p: Entry :: p in AllEntries(batches, n) <==> p.0 < n && p.1 < |batches[p.0]|
    ensures forall k, l :: 0 <= k < l < |AllEntries(batches, n)| ==> AllEntries(batches, n)[k] != AllEntries(batches, n)[l]
  {
    if n == 0 {
    } else {
      EntriesOnce(batches, n - 1);
      var last := Entries(n - 1, |batches[n - 1]|);
      forall p: Entry ensures p in last <==> p.0 == n - 1 && p.1 < |batches[n - 1]| {
        if p.0 == n - 1 && p.1 < |batches[n - 1]| {
          assert last[p.1] == p;
        }
      }
    }
  }

  /**
   * In every run each array is freed at most once, by the cleanup thread, and only after every worker named
   * in the same Commit message has left its callback; no worker reads an array that was freed.
   */
  lemma {:induction false} FreedSafely(actions: seq<Action>)
    requires Run(actions).Some?
    ensures
      var s := Run(actions).value;
      && (forall k, l :: 0 <= k < l < |s.frees| ==> s.frees[k].entry != s.frees[l].entry)
      && (forall k :: 0 <= k < |s.frees| ==>
            && s.frees[k].thread == CleanupThread
            && s.frees[k].entry.0 < |s.batches|
            && forall w :: w in s.batches[s.frees[k].entry.0] ==> w < |s.workers| && s.workers[w].phase.Left?)
      && (forall k, w :: 0 <= k < |s.frees| && 0 <= w < |s.workers| ==> !Reads(s.workers[w], s.frees[k].entry))
  {
    EveryRun(actions);
    var s := Run(actions).value;
    hide Run, Pending, Done;
    EntriesOnce(s.batches, Done(s));
    DoneIsBounded(s);
  }

  lemma {:induction false} CleanedEntries(s: State)
    requires InTurn(s) && FreedInTurn(s)
    ensures forall k :: 0 <= k < |s.deleted| ==>
              && s.deleted[k].0 < |s.batches| && s.deleted[k].1 < |s.batches[s.deleted[k].0]|
              && (s.deleted[k].0 < Done(s) || (s.deleted[k].0 == Done(s) && s.deleted[k].1 < Cleaned(s)))
    ensures forall k, l :: 0 <= k < l < |s.deleted| ==> s.deleted[k] != s.deleted[l]
  {
    hide Pending;
    DoneIsBounded(s);
    EntriesOnce(s.batches, Done(s));
    assert forall k :: 0 <= k < |AllEntries(s.batches, Done(s))| ==> AllEntries(s.batches, Done(s))[k].0 < Done(s);
  }

  /** Entries before `k` were deleted and the current one is not among them: all name different workers. */
  lemma {:induction false} OneEntryPerWorker(s: State, p: Entry, q: Entry, w: nat)
    requires NamedOnce(s) && Addressed(s, w, p) && Addressed(s, w, q)
    ensures p == q
  {
  }

  /**
   * The hives of a worker are deleted at most once and after it has left, and the dispatcher never sends to
   * hives that were deleted.
   */
  lemma {:induction false} HivesDeletedSafely(actions: seq<Action>)
    requires Run(actions).Some?
    ensures
      var s := Run(actions).value;
      && (forall k :: 0 <= k < |s.deleted| ==> LeftBy(s, s.deleted[k]))
      && (forall k, l, w :: 0 <= k < l < |s.deleted| && Addressed(s, w, s.deleted[k]) ==> !Addressed(s, w, s.deleted[l]))
      && (forall k, w :: 0 <= k < |s.deleted| && Addressed(s, w, s.deleted[k]) && s.dispatcher.Dispatching? ==>
            !Addressed(s, w, (s.dispatcher.b, s.dispatcher.next)))
  {
    EveryRun(actions);
    var s := Run(actions).value;
    hide Run, Pending, FreedInTurn, Addressed, WellAddressed;
    CleanedEntries(s);
    forall k, l, w | 0 <= k < l < |s.deleted| && Addressed(s, w, s.deleted[k]) ensures !Addressed(s, w, s.deleted[l]) {
      if Addressed(s, w, s.deleted[l]) {
        OneEntryPerWorker(s, s.deleted[k], s.deleted[l], w);
      }
    }
    forall k, w | 0 <= k < |s.deleted| && Addressed(s, w, s.deleted[k]) && s.dispatcher.Dispatching?
      ensures !Addressed(s, w, (s.dispatcher.b, s.dispatcher.next))
    {
      if Addressed(s, w, (s.dispatcher.b, s.dispatcher.next)) {
        OneEntryPerWorker(s, s.deleted[k], (s.dispatcher.b, s.dispatcher.next), w);
        HandedLast(s);
      }
    }
  }

  lemma {:induction false} EntryPassed(s: State, entry: Entry)
    requires InTurn(s) && NamedOnce(s) && GoneBefore(s) && FreedInTurn(s) && Done(s) == |s.batches|
    requires entry.0 < |s.batches| && entry.1 < |s.batches[entry.0]|
    ensures Free(entry, CleanupThread) in s.frees && entry in s.deleted && LeftBy(s, entry)
  {
    hide Pending, Done;
    EntriesOnce(s.batches, |s.batches|);
    var all := AllEntries(s.batches, |s.batches|);
    var k :| 0 <= k < |all| && all[k] == entry;
    assert s.frees[k] == Free(entry, CleanupThread);
    assert s.deleted[k] == entry;
  }

  /** When every Commit message has passed through, all its arrays are freed and all its hives deleted. */
  lemma {:induction false} NothingLeaks(actions: seq<Action>, entry: Entry)
    requires Run(actions).Some?
    ensures
      var s := Run(actions).value;
      s.dispatcher.Idle? && s.queue == [] && s.cleanup.Waiting? && entry.0 < |s.batches| && entry.1 < |s.batches[entry.0]| ==>
        Free(entry, CleanupThread) in s.frees && entry in s.deleted && LeftBy(s, entry)
  {
    EveryRun(actions);
    var s := Run(actions).value;
    hide Run, InTurn, NamedOnce, FreedInTurn, WellAddressed;
    if s.dispatcher.Idle? && s.queue == [] && s.cleanup.Waiting? && entry.0 < |s.batches| && entry.1 < |s.batches[entry.0]| {
      EntryPassed(s, entry);
    }
  }

  /** A step of what is under way: no new worker and no new Commit message. */
  predicate UnderWay(a: Action) {
    !a.Connect? && !a.Commit?
  }

  lemma {:induction false} OneStep(actions: seq<Action>, a: Action)
    requires Run(actions).Some?
    ensures Run(actions + [a]) == Next(Run(actions).value, a)
  {
    hide Next;
    assert (actions + [a])[..|actions|] == actions;
  }

  /** The step at `k` is under way, and if a worker leaves its callback there, it has read its message. */
  predicate Orderly(actions: seq<Action>, k: nat)
    requires k < |actions|
  {
    && UnderWay(actions[k])
    && (actions[k].Leave? ==>
          var before := Run(actions[..k]);
          before.Some? && actions[k].w < |before.value.workers| && before.value.workers[actions[k].w].phase.Ending?)
  }

  /** The run goes on to `longer` by orderly steps only. */
  predicate GoesOn(actions: seq<Action>, longer: seq<Action>) {
    && actions <= longer && Run(actions).Some? && Run(longer).Some?
    && (forall k :: |actions| <= k < |longer| ==> Orderly(longer, k))
    && Run(longer).value.batches == Run(actions).value.batches
  }

  lemma {:induction false} GoesOnByOne(start: seq<Action>, actions: seq<Action>, a: Action)
    requires GoesOn(start, actions) && UnderWay(a) && Next(Run(actions).value, a).Some?
    requires a.Leave? ==> Run(actions).value.workers[a.w].phase.Ending?
    ensures GoesOn(start, actions + [a]) && Run(actions + [a]) == Next(Run(actions).value, a)
  {
    OneStep(actions, a);
    hide Run;
    var longer := actions + [a];
    forall k | |start| <= k < |longer| ensures Orderly(longer, k) {
      assert longer[..k] == actions[..k];
      if k == |actions| {
        assert actions[..k] == actions;
      } else {
        assert Orderly(actions, k);
      }
    }
  }

  /** The dispatcher can send the rest of its message and hand it over. */
  lemma {:induction false} DispatchEnds(start: seq<Action>, actions: seq<Action>) returns (longer: seq<Action>)
    requires GoesOn(start, actions)
    ensures GoesOn(start, longer) && Run(longer).value.dispatcher.Idle?
    decreases
      var s := Run(actions).value;
      if s.dispatcher.Dispatching? && s.dispatcher.b < |s.batches| then |s.batches[s.dispatcher.b]| - s.dispatcher.next + 1 else 0
  {
    EveryRun(actions);
    var s := Run(actions).value;
    hide Run, GoesOn, Pending, WellAddressed, FreedInTurn, GoneBefore;
    if s.dispatcher.Idle? {
      longer := actions;
    } else if s.dispatcher.next < |s.batches[s.dispatcher.b]| {
      GoesOnByOne(start, actions, SendNext);
      longer := DispatchEnds(start, actions + [SendNext]);
    } else {
      GoesOnByOne(start, actions, HandOver);
      longer := actions + [HandOver];
    }
  }

  /** Steps that a worker with a message still has to make. */
  function StepsLeft(p: Phase): nat {
    match p
    case Serving => 3
    case Reading(_) => 2
    case Ending => 1
    case Left => 0
  }

  /** A worker that has no message to read, or left. */
  predicate Through(k: Worker) {
    k.phase.Left? || (k.phase.Serving? && k.inbox == [])
  }

  /** The next step of a worker that has a message to read. */
  function WorkerStep(s: State, w: nat): Action
    requires w < |s.workers|
  {
    match s.workers[w].phase
    case Serving => Receive(w)
    case Reading(_) => DeleteMsg(w)
    case _ => Leave(w)
  }

  /** A worker with a message can make its next step towards its end, and nobody else is touched by it. */
  lemma {:induction false} WorkerMoves(s: State, w: nat)
    requires WellAddressed(s) && w < |s.workers| && !Through(s.workers[w])
    ensures UnderWay(WorkerStep(s, w)) && (WorkerStep(s, w).Leave? ==> WorkerStep(s, w).w == w && s.workers[w].phase.Ending?)
    ensures
      && Next(s, WorkerStep(s, w)).Some?
      && var t := Next(s, WorkerStep(s, w)).value;
         && |t.workers| == |s.workers| && t.dispatcher == s.dispatcher
         && StepsLeft(t.workers[w].phase) < StepsLeft(s.workers[w].phase)
         && forall i :: 0 <= i < |s.workers| && i != w ==> t.workers[i] == s.workers[i]
  {
    hide FreesOf, FreedBy;
  }

  /** One worker after the other can read its message and leave its callback. */
  lemma {:induction false} AllLeave(start: seq<Action>, actions: seq<Action>, w: nat) returns (longer: seq<Action>)
    requires GoesOn(start, actions) && Run(actions).value.dispatcher.Idle? && w <= |Run(actions).value.workers|
    requires forall i :: 0 <= i < w ==> Through(Run(actions).value.workers[i])
    ensures GoesOn(start, longer) && Run(longer).value.dispatcher.Idle?
    ensures forall i :: 0 <= i < |Run(longer).value.workers| ==> Through(Run(longer).value.workers[i])
    decreases
      |Run(actions).value.workers| - w,
      if w < |Run(actions).value.workers| then StepsLeft(Run(actions).value.workers[w].phase) else 0
  {
    hide *;
    LongerRuns(start, actions);
    EveryRun(actions);
    var s := Run(actions).value;
    assert WellAddressed(s) by { InvariantAddresses(s); }
    if w == |s.workers| {
      longer := actions;
    } else if Through(s.workers[w]) {
      longer := AllLeave(start, actions, w + 1);
    } else {
      var a := WorkerStep(s, w);
      WorkerMoves(s, w);
      GoesOnByOne(start, actions, a);
      var t := Run(actions + [a]).value;
      assert forall i :: 0 <= i < w ==> t.workers[i] == s.workers[i] && Through(t.workers[i]);
      longer := AllLeave(start, actions + [a], w);
    }
  }

  lemma {:induction false} InvariantAddresses(s: State)
    requires Invariant(s)
    ensures WellAddressed(s)
  {
  }

  /** When nothing is being sent and no worker has a message to read, those named in a message have left. */
  predicate NamedLeft(s: State) {
    forall b, e :: 0 <= b < |s.batches| && 0 <= e < |s.batches[b]| ==>
      s.batches[b][e] < |s.workers| && s.workers[s.batches[b][e]].phase.Left?
  }

  lemma {:induction false} ThroughIsLeft(s: State)
    requires Delivered(s) && s.dispatcher.Idle? && forall i :: 0 <= i < |s.workers| ==> Through(s.workers[i])
    ensures NamedLeft(s)
  {
    forall b, e | 0 <= b < |s.batches| && 0 <= e < |s.batches[b]|
      ensures s.batches[b][e] < |s.workers| && s.workers[s.batches[b][e]].phase.Left?
    {
      assert Passed(s, b, e);
    }
  }

  lemma {:induction false} ReadsAndLeaves(s: State, w: nat, entry: Entry)
    requires w < |s.workers| && s.workers[w] == Worker(Serving, [Shared(entry, true)])
    ensures
      var reading := s.(workers := s.workers[w := Worker(Reading(Shared(entry, true)), [])]);
      var ending := s.(workers := s.workers[w := Worker(Ending, [])]);
      && Next(s, Receive(w)) == Some(reading)
      && Next(reading, DeleteMsg(w)) == Some(ending)
      && Next(ending, Leave(w)) == Some(s.(workers := s.workers[w := Worker(Left, [])]))
  {
    var reading := s.(workers := s.workers[w := Worker(Reading(Shared(entry, true)), [])]);
    var ending := s.(workers := s.workers[w := Worker(Ending, [])]);
    assert s.workers[w].inbox[1..] == [];
    assert FreesOf(FreedBy(s.batches, Shared(entry, true)), WorkerThread(w)) == [];
    assert s.frees + [] == s.frees;
    assert reading.workers[w := Worker(Ending, [])] == ending.workers;
    assert ending.workers[w := Worker(Left, [])] == s.workers[w := Worker(Left, [])];
    assert Next(s, Receive(w)) == Some(reading);
    assert Next(reading, DeleteMsg(w)) == Some(ending);
  }

  /** In every run a worker that was sent its message, and has not read it, can read it, delete it and leave. */
  lemma {:induction false} CommitIsServed(actions: seq<Action>, b: nat, e: nat)
    requires Run(actions).Some?
    requires
      var s := Run(actions).value;
      && b < |s.batches| && e < |s.batches[b]| && (s.dispatcher.Dispatching? && s.dispatcher.b == b ==> e < s.dispatcher.next)
      && (s.batches[b][e] < |s.workers| ==> s.workers[s.batches[b][e]].phase.Serving?)
    ensures
      var s := Run(actions).value;
      var w := s.batches[b][e];
      && w < |s.workers|
      && Run(actions + [Receive(w)]) == Some(s.(workers := s.workers[w := Worker(Reading(Shared((b, e), true)), [])]))
      && Run(actions + [Receive(w)] + [DeleteMsg(w)]) == Some(s.(workers := s.workers[w := Worker(Ending, [])]))
      && Run(actions + [Receive(w)] + [DeleteMsg(w)] + [Leave(w)]) ==
         Some(s.(workers := s.workers[w := Worker(Left, [])]))
  {
    hide Run, Next;
    CommitArrives(actions, b, e);
    var w := Run(actions).value.batches[b][e];
    var s := Run(actions).value;
    assert s.workers[w] == Worker(Serving, [Shared((b, e), true)]);
    ReadsAndLeaves(s, w, (b, e));
    OneStep(actions, Receive(w));
    OneStep(actions + [Receive(w)], DeleteMsg(w));
    OneStep(actions + [Receive(w)] + [DeleteMsg(w)], Leave(w));
  }

  /** The workers once the first `n` names of message `b` were sent theirs. */
  function Notified(workers: seq<Worker>, b: nat, names: seq<nat>, n: nat): (r: seq<Worker>)
    requires n <= |names| && forall e :: 0 <= e < n ==> names[e] < |workers|
    ensures |r| == |workers|
  {
    if n == 0 then workers
    else
      var before, w := Notified(workers, b, names, n - 1), names[n - 1];
      before[w := before[w].(inbox := before[w].inbox + [Shared((b, n - 1), true)])]
  }

  /** Every worker that is named has one message more, that of its entry; the others are as they were. */
  lemma {:induction false} NotifiedOnce(workers: seq<Worker>, b: nat, names: seq<nat>, n: nat)
    requires n <= |names| && forall e :: 0 <= e < n ==> names[e] < |workers|
    requires forall e, f :: 0 <= e < f < |names| ==> names[e] != names[f]
    ensures
      var r := Notified(workers, b, names, n);
      && (forall e :: 0 <= e < n ==>
            r[names[e]] == workers[names[e]].(inbox := workers[names[e]].inbox + [Shared((b, e), true)]))
      && (forall w :: 0 <= w < |workers| && (forall e :: 0 <= e < n ==> names[e] != w) ==> r[w] == workers[w])
  {
    if n == 0 {
    } else {
      NotifiedOnce(workers, b, names, n - 1);
    }
  }

  /** The dispatcher in the middle of a message that it started at `s`. */
  function Sending(s: State, names: seq<nat>, n: nat): State
    requires n <= |names| && forall e :: 0 <= e < n ==> names[e] < |s.workers|
  {
    var b := |s.batches|;
    s.(batches := s.batches + [names], dispatcher := Dispatching(b, n), workers := Notified(s.workers, b, names, n))
  }

  lemma {:induction false} SendsRest(s: State, actions: seq<Action>, names: seq<nat>, n: nat)
      returns (longer: seq<Action>)
    requires n <= |names| && forall e :: 0 <= e < |names| ==> names[e] < |s.workers|
    requires Run(actions) == Some(Sending(s, names, n))
    ensures Run(longer) == Some(Sending(s, names, |names|))
    decreases |names| - n
  {
    hide Run;
    if n == |names| {
      longer := actions;
    } else {
      OneStep(actions, SendNext);
      longer := SendsRest(s, actions + [SendNext], names, n + 1);
    }
  }

  /**
   * A Commit of known workers none of which was named before: every one of them is sent its message, nobody else
   * is, and the original goes to the cleanup thread.
   */
  lemma {:induction false} CommitReachesAll(actions: seq<Action>, names: seq<nat>) returns (longer: seq<Action>)
    requires Run(actions).Some? && Run(actions).value.dispatcher.Idle?
    requires
      var s := Run(actions).value;
      && (forall e :: 0 <= e < |names| ==>
            names[e] < |s.workers| && forall b :: 0 <= b < |s.batches| ==> names[e] !in s.batches[b])
      && (forall e, f :: 0 <= e < f < |names| ==> names[e] != names[f])
    ensures Run(longer).Some?
    ensures
      var s, t := Run(actions).value, Run(longer).value;
      && t == s.(batches := s.batches + [names], queue := s.queue + [|s.batches|], workers := t.workers)
      && |t.workers| == |s.workers|
      && (forall e :: 0 <= e < |names| ==>
            var k := s.workers[names[e]];
            t.workers[names[e]] == k.(inbox := k.inbox + [Shared((|s.batches|, e), true)]))
      && (forall w :: 0 <= w < |s.workers| && w !in names ==> t.workers[w] == s.workers[w])
  {
    hide Run;
    var s := Run(actions).value;
    OneStep(actions, Commit(names));
    longer := SendsRest(s, actions + [Commit(names)], names, 0);
    OneStep(longer, HandOver);
    NotifiedOnce(s.workers, |s.batches|, names, |names|);
    longer := longer + [HandOver];
  }

  /** Where the cleanup thread stands: before taking the queue, at the end of a round, or at a message. */
  function Rank(s: State): nat {
    if s.cleanup.Waiting? then 1 else if s.cleanup.i >= |s.cleanup.input| then 2 else 0
  }

  function EntriesLeft(s: State): nat {
    if s.cleanup.Working? && s.cleanup.i < |s.cleanup.input| && s.cleanup.input[s.cleanup.i] < |s.batches|
       && s.cleanup.j <= |s.batches[s.cleanup.input[s.cleanup.i]]|
    then |s.batches[s.cleanup.input[s.cleanup.i]]| - s.cleanup.j else 0
  }

  /** The cleanup thread's next step. */
  function CleanupStep(s: State): Action {
    if s.cleanup.Waiting? then TakeAll
    else if s.cleanup.i >= |s.cleanup.input| then EndRound
    else if s.cleanup.input[s.cleanup.i] < |s.batches| && s.cleanup.j < |s.batches[s.cleanup.input[s.cleanup.i]]| then CleanEntry
    else DeleteBatch
  }

  /** With all named workers gone, each step of the cleanup thread is possible and brings it nearer to the end. */
  lemma {:induction false} CleanupMoves(s: State)
    requires InTurn(s) && NamedLeft(s) && (s.cleanup.Working? || s.queue != [])
    ensures Next(s, CleanupStep(s)).Some?
    ensures
      var t := Next(s, CleanupStep(s)).value;
      && t.workers == s.workers && t.dispatcher == s.dispatcher && t.batches == s.batches
      && (|Pending(t)| < |Pending(s)| || (|Pending(t)| == |Pending(s)| &&
          (Rank(t) < Rank(s) || (Rank(t) == Rank(s) && EntriesLeft(t) < EntriesLeft(s)))))
  {
    if s.cleanup.Working? && s.cleanup.i < |s.cleanup.input| {
      AtHand(s);
    }
    PendingAfter(s, CleanupStep(s));
    hide FreesOf, FreedBy;
  }

  lemma {:induction false} LeftNames(s: State, t: State)
    requires NamedLeft(s) && t.batches == s.batches && t.workers == s.workers
    ensures NamedLeft(t)
  {
  }

  lemma {:induction false} CleanupEnds(start: seq<Action>, actions: seq<Action>) returns (longer: seq<Action>)
    requires GoesOn(start, actions) && Run(actions).value.dispatcher.Idle? && NamedLeft(Run(actions).value)
    ensures GoesOn(start, longer) && Finished(Run(longer).value)
    decreases
      |Pending(Run(actions).value)|, Rank(Run(actions).value), EntriesLeft(Run(actions).value)
  {
    EveryRun(actions);
    var s := Run(actions).value;
    hide Run, GoesOn, Next, Pending, Rank, EntriesLeft;
    hide InTurn, NamedOnce, NamedLeft, FreedInTurn, GoneBefore, WellAddressed, Delivered;
    if s.cleanup.Waiting? && s.queue == [] {
      longer := actions;
    } else {
      CleanupMoves(s);
      assert NamedLeft(Next(s, CleanupStep(s)).value) by { hide Next; LeftNames(s, Next(s, CleanupStep(s)).value); }
      assert UnderWay(CleanupStep(s));
      GoesOnByOne(start, actions, CleanupStep(s));
      longer := CleanupEnds(start, actions + [CleanupStep(s)]);
    }
  }

  /** Nothing of any Commit message is under way. */
  predicate Finished(s: State) {
    s.dispatcher.Idle? && s.queue == [] && s.cleanup.Waiting?
  }

  /**
   * From every reachable state what is under way can finish without any new message and without any worker
   * leaving before it has read its Commit message, and then every array of every Commit message so far was
   * freed exactly once and all hives deleted.
   */
  lemma {:induction false} EveryRunCanFinish(actions: seq<Action>) returns (longer: seq<Action>)
    requires Run(actions).Some?
    ensures GoesOn(actions, longer) && Finished(Run(longer).value)
    ensures
      var s := Run(longer).value;
      forall entry: Entry :: entry.0 < |s.batches| && entry.1 < |s.batches[entry.0]| ==>
        Free(entry, CleanupThread) in s.frees && entry in s.deleted && LeftBy(s, entry)
  {
    assert GoesOn(actions, actions);
    hide Run, GoesOn;
    longer := DispatchEnds(actions, actions);
    longer := AllLeave(actions, longer, 0);
    assert NamedLeft(Run(longer).value) by {
      LongerRuns(actions, longer);
      EveryRun(longer);
      hide InTurn, NamedOnce, WellAddressed, GoneBefore, FreedInTurn, Delivered, NamedLeft;
      ThroughIsLeft(Run(longer).value);
    }
    longer := CleanupEnds(actions, longer);
    assert Run(longer).Some? by { LongerRuns(actions, longer); }
    forall entry: Entry ensures
      var s := Run(longer).value;
      entry.0 < |s.batches| && entry.1 < |s.batches[entry.0]| ==>
        Free(entry, CleanupThread) in s.frees && entry in s.deleted && LeftBy(s, entry)
    {
      NothingLeaks(longer, entry);
    }
  }

  lemma {:induction false} LongerRuns(actions: seq<Action>, longer: seq<Action>)
    requires GoesOn(actions, longer)
    ensures Run(longer).Some?
  {
  }
}
