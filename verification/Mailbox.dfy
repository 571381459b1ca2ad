/**
 * Messages between threads: any number of senders and one receiver share the queue of a handle under its
 * mutex, and a condition variable wakes the receiver. Each step below is what one thread does between two
 * points where another may run.
 */
module Mailbox {
  import opened Channel
  import opened RingQueue
  import opened Words

  datatype Lock = Free | BySender(i: nat) | ByReceiver

  /** A thread in sendMsg or sendAll: `done` messages pushed, `kept` of them accepted by the queue. */
  datatype Sender<T> =
    | Idle
    | Locked(batch: seq<T>, done: nat, kept: nat, result: bool)
    | Posted(kept: nat, result: bool)

  datatype Call = ReceiveMsg(blocking: bool) | ReceiveAll(blocking: bool)

  /** Where the receiving thread stands; it owns the mutex in Testing, Holding and Draining. */
  datatype Receiver<T> =
    | Outside
    | Testing(call: Call)
    | Asleep(call: Call)
    | Awake(call: Call)
    | Holding(call: Call, msg: T)
    | Draining(call: Call, size: nat, messages: seq<T>)

  /** What a call gave its caller, and how many messages the queue had ever accepted when it returned. */
  datatype Answer<T> = Answer(call: Call, messages: seq<T>, after: nat)

  datatype State<T> = State(
    lock: Lock, senders: seq<Sender<T>>, receiver: Receiver<T>, queue: seq<T>,
    accepted: seq<T>, answers: seq<Answer<T>>)

  datatype Action<T> =
    | Acquire(i: nat, batch: seq<T>)
    | PushNext(i: nat)
    | Release(i: nat)
    | Notify(i: nat)
    | SpuriousWakeup
    | Enter(call: Call)
    | Reacquire
    | LoadMsg
    | Finish

  function Start<T>(n: nat): State<T> {
    State(Free, seq(n, i => Idle), Outside, [], [], [])
  }

  function Next<T>(s: State<T>, a: Action<T>): Option<State<T>> {
    match a
    case Acquire(i, batch) =>
      if i < |s.senders| && s.senders[i].Idle? && s.lock.Free? then
        Some(s.(lock := BySender(i), senders := s.senders[i := Locked(batch, 0, 0, false)]))
      else None
    case PushNext(i) =>
      if i < |s.senders| && s.senders[i].Locked? && s.senders[i].done < |s.senders[i].batch| then
        Some(PushOne(s, i))
      else None
    case Release(i) =>
      if i < |s.senders| && s.senders[i].Locked? && s.senders[i].done >= |s.senders[i].batch| then
        Some(s.(lock := Free, senders := s.senders[i := Posted(s.senders[i].kept, s.senders[i].result)]))
      else None
    case Notify(i) =>
      if i < |s.senders| && s.senders[i].Posted? then
        Some(s.(senders := s.senders[i := Idle],
                receiver := if s.receiver.Asleep? then Awake(s.receiver.call) else s.receiver))
      else None
    case SpuriousWakeup =>
      if s.receiver.Asleep? then Some(s.(receiver := Awake(s.receiver.call))) else None
    case Enter(call) =>
      if s.receiver.Outside? && s.lock.Free? then
        Some(s.(lock := ByReceiver,
                receiver := if call == ReceiveAll(false) then Draining(call, |s.queue|, []) else Testing(call)))
      else None
    case Reacquire =>
      if s.receiver.Awake? && s.lock.Free? then
        Some(s.(lock := ByReceiver, receiver := Testing(s.receiver.call)))
      else None
    case LoadMsg =>
      if s.receiver.Testing? then Some(Test(s, s.receiver.call))
      else if s.receiver.Draining? && s.queue != [] then
        Some(s.(queue := s.queue[1..], receiver := s.receiver.(messages := s.receiver.messages + [s.queue[0]])))
      else None
    case Finish =>
      if s.receiver.Holding? then Some(Return(s, s.receiver.call, [s.receiver.msg]))
      else if s.receiver.Draining? && s.queue == [] then Some(Return(s, s.receiver.call, s.receiver.messages))
      else None
  }

  /** One push of sendMsg or sendAll; the queue refuses it when it is full. */
  function PushOne<T>(s: State<T>, i: nat): State<T>
    requires i < |s.senders| && s.senders[i].Locked? && s.senders[i].done < |s.senders[i].batch|
  {
    var me := s.senders[i];
    var msg := me.batch[me.done];
    if |s.queue| < CAPACITY then
      s.(queue := s.queue + [msg], accepted := s.accepted + [msg],
         senders := s.senders[i := Locked(me.batch, me.done + 1, me.kept + 1, true)])
    else s.(senders := s.senders[i := Locked(me.batch, me.done + 1, me.kept, false)])
  }

  /** The wait predicate, or the single test of a call that does not block: it pops when it succeeds. */
  function Test<T>(s: State<T>, call: Call): State<T> {
    if s.queue != [] then
      var rest := s.queue[1..];
      s.(queue := rest,
         receiver := if call.ReceiveMsg? then Holding(call, s.queue[0]) else Draining(call, |rest| + 1, [s.queue[0]]))
    else if call.blocking then s.(lock := Free, receiver := Asleep(call))
    else Return(s, call, [])
  }

  function Return<T>(s: State<T>, call: Call, messages: seq<T>): State<T> {
    s.(lock := Free, receiver := Outside, answers := s.answers + [Answer(call, messages, |s.accepted|)])
  }

  /** The state after a run, if every step of it was possible. */
  function Run<T>(s: State<T>, actions: seq<Action<T>>): Option<State<T>>
    decreases |actions|
  {
    if actions == [] then Some(s)
    else
      var before := Run(s, actions[..|actions| - 1]);
      if before.None? then None else Next(before.value, actions[|actions| - 1])
  }

  /** Whoever owns the mutex is the only thread inside its critical section. */
  predicate Exclusive<T>(s: State<T>) {
    && (forall i :: 0 <= i < |s.senders| ==> (s.senders[i].Locked? <==> s.lock == BySender(i)))
    && ((s.receiver.Testing? || s.receiver.Holding? || s.receiver.Draining?) <==> s.lock.ByReceiver?)
    && (s.lock.BySender? ==> s.lock.i < |s.senders|)
  }

  predicate Unannounced<T>(sender: Sender<T>) {
    !sender.Idle? && sender.kept > 0
  }

  /** A receiver asleep beside a message is owed a wakeup by a sender that pushed and has not notified. */
  predicate NoLostWakeup<T>(s: State<T>) {
    s.receiver.Asleep? && s.queue != [] ==> exists i :: 0 <= i < |s.senders| && Unannounced(s.senders[i])
  }

  function InHand<T>(r: Receiver<T>): seq<T> {
    if r.Holding? then [r.msg] else if r.Draining? then r.messages else []
  }

  function Delivered<T>(answers: seq<Answer<T>>): seq<T>
    decreases |answers|
  {
    if answers == [] then []
    else Delivered(answers[..|answers| - 1]) + answers[|answers| - 1].messages
  }

  /** Messages received, then those in the receiver's hands, then those queued, are the messages accepted. */
  ghost predicate InOrder<T>(s: State<T>) {
    Delivered(s.answers) + InHand(s.receiver) + s.queue == s.accepted
  }

  /** The array that receiveAll allocates has room for exactly the messages still to be popped. */
  predicate ArrayFits<T>(s: State<T>) {
    && (s.receiver.Draining? ==> s.receiver.call.ReceiveAll? && |s.receiver.messages| + |s.queue| == s.receiver.size)
    && (s.receiver.Draining? && s.receiver.call.blocking ==> |s.receiver.messages| >= 1)
    && (s.receiver.Holding? ==> s.receiver.call.ReceiveMsg?)
  }

  /** A blocking call gave exactly one message, or all that had ever been accepted and were not given before. */
  predicate AnswerFits<T>(answers: seq<Answer<T>>, k: nat)
    requires k < |answers|
  {
    var a := answers[k];
    && (a.call.ReceiveMsg? ==> |a.messages| <= 1)
    && (a.call.blocking ==> |a.messages| >= 1)
    && (a.call.ReceiveAll? || a.messages == [] ==> |Delivered(answers[..k + 1])| == a.after)
  }

  predicate AnswersFit<T>(s: State<T>) {
    forall k :: 0 <= k < |s.answers| ==> AnswerFits(s.answers, k)
  }

  /**
   * The accepted part of a batch stands unbroken at the end of the accepted messages, and the reply, which is
   * that of the last push, tells whether the whole batch was accepted.
   */
  ghost predicate BatchFits<T>(s: State<T>, sender: Sender<T>) {
    sender.Locked? ==>
      && sender.kept <= sender.done <= |sender.batch|
      && sender.kept <= |s.accepted|
      && s.accepted[|s.accepted| - sender.kept..] == sender.batch[..sender.kept]
      && (sender.result <==> 0 < sender.done == sender.kept)
      && (sender.kept < sender.done ==> |s.queue| >= CAPACITY)
  }

  ghost predicate BatchesFit<T>(s: State<T>) {
    forall i :: 0 <= i < |s.senders| ==> BatchFits(s, s.senders[i])
  }

  ghost predicate Invariant<T>(s: State<T>) {
    Exclusive(s) && NoLostWakeup(s) && InOrder(s) && ArrayFits(s) && AnswersFit(s) && BatchesFit(s)
  }

  lemma {:induction false} ExclusiveKept<T>(s: State<T>, a: Action<T>)
    requires Exclusive(s) && Next(s, a).Some?
    ensures Exclusive(Next(s, a).value)
  {
  }

  lemma {:induction false} WakeupKept<T>(s: State<T>, a: Action<T>)
    requires NoLostWakeup(s) && Next(s, a).Some?
    ensures NoLostWakeup(Next(s, a).value)
  {
    var t := Next(s, a).value;
    if t.receiver.Asleep? && t.queue != [] {
      if a.PushNext? && t.queue != s.queue {
        assert Unannounced(t.senders[a.i]);
      } else {
        var i :| 0 <= i < |s.senders| && Unannounced(s.senders[i]);
        assert Unannounced(t.senders[i]);
      }
    }
  }

  lemma {:induction false} ArrayKept<T>(s: State<T>, a: Action<T>)
    requires Exclusive(s) && ArrayFits(s) && Next(s, a).Some?
    ensures ArrayFits(Next(s, a).value)
  {
  }

  lemma {:induction false} OneMoreAnswer<T>(answers: seq<Answer<T>>, last: Answer<T>)
    ensures Delivered(answers + [last]) == Delivered(answers) + last.messages
    ensures forall k :: 0 <= k < |answers| ==> (AnswerFits(answers + [last], k) <==> AnswerFits(answers, k))
    ensures (answers + [last])[..|answers| + 1] == answers + [last]
  {
    var longer := answers + [last];
    assert longer[..|longer| - 1] == answers;
    forall k | 0 <= k < |answers| ensures AnswerFits(longer, k) <==> AnswerFits(answers, k) {
      assert longer[..k + 1] == answers[..k + 1];
    }
  }

  lemma {:induction false} Regroup<T>(given: seq<T>, hand: seq<T>, queue: seq<T>, msg: T)
    ensures given + hand + (queue + [msg]) == given + hand + queue + [msg]
    ensures given + hand + queue == (given + hand) + [] + queue
    ensures queue != [] ==> given + (hand + [queue[0]]) + queue[1..] == given + hand + queue
    ensures hand == [] && queue != [] ==> given + [queue[0]] + queue[1..] == given + hand + queue
  {
  }

  lemma {:induction false} OrderKept<T>(s: State<T>, a: Action<T>)
    requires InOrder(s) && Next(s, a).Some?
    ensures InOrder(Next(s, a).value)
  {
    hide Delivered, AnswerFits;
    var t, given := Next(s, a).value, Delivered(s.answers);
    if a.PushNext? {
      Regroup(given, InHand(s.receiver), s.queue, s.senders[a.i].batch[s.senders[a.i].done]);
    } else if s.queue != [] {
      Regroup(given, InHand(s.receiver), s.queue, s.queue[0]);
    }
    if t.answers != s.answers {
      OneMoreAnswer(s.answers, t.answers[|s.answers|]);
      assert given + [] == given;
    }
  }

  lemma {:induction false} AnswerJoins<T>(answers: seq<Answer<T>>, last: Answer<T>)
    requires forall k :: 0 <= k < |answers| ==> AnswerFits(answers, k)
    requires last.call.ReceiveMsg? ==> |last.messages| <= 1
    requires last.call.blocking ==> |last.messages| >= 1
    requires last.call.ReceiveAll? || last.messages == [] ==> |Delivered(answers)| + |last.messages| == last.after
    ensures forall k :: 0 <= k < |answers + [last]| ==> AnswerFits(answers + [last], k)
  {
    hide Delivered;
    OneMoreAnswer(answers, last);
    assert AnswerFits(answers + [last], |answers|);
  }

  lemma {:induction false} AnswersKept<T>(s: State<T>, a: Action<T>)
    requires ArrayFits(s) && InOrder(s) && AnswersFit(s) && Next(s, a).Some?
    ensures AnswersFit(Next(s, a).value)
  {
    hide Delivered, AnswerFits;
    var t := Next(s, a).value;
    if t.answers != s.answers {
      var last := t.answers[|s.answers|];
      assert t.answers == s.answers + [last];
      if last.call.ReceiveAll? || last.messages == [] {
        assert s.queue == [];
      }
      AnswerJoins(s.answers, last);
    }
  }

  lemma {:induction false} BatchGrows<T>(s: State<T>, i: nat)
    requires i < |s.senders| && s.senders[i].Locked? && s.senders[i].done < |s.senders[i].batch|
    requires BatchFits(s, s.senders[i])
    ensures BatchFits(PushOne(s, i), PushOne(s, i).senders[i])
  {
    var me := s.senders[i];
    assert me.batch[..me.kept] + [me.batch[me.kept]] == me.batch[..me.kept + 1];
  }

  lemma {:induction false} BatchesKept<T>(s: State<T>, a: Action<T>)
    requires Exclusive(s) && BatchesFit(s) && Next(s, a).Some?
    ensures BatchesFit(Next(s, a).value)
  {
    hide BatchFits;
    var t := Next(s, a).value;
    forall i | 0 <= i < |t.senders| ensures BatchFits(t, t.senders[i]) {
      if a == PushNext(i) {
        BatchGrows(s, i);
      } else {
        BatchStays(s, a, i);
      }
    }
  }

  lemma {:induction false} BatchStays<T>(s: State<T>, a: Action<T>, i: nat)
    requires Exclusive(s) && i < |s.senders| && BatchFits(s, s.senders[i])
    requires Next(s, a).Some? && a != PushNext(i) && i < |Next(s, a).value.senders|
    ensures BatchFits(Next(s, a).value, Next(s, a).value.senders[i])
  {
    assert s.senders[i].Locked? ==> s.lock == BySender(i);
    if a.PushNext? {
      assert s.lock == BySender(a.i);
    }
  }

  /** Every state that any interleaving reaches keeps the whole protocol invariant. */
  lemma {:induction false} EveryRun<T>(n: nat, actions: seq<Action<T>>)
    requires Run(Start(n), actions).Some?
    ensures Invariant(Run(Start(n), actions).value)
    decreases |actions|
  {
    if actions == [] {
    } else {
      var shorter, a := actions[..|actions| - 1], actions[|actions| - 1];
      EveryRun<T>(n, shorter);
      var s := Run(Start(n), shorter).value;
      ExclusiveKept(s, a);
      WakeupKept(s, a);
      OrderKept(s, a);
      ArrayKept(s, a);
      AnswersKept(s, a);
      BatchesKept(s, a);
    }
  }

  /** When no send is under way, a sleeping receiver has nothing to receive. */
  lemma {:induction false} SleepsOnlyOnEmpty<T>(n: nat, actions: seq<Action<T>>)
    requires Run(Start(n), actions).Some?
    ensures
      var s := Run(Start(n), actions).value;
      s.receiver.Asleep? && (forall i :: 0 <= i < |s.senders| ==> s.senders[i].Idle?) ==> s.queue == []
  {
    EveryRun<T>(n, actions);
  }

  /** In every run the messages received are the first of those accepted, in the order of the mutex. */
  lemma {:induction false} ReceivedInOrder<T>(n: nat, actions: seq<Action<T>>)
    requires Run(Start(n), actions).Some?
    ensures
      var s := Run(Start(n), actions).value;
      Delivered(s.answers) <= s.accepted && (s.receiver.Outside? ==> Delivered(s.answers) + s.queue == s.accepted)
  {
    EveryRun<T>(n, actions);
    var s := Run(Start(n), actions).value;
    assert s.receiver.Outside? ==> Delivered(s.answers) + [] == Delivered(s.answers);
  }

  /**
   * A call that is about to return holds one message, or has filled its whole array and left the queue empty;
   * then everything ever accepted has been received.
   */
  lemma {:induction false} CallsReturnWhole<T>(n: nat, actions: seq<Action<T>>)
    requires Run(Start(n), actions).Some? && Next(Run(Start(n), actions).value, Finish).Some?
    ensures
      var s, t := Run(Start(n), actions).value, Next(Run(Start(n), actions).value, Finish).value;
      && t.lock.Free? && t.receiver.Outside? && |t.answers| == |s.answers| + 1
      && (s.receiver.Holding? ==> s.receiver.call.ReceiveMsg? && t.answers[|s.answers|].messages == [s.receiver.msg])
      && (s.receiver.Draining? ==>
            && s.receiver.call.ReceiveAll?
            && |t.answers[|s.answers|].messages| == s.receiver.size
            && t.queue == [] && Delivered(t.answers) == t.accepted)
  {
    hide Run, Start, Delivered;
    EveryRun<T>(n, actions);
    var s, t := Run(Start(n), actions).value, Next(Run(Start(n), actions).value, Finish).value;
    OrderKept(s, Finish);
    assert Delivered(t.answers) + [] == Delivered(t.answers);
  }

  /** The reply of a send, that of its last push, is true exactly when the whole batch was accepted in one piece. */
  lemma {:induction false} RepliesAreForBatches<T>(n: nat, actions: seq<Action<T>>, i: nat)
    requires Run(Start(n), actions).Some? && Next(Run(Start(n), actions).value, Release(i)).Some?
    ensures
      var s, t := Run(Start(n), actions).value, Next(Run(Start(n), actions).value, Release(i)).value;
      t.senders[i].result <==> s.senders[i].batch != [] && s.senders[i].kept == |s.senders[i].batch|
    ensures
      var s := Run(Start(n), actions).value;
      var kept := s.senders[i].kept;
      && kept <= |s.senders[i].batch| && kept <= |s.accepted|
      && s.accepted[|s.accepted| - kept..] == s.senders[i].batch[..kept]
  {
    hide Run, Start;
    EveryRun<T>(n, actions);
    assert BatchFits(Run(Start(n), actions).value, Run(Start(n), actions).value.senders[i]);
  }

  /** A step of a call that is already under way, and no spurious wakeup. */
  predicate UnderWay<T>(a: Action<T>) {
    a.PushNext? || a.Release? || a.Notify? || a.Reacquire? || a.LoadMsg?
  }

  lemma {:induction false} OneStep<T>(s: State<T>, actions: seq<Action<T>>, a: Action<T>)
    requires Run(s, actions).Some?
    ensures Run(s, actions + [a]) == Next(Run(s, actions).value, a)
  {
    hide Next;
    assert (actions + [a])[..|actions|] == actions;
  }

  /** A sender that owns the mutex can push the rest of its batch and let go. */
  lemma {:induction false} FinishSend<T>(s: State<T>, actions: seq<Action<T>>, i: nat) returns (longer: seq<Action<T>>)
    requires Run(s, actions).Some? && (forall a :: a in actions ==> UnderWay(a))
    requires
      var c := Run(s, actions).value;
      Exclusive(c) && i < |c.senders| && c.senders[i].Locked?
    ensures Run(s, longer).Some? && (forall a :: a in longer ==> UnderWay(a))
    ensures
      var c, t := Run(s, actions).value, Run(s, longer).value;
      && Exclusive(t) && t.lock.Free? && t.receiver == c.receiver && c.queue <= t.queue
      && |t.senders| == |c.senders| && t.senders[i].Posted?
      && forall k :: 0 <= k < |c.senders| && k != i ==> t.senders[k] == c.senders[k]
    decreases
      var me := Run(s, actions).value.senders[i];
      |me.batch| - me.done
  {
    hide Run;
    var c := Run(s, actions).value;
    var a := if c.senders[i].done < |c.senders[i].batch| then PushNext(i) else Release(i);
    OneStep(s, actions, a);
    ExclusiveKept(c, a);
    longer := actions + [a];
    if a.PushNext? {
      longer := FinishSend(s, longer, i);
    }
  }

  /** A notified receiver can take the mutex and the first message. */
  lemma {:induction false} WakeAndTake<T>(s: State<T>, i: nat)
    requires i < |s.senders| && s.senders[i].Posted? && s.lock.Free? && s.receiver.Asleep? && s.queue != []
    ensures
      var t := Run(s, [Notify(i)] + [Reacquire] + [LoadMsg]);
      t.Some? && InHand(t.value.receiver) == [s.queue[0]]
  {
    assert Run(s, []) == Some(s);
    var one: seq<Action<T>> := [Notify(i)];
    assert [] + one == one;
    hide Run;
    OneStep(s, [], Notify(i));
    OneStep(s, [Notify(i)], Reacquire);
    OneStep(s, [Notify(i)] + [Reacquire], LoadMsg);
  }

  lemma {:induction false} RunsJoin<T>(s: State<T>, first: seq<Action<T>>, second: seq<Action<T>>)
    requires Run(s, first).Some?
    ensures Run(s, first + second) == Run(Run(s, first).value, second)
    decreases |second|
  {
    hide Next;
    if second == [] {
      assert first + second == first;
    } else {
      var shorter, a := second[..|second| - 1], second[|second| - 1];
      RunsJoin(s, first, shorter);
      assert (first + second)[..|first + second| - 1] == first + shorter;
      assert (first + second)[|first + second| - 1] == a;
    }
  }

  /**
   * No deadlock: whenever the receiver of a reachable state sleeps beside a message, the sends under way
   * can finish, wake it, and put the first queued message into its hands.
   */
  lemma {:induction false} SleeperCanReceive<T>(s: State<T>) returns (actions: seq<Action<T>>)
    requires Exclusive(s) && NoLostWakeup(s) && s.receiver.Asleep? && s.queue != []
    ensures forall a :: a in actions ==> UnderWay(a)
    ensures Run(s, actions).Some? && InHand(Run(s, actions).value.receiver) == [s.queue[0]]
  {
    var i :| 0 <= i < |s.senders| && Unannounced(s.senders[i]);
    actions := [];
    assert Run(s, actions) == Some(s);
    hide Run, Next;
    if s.lock.BySender? {
      actions := FinishSend(s, actions, s.lock.i);
    }
    var t := Run(s, actions).value;
    assert t.senders[i].Posted?;
    WakeAndTake(t, i);
    RunsJoin(s, actions, [Notify(i)] + [Reacquire] + [LoadMsg]);
    actions := actions + ([Notify(i)] + [Reacquire] + [LoadMsg]);
  }

  function Repeat<T>(a: Action<T>, n: nat): (actions: seq<Action<T>>)
    ensures |actions| == n && forall k :: 0 <= k < n ==> actions[k] == a
  {
    seq(n, k => a)
  }

  /** A sender in the middle of its batch, when the queue and the accepted messages were those of `s` before. */
  function Midway<T>(s: State<T>, i: nat, batch: seq<T>, n: nat): State<T>
    requires i < |s.senders| && n <= |batch|
  {
    var kept := Accepted(|s.queue|, n);
    s.(queue := s.queue + batch[..kept], accepted := s.accepted + batch[..kept],
       senders := s.senders[i := Locked(batch, n, kept, 0 < n && |s.queue| + n <= CAPACITY)])
  }

  lemma {:induction false} OnePush<T>(s: State<T>, i: nat, batch: seq<T>, n: nat)
    requires i < |s.senders| && n < |batch|
    ensures Next(Midway(s, i, batch, n), PushNext(i)) == Some(Midway(s, i, batch, n + 1))
  {
    var c, kept := Midway(s, i, batch, n), Accepted(|s.queue|, n);
    OneMore(s.queue, batch, n);
    assert c.senders[i].Locked?;
    var t := Next(c, PushNext(i)).value;
    assert batch[..n + 1] == batch[..n] + [batch[n]];
    assert t.queue == Midway(s, i, batch, n + 1).queue;
    assert t.accepted == Midway(s, i, batch, n + 1).accepted;
    assert t.senders == Midway(s, i, batch, n + 1).senders;
  }

  /** The pushes of one sender, taken together, do what the method SendAll does to the queue, and nothing else. */
  lemma {:induction false} PushesAreSendAll<T>(s: State<T>, i: nat, batch: seq<T>, n: nat)
    requires i < |s.senders| && s.senders[i] == Locked(batch, 0, 0, false) && n <= |batch|
    ensures
      var kept := Accepted(|s.queue|, n);
      Run(s, Repeat(PushNext(i), n)) ==
      Some(s.(queue := s.queue + batch[..kept], accepted := s.accepted + batch[..kept],
              senders := s.senders[i := Locked(batch, n, kept, 0 < n && |s.queue| + n <= CAPACITY)]))
    decreases n
  {
    hide Next;
    if n == 0 {
      assert s.queue + batch[..0] == s.queue && s.accepted + batch[..0] == s.accepted;
      assert s.senders[i := Locked(batch, 0, 0, false)] == s.senders;
    } else {
      PushesAreSendAll(s, i, batch, n - 1);
      assert Repeat(PushNext(i), n)[..n - 1] == Repeat<T>(PushNext(i), n - 1);
      assert Run(s, Repeat(PushNext(i), n - 1)) == Some(Midway(s, i, batch, n - 1));
      assert Run(s, Repeat(PushNext(i), n)) == Next(Midway(s, i, batch, n - 1), PushNext(i));
      OnePush(s, i, batch, n - 1);
    }
  }

  /** The pops of receiveAll, taken together, do what the method Drain does to the queue and its array. */
  lemma {:induction false} PopsAreDrain<T>(s: State<T>, n: nat)
    requires s.receiver.Draining? && n <= |s.queue|
    ensures
      Run(s, Repeat(LoadMsg, n)) ==
      Some(s.(queue := s.queue[n..], receiver := s.receiver.(messages := s.receiver.messages + s.queue[..n])))
    decreases n
  {
    if n == 0 {
      assert s.receiver.messages + s.queue[..0] == s.receiver.messages;
    } else {
      PopsAreDrain(s, n - 1);
      assert Repeat(LoadMsg, n)[..n - 1] == Repeat<T>(LoadMsg, n - 1);
      assert s.queue[..n] == s.queue[..n - 1] + [s.queue[n - 1]];
      assert s.receiver.messages + s.queue[..n - 1] + [s.queue[n - 1]] == s.receiver.messages + s.queue[..n];
    }
  }

  // ---------- What one call does when no other thread interferes ----------

  /** What a call gives of a queue: the first message, or all of them. */
  function Given<T>(call: Call, queue: seq<T>): seq<T> {
    if call.ReceiveAll? then queue else if queue == [] then [] else [queue[0]]
  }

  /** A call that finds a message, or does not wait for one, gives what its kind says and leaves the rest. */
  lemma {:induction false} CallAlone<T>(s: State<T>, call: Call) returns (actions: seq<Action<T>>)
    requires s.receiver.Outside? && s.lock.Free? && (call.blocking ==> s.queue != [])
    ensures
      var given := Given(call, s.queue);
      Run(s, actions) ==
      Some(s.(queue := s.queue[|given|..], answers := s.answers + [Answer(call, given, |s.accepted|)]))
  {
    var enter: seq<Action<T>>, load: seq<Action<T>> := [Enter(call)], [LoadMsg];
    assert Run(s, []) == Some(s) && [] + enter == enter;
    assert s.queue[0..] == s.queue && s.queue[|s.queue|..] == [];
    assert [] + s.queue == s.queue;
    assert s.(lock := Free, receiver := Outside) == s;
    OneStep(s, [], Enter(call));
    hide Run;
    if call == ReceiveAll(false) {
      actions := DrainAlone(s, enter, call, []);
    } else {
      OneStep(s, enter, LoadMsg);
      if s.queue == [] {
        actions := enter + load;
      } else if call.ReceiveMsg? {
        OneStep(s, enter + load, Finish);
        actions := enter + load + [Finish];
      } else {
        actions := DrainAlone(s, enter + load, call, [s.queue[0]]);
        assert [s.queue[0]] + s.queue[1..] == s.queue;
      }
    }
  }

  /** Once it drains, receiveAll pops all that is left and returns. */
  lemma {:induction false} DrainAlone<T>(s: State<T>, actions: seq<Action<T>>, call: Call, first: seq<T>)
      returns (longer: seq<Action<T>>)
    requires |first| <= |s.queue|
    requires Run(s, actions) == Some(s.(lock := ByReceiver, queue := s.queue[|first|..],
                                        receiver := Draining(call, |s.queue|, first)))
    ensures Run(s, longer) == Some(s.(lock := Free, receiver := Outside, queue := [],
                                      answers := s.answers + [Answer(call, first + s.queue[|first|..], |s.accepted|)]))
  {
    var c := Run(s, actions).value;
    var n := |c.queue|;
    PopsAreDrain(c, n);
    RunsJoin(s, actions, Repeat(LoadMsg, n));
    assert c.queue[..n] == c.queue && c.queue[n..] == [];
    hide Run;
    OneStep(s, actions + Repeat(LoadMsg, n), Finish);
    longer := actions + Repeat(LoadMsg, n) + [Finish];
  }

  /** A call that does not wait and finds no message returns at once, empty-handed, and changes nothing else. */
  lemma {:induction false} EmptyHanded<T>(s: State<T>)
    requires s.receiver.Testing? && !s.receiver.call.blocking && s.queue == []
    ensures
      Next(s, LoadMsg) ==
      Some(s.(lock := Free, receiver := Outside, answers := s.answers + [Answer(s.receiver.call, [], |s.accepted|)]))
  {
    assert s.queue == [];
  }

  /** A call that waits and finds no message sleeps; woken for nothing, it sleeps again. */
  lemma {:induction false} WaitsOnEmpty<T>(s: State<T>, call: Call)
    requires s.receiver.Outside? && s.lock.Free? && s.queue == [] && call.blocking
    ensures Run(s, [Enter(call)] + [LoadMsg]) == Some(s.(receiver := Asleep(call)))
    ensures Run(s, [Enter(call)] + [LoadMsg] + [SpuriousWakeup] + [Reacquire] + [LoadMsg]) ==
            Some(s.(receiver := Asleep(call)))
  {
    var enter: seq<Action<T>> := [Enter(call)];
    assert Run(s, []) == Some(s) && [] + enter == enter;
    hide Run;
    OneStep(s, [], Enter(call));
    OneStep(s, enter, LoadMsg);
    OneStep(s, enter + [LoadMsg], SpuriousWakeup);
    OneStep(s, enter + [LoadMsg] + [SpuriousWakeup], Reacquire);
    OneStep(s, enter + [LoadMsg] + [SpuriousWakeup] + [Reacquire], LoadMsg);
  }

  /** In every run only calls that wait ever sleep. */
  lemma {:induction false} OnlyWaitersSleep<T>(n: nat, actions: seq<Action<T>>)
    requires Run(Start(n), actions).Some?
    ensures
      var r := Run(Start(n), actions).value.receiver;
      r.Asleep? || r.Awake? ==> r.call.blocking
    decreases |actions|
  {
    if actions == [] {
    } else {
      OnlyWaitersSleep<T>(n, actions[..|actions| - 1]);
    }
  }

  /** A sender that is through with its batch lets go and notifies. */
  lemma {:induction false} LetGo<T>(s: State<T>, actions: seq<Action<T>>, i: nat)
    requires Run(s, actions).Some?
    requires
      var c := Run(s, actions).value;
      i < |c.senders| && c.senders[i].Locked? && c.senders[i].done == |c.senders[i].batch|
    ensures
      var c := Run(s, actions).value;
      Run(s, actions + [Release(i)] + [Notify(i)]) ==
      Some(c.(lock := Free, senders := c.senders[i := Idle],
              receiver := if c.receiver.Asleep? then Awake(c.receiver.call) else c.receiver))
  {
    hide Run;
    var c := Run(s, actions).value;
    OneStep(s, actions, Release(i));
    OneStep(s, actions + [Release(i)], Notify(i));
    var t := Run(s, actions + [Release(i)]).value;
    assert t.senders[i := Idle] == c.senders[i := Idle];
  }

  /** A whole send: the queue takes what fits, a sleeping receiver is awake, and the sender is where it was. */
  lemma {:induction false} SendAlone<T>(s: State<T>, i: nat, batch: seq<T>) returns (actions: seq<Action<T>>)
    requires i < |s.senders| && s.senders[i].Idle? && s.lock.Free?
    ensures
      var kept := Accepted(|s.queue|, |batch|);
      Run(s, actions) ==
      Some(s.(queue := s.queue + batch[..kept], accepted := s.accepted + batch[..kept],
              receiver := if s.receiver.Asleep? then Awake(s.receiver.call) else s.receiver))
  {
    var acquire: seq<Action<T>>, pushes := [Acquire(i, batch)], Repeat<T>(PushNext(i), |batch|);
    assert Run(s, []) == Some(s) && [] + acquire == acquire;
    hide Run, Accepted;
    OneStep(s, [], Acquire(i, batch));
    var c := Run(s, acquire).value;
    PushesAreSendAll(c, i, batch, |batch|);
    RunsJoin(s, acquire, pushes);
    hide Next;
    LetGo(s, acquire + pushes, i);
    actions := acquire + pushes + [Release(i)] + [Notify(i)];
    assert Run(s, acquire + pushes).value.senders[i := Idle] == s.senders;
  }
}
