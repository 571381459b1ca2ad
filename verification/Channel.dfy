/** What senders and the receiver of a handle do to its queue while they hold its mutex. */
module Channel {
  import opened RingQueue

  /** How many of `n` messages a queue that holds `queued` accepts. */
  function Accepted(queued: nat, n: nat): (kept: nat)
    ensures kept <= n
  {
    if queued >= CAPACITY then 0 else if queued + n <= CAPACITY then n else CAPACITY - queued
  }

  lemma {:induction false} NoneYet(queued: nat)
    ensures Accepted(queued, 0) == 0
  {
  }

  /** The queue that took what it could of `n` messages takes the next one exactly if it has room. */
  lemma {:induction false} OneMore<T>(before: seq<T>, messages: seq<T>, n: nat)
    requires n < |messages|
    ensures
      var now := before + messages[..Accepted(|before|, n)];
      && (|now| < CAPACITY <==> |before| + n < CAPACITY)
      && before + messages[..Accepted(|before|, n + 1)] == if |now| < CAPACITY then now + [messages[n]] else now
  {
    assert messages[..n + 1] == messages[..n] + [messages[n]];
  }

  /** The handle's queue with the receiving hive's `currentMsg`. */
  class HandleQueue<T(0)> {
    const msgQueue: HiveQueueC<T>
    var currentMsg: T

    ghost predicate Valid()
      reads this, msgQueue
    {
      msgQueue.Valid()
    }

    ghost function Queued(): seq<T>
      reads this, msgQueue, msgQueue.queue
      requires Valid()
    {
      msgQueue.Contents()
    }

    constructor (currentMsg: T)
      ensures Valid() && Queued() == [] && fresh(msgQueue) && fresh(msgQueue.queue)
    {
      msgQueue := new HiveQueueC();
      this.currentMsg := currentMsg;
    }

    /** The wait predicate of a blocking receive: it pops exactly when it succeeds. */
    method LoadMsg() returns (ok: bool)
      requires Valid()
      modifies this, msgQueue
      ensures Valid() && msgQueue.queue == old(msgQueue.queue)
      ensures ok <==> old(Queued()) != []
      ensures ok ==> [currentMsg] + Queued() == old(Queued())
      ensures !ok ==> Queued() == [] && currentMsg == old(currentMsg)
    {
      var size := msgQueue.Size();
      if 0 < size {
        var msg := msgQueue.Pop();
        currentMsg := msg.value;
        return true;
      }
      return false;
    }

    method SendMsg(msg: T) returns (result: bool)
      requires Valid()
      modifies msgQueue, msgQueue.queue
      ensures Valid() && (msgQueue.queue == old(msgQueue.queue) || fresh(msgQueue.queue))
      ensures result <==> |old(Queued())| < CAPACITY
      ensures Queued() == if result then old(Queued()) + [msg] else old(Queued())
    {
      result := msgQueue.Push(msg);
    }

    /** The reply is that of the last push, and yet true exactly when all of a non-empty batch was accepted. */
    method SendAll(messages: seq<T>) returns (result: bool)
      requires Valid()
      modifies msgQueue, msgQueue.queue
      ensures Valid()
      ensures Queued() == old(Queued()) + messages[..Accepted(|old(Queued())|, |messages|)]
      ensures result <==> messages != [] && |old(Queued())| + |messages| <= CAPACITY
    {
      hide HiveQueueC.Contents, Accepted;
      ghost var before := Queued();
      result := false;
      var i := 0;
      assert Accepted(|before|, 0) == 0 && before + messages[..0] == before by { NoneYet(|before|); }
      while i < |messages|
        invariant 0 <= i <= |messages| && Valid()
        invariant msgQueue.queue == old(msgQueue.queue) || fresh(msgQueue.queue)
        invariant Queued() == before + messages[..Accepted(|before|, i)]
        invariant result <==> 0 < i && |before| + i <= CAPACITY
      {
        OneMore(before, messages, i);
        result := msgQueue.Push(messages[i]);
        i := i + 1;
      }
    }

    /** The loop of receiveAll: pops into the array until the queue is empty. */
    method Drain(messages: array<T>, first: nat)
      requires Valid() && messages != msgQueue.queue && first + |Queued()| == messages.Length
      modifies this, msgQueue, messages
      ensures Valid() && msgQueue.queue == old(msgQueue.queue) && Queued() == []
      ensures messages[..] == old(messages[..first]) + old(Queued())
    {
      hide HiveQueueC.Contents;
      ghost var all := old(messages[..first]) + old(Queued());
      var i := first;
      var more := LoadMsg();
      while more
        invariant Valid() && msgQueue.queue == old(msgQueue.queue) && first <= i
        invariant !more ==> Queued() == []
        invariant i + (if more then 1 else 0) + |Queued()| == messages.Length
        invariant messages[..i] + (if more then [currentMsg] else []) + Queued() == all
        decreases |Queued()|, more
      {
        messages[i] := currentMsg;
        i := i + 1;
        more := LoadMsg();
      }
      assert messages[..i] == messages[..];
    }

    /** receiveAll once the wait has popped the first message: a new array with that one and all others. */
    method TakeRest() returns (messages: array<T>, size: nat)
      requires Valid()
      modifies this, msgQueue
      ensures Valid() && Queued() == [] && fresh(messages)
      ensures size == messages.Length && messages[..] == [old(currentMsg)] + old(Queued())
    {
      hide HiveQueueC.Contents;
      size := msgQueue.Size();
      size := size + 1;
      messages := new T[size];
      messages[0] := currentMsg;
      assert messages[..1] == [currentMsg];
      Drain(messages, 1);
    }

    /** receiveAll without blocking: all messages in order, and whether there were any. */
    method ReceiveAllNow() returns (result: bool, messages: array<T>)
      requires Valid()
      modifies this, msgQueue
      ensures Valid() && Queued() == [] && fresh(messages)
      ensures messages[..] == old(Queued()) && (result <==> old(Queued()) != [])
    {
      hide HiveQueueC.Contents;
      var size := msgQueue.Size();
      messages := new T[size];
      Drain(messages, 0);
      result := size > 0;
    }
  }
}
