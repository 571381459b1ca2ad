/** The ring and the linked list are the same queue, up to the capacity of the ring. */
module QueueTwins {
  import opened ListQueue
  import opened RingQueue
  import opened Words

  datatype Op<T> = Push(msg: T) | Pop | Remove | Peek | Size

  datatype Reply<T> = Success(ok: bool) | Message(msg: Option<T>) | Count(n: nat)

  /** One operation on a queue that holds at most `capacity` messages and counts with `counter`. */
  function Step<T>(s: seq<T>, op: Op<T>, capacity: Option<nat>): (seq<T>, Reply<T>) {
    match op
    case Push(m) =>
      if capacity.Some? && |s| >= capacity.value then (s, Success(false)) else (s + [m], Success(true))
    case Pop => if s == [] then (s, Message(None)) else (s[1..], Message(Some(s[0])))
    case Remove => if s == [] then (s, Success(false)) else (s[1..], Success(true))
    case Peek => (s, Message(if s == [] then None else Some(s[0])))
    case Size => (s, Count(if capacity.Some? then |s| else Wrap32(|s|)))
  }

  function Replies<T>(s: seq<T>, ops: seq<Op<T>>, capacity: Option<nat>): seq<Reply<T>>
    decreases |ops|
  {
    if ops == [] then []
    else
      var r := Step(s, ops[0], capacity);
      [r.1] + Replies(r.0, ops[1..], capacity)
  }

  /** Some push of the trace finds the ring at its capacity. */
  predicate Overflows<T>(s: seq<T>, ops: seq<Op<T>>)
    decreases |ops|
  {
    ops != [] && ((ops[0].Push? && |s| >= CAPACITY) || Overflows(Step(s, ops[0], Some(CAPACITY)).0, ops[1..]))
  }

  /** The two queues give the same answers to exactly the traces that never overflow the ring. */
  lemma {:induction false} TwinsAgree<T>(s: seq<T>, ops: seq<Op<T>>)
    requires |s| <= CAPACITY
    ensures Replies(s, ops, Some(CAPACITY)) == Replies(s, ops, None) <==> !Overflows(s, ops)
    decreases |ops|
  {
    if ops == [] {
    } else {
      var ring, list := Step(s, ops[0], Some(CAPACITY)), Step(s, ops[0], None);
      var ringRest, listRest := Replies(ring.0, ops[1..], Some(CAPACITY)), Replies(list.0, ops[1..], None);
      assert Replies(s, ops, Some(CAPACITY)) == [ring.1] + ringRest;
      assert Replies(s, ops, None) == [list.1] + listRest;
      assert ([ring.1] + ringRest)[0] == ring.1 && ([list.1] + listRest)[0] == list.1;
      assert ([ring.1] + ringRest)[1..] == ringRest && ([list.1] + listRest)[1..] == listRest;
      if !(ops[0].Push? && |s| >= CAPACITY) {
        assert ring == list;
        TwinsAgree(ring.0, ops[1..]);
      }
    }
  }

  /** Answering operation `i` moves its reply from the pending replies to the given ones. */
  lemma {:induction false} OneReply<T>(s: seq<T>, ops: seq<Op<T>>, i: nat, capacity: Option<nat>, replies: seq<Reply<T>>)
    requires i < |ops|
    ensures
      var r := Step(s, ops[i], capacity);
      replies + [r.1] + Replies(r.0, ops[i + 1..], capacity) == replies + Replies(s, ops[i..], capacity)
  {
    hide Step;
    assert ops[i..][1..] == ops[i + 1..];
  }

  lemma {:induction false} NoReplies<T>(s: seq<T>, ops: seq<Op<T>>, capacity: Option<nat>)
    ensures ops == [] ==> Replies(s, ops, capacity) == []
  {
  }

  /** One operation on the array ring is one step of the bounded sequence. */
  method ApplyRing<T(0)>(q: HiveQueueC<T>, op: Op<T>) returns (reply: Reply<T>)
    requires q.Valid()
    modifies q, q.queue
    ensures q.Valid() && (q.queue == old(q.queue) || fresh(q.queue))
    ensures (q.Contents(), reply) == Step(old(q.Contents()), op, Some(CAPACITY))
  {
    match op {
      case Push(m) => var ok := q.Push(m); reply := Success(ok);
      case Pop => var m := q.Pop(); reply := Message(m);
      case Remove => var ok := q.Remove(); reply := Success(ok);
      case Peek => var m := q.Peek(); reply := Message(m);
      case Size => var n := q.Size(); reply := Count(n);
    }
  }

  /** One operation on the linked list is one step of the unbounded sequence. */
  method ApplyList<T>(q: HiveQueue<T>, op: Op<T>) returns (reply: Reply<T>)
    requires q.Valid()
    modifies q, q.nodes
    ensures q.Valid() && forall i :: 0 <= i < |q.nodes| ==> q.nodes[i] in old(q.nodes) || fresh(q.nodes[i])
    ensures (q.Contents(), reply) == Step(old(q.Contents()), op, None)
  {
    match op {
      case Push(m) => var ok := q.Push(m); reply := Success(ok);
      case Pop => var m := q.Pop(); reply := Message(m);
      case Remove => var ok := q.Remove(); reply := Success(ok);
      case Peek => var m := q.Peek(); reply := Message(m);
      case Size => var n := q.Size(); reply := Count(n);
    }
  }

  /** A trace on the array ring gives the replies of the bounded sequence. */
  method RunRing<T(0)>(q: HiveQueueC<T>, ops: seq<Op<T>>) returns (replies: seq<Reply<T>>)
    requires q.Valid()
    modifies q, q.queue
    ensures q.Valid() && replies == Replies(old(q.Contents()), ops, Some(CAPACITY))
  {
    hide Step, Replies, HiveQueueC.Contents;
    replies := [];
    var i := 0;
    assert ops[0..] == ops;
    while i < |ops|
      invariant 0 <= i <= |ops| && q.Valid() && (q.queue == old(q.queue) || fresh(q.queue))
      invariant replies + Replies(q.Contents(), ops[i..], Some(CAPACITY)) == Replies(old(q.Contents()), ops, Some(CAPACITY))
    {
      OneReply(q.Contents(), ops, i, Some(CAPACITY), replies);
      var reply := ApplyRing(q, ops[i]);
      replies := replies + [reply];
      i := i + 1;
    }
    NoReplies(q.Contents(), ops[i..], Some(CAPACITY));
  }

  /** A trace on the linked list gives the replies of the unbounded sequence. */
  method RunList<T>(q: HiveQueue<T>, ops: seq<Op<T>>) returns (replies: seq<Reply<T>>)
    requires q.Valid()
    modifies q, q.nodes
    ensures q.Valid() && replies == Replies(old(q.Contents()), ops, None)
  {
    hide Step, Replies, HiveQueue.Contents;
    replies := [];
    var i := 0;
    assert ops[0..] == ops;
    while i < |ops|
      invariant 0 <= i <= |ops| && q.Valid()
      invariant forall k :: 0 <= k < |q.nodes| ==> q.nodes[k] in old(q.nodes) || fresh(q.nodes[k])
      invariant replies + Replies(q.Contents(), ops[i..], None) == Replies(old(q.Contents()), ops, None)
    {
      OneReply(q.Contents(), ops, i, None, replies);
      var reply := ApplyList(q, ops[i]);
      replies := replies + [reply];
      i := i + 1;
    }
    NoReplies(q.Contents(), ops[i..], None);
  }
}
