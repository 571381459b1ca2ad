/** HiveQueue: the linked-list form of the queue. */
module ListQueue {
  import opened Words

  class Node<T> {
    var msg: T
    var next: Node?<T>

    constructor (msg: T)
      ensures this.msg == msg && next == null
    {
      this.msg := msg;
      next := null;
    }
  }

  class HiveQueue<T> {
    var count: U32
    var head: Node?<T>
    var tail: Node?<T>
    ghost var nodes: seq<Node<T>>

    /** The chain from head to tail runs through `nodes`, once each. */
    ghost predicate Valid()
      reads this, nodes
    {
      && count == Wrap32(|nodes|)
      && (forall i, j :: 0 <= i < j < |nodes| ==> nodes[i] != nodes[j])
      && (forall i :: 0 <= i < |nodes| - 1 ==> nodes[i].next == nodes[i + 1])
      && (nodes != [] ==> nodes[|nodes| - 1].next == null)
      && head == (if nodes == [] then null else nodes[0])
      && tail == (if nodes == [] then null else nodes[|nodes| - 1])
    }

    ghost function Contents(): seq<T>
      reads this, nodes
    {
      Messages(nodes)
    }

    constructor ()
      ensures Valid() && Contents() == [] && nodes == []
    {
      count, head, tail, nodes := 0, null, null, [];
    }

    method Push(msg: T) returns (ok: bool)
      requires Valid()
      modifies this, nodes
      ensures Valid() && ok && |nodes| == |old(nodes)| + 1
      ensures nodes[..|old(nodes)|] == old(nodes) && fresh(nodes[|old(nodes)|])
      ensures Contents() == old(Contents()) + [msg]
    {
      var temp := new Node(msg);
      WrapCount(|nodes|);
      if head == null {
        head, tail := temp, temp;
        count := 1;
      } else {
        tail.next := temp;
        tail := temp;
        count := Wrap32((count as int) + 1);
      }
      nodes := nodes + [temp];
      return true;
    }

    method Remove() returns (ok: bool)
      requires Valid()
      modifies this, nodes
      ensures ok <==> old(nodes) != []
      ensures Valid()
      ensures nodes == if ok then old(nodes)[1..] else []
      ensures Contents() == if ok then old(Contents())[1..] else []
    {
      if head == null {
        return false;
      }
      WrapCount(|nodes| - 1);
      var temp := head;
      assert |nodes| > 1 ==> nodes[0].next == nodes[1];
      head := head.next;
      temp.next := null;
      if head == null {
        tail := null;
      }
      count := Wrap32((count as int) - 1);
      nodes := nodes[1..];
      return true;
    }

    method Peek() returns (msg: Option<T>)
      requires Valid()
      ensures msg == if Contents() == [] then None else Some(Contents()[0])
    {
      return if head == null then None else Some(head.msg);
    }

    method Pop() returns (msg: Option<T>)
      requires Valid()
      modifies this, nodes
      ensures msg == if old(Contents()) == [] then None else Some(old(Contents())[0])
      ensures Valid() && nodes == if old(nodes) == [] then [] else old(nodes)[1..]
      ensures Contents() == if msg.None? then [] else old(Contents())[1..]
    {
      msg := Peek();
      if msg.Some? {
        var _ := Remove();
      }
    }

    method Size() returns (n: U32)
      requires Valid()
      ensures n == Wrap32(|Contents()|)
    {
      n := count;
    }
  }

  ghost function Messages<T>(nodes: seq<Node<T>>): (s: seq<T>)
    reads nodes
    ensures |s| == |nodes|
    ensures forall i :: 0 <= i < |s| ==> s[i] == nodes[i].msg
  {
    seq(|nodes|, i requires 0 <= i < |nodes| reads nodes => nodes[i].msg)
  }

  /** The node counter steps up and down with wrap-around. */
  lemma {:induction false} WrapCount(n: nat)
    ensures Wrap32(Wrap32(n) + 1) == Wrap32(n + 1)
    ensures Wrap32(Wrap32(n + 1) - 1) == Wrap32(n)
  {
  }
}
