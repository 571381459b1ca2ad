/** HiveQueueC: a first-in first-out queue in an array that grows by fifty. */
module RingQueue {
  import opened Words

  const HQ_INIT_SIZE := 50

  /** The largest multiple of fifty an unsigned int can hold; growing beyond it wraps around. */
  const CAPACITY := 4294967250

  /** Fifty more slots can be counted exactly below the capacity. */
  lemma {:induction false} CanGrow(aSize: U32)
    requires aSize % HQ_INIT_SIZE == 0
    ensures aSize < Wrap32(aSize + HQ_INIT_SIZE) <==> aSize < CAPACITY
    ensures aSize < CAPACITY ==> Wrap32(aSize + HQ_INIT_SIZE) % HQ_INIT_SIZE == 0
    ensures aSize <= CAPACITY
  {
  }

  class HiveQueueC<T(0)> {
    var count: nat
    var aSize: nat
    var tail: nat
    var head: nat
    var queue: array<T>

    /** The slot `offset` places behind the head. */
    ghost function Slot(offset: nat): int
      reads this
    {
      if head + offset < aSize then head + offset else head + offset - aSize
    }

    /** The shape of the ring: for a non-empty ring the tail stands right behind the last message. */
    ghost predicate Ring()
      reads this
    {
      && 2 <= aSize == queue.Length && aSize < U32_SPAN
      && count <= aSize && head < aSize && tail < aSize
      && (0 < count ==> tail == Slot(count))
    }

    ghost predicate Valid()
      reads this
    {
      Ring() && aSize % HQ_INIT_SIZE == 0
    }

    /** The messages in the order they were pushed. */
    ghost function Contents(): (s: seq<T>)
      reads this, queue
      requires Ring()
      ensures |s| == count
    {
      if head + count <= aSize then queue[head..head + count]
      else queue[head..] + queue[..head + count - aSize]
    }

    constructor ()
      ensures Valid() && Contents() == [] && fresh(queue)
    {
      count, aSize, head, tail := 0, HQ_INIT_SIZE, 0, 0;
      queue := new T[HQ_INIT_SIZE];
    }

    /** Appends, and fails only when the ring is full and its size cannot be counted any further. */
    method Push(msg: T) returns (ok: bool)
      requires Valid()
      modifies this, queue
      ensures Valid() && (queue == old(queue) || fresh(queue))
      ensures ok <==> old(count) < CAPACITY
      ensures Contents() == if ok then old(Contents()) + [msg] else old(Contents())
      decreases count == aSize
    {
      hide Contents, Slot;
      CanGrow(aSize);
      if count < 1 {
        PushFirst(msg);
      } else if count < aSize {
        PushRoom(msg);
      } else {
        FullOrInFront();
        ok := Grow(Wrap32(aSize + HQ_INIT_SIZE));
        if !ok {
          return false;
        }
        FullOrInFront();
        var _ := Push(msg);
      }
      return true;
    }

    /** In a full ring the tail has caught up with the head; with the head in front, messages are a prefix. */
    lemma {:induction false} FullOrInFront()
      requires Ring()
      ensures count == aSize ==> tail == head
      ensures head == 0 ==> Contents() == queue[..count]
    {
    }

    /** The branch of push that finds an empty ring. */
    method PushFirst(msg: T)
      requires Ring() && count == 0
      modifies this`tail, this`count, this`head, queue
      ensures Ring() && count == 1 && Contents() == old(Contents()) + [msg]
    {
      tail, count, head := 1, 1, 0;
      queue[0] := msg;
    }

    /** The branch of push that finds a free slot in a non-empty ring. */
    method PushRoom(msg: T)
      requires Ring() && 1 <= count < aSize
      modifies this`tail, this`count, queue
      ensures Ring() && count == old(count) + 1
      ensures Contents() == old(Contents()) + [msg]
    {
      ghost var before := Contents();
      queue[tail] := msg;
      tail := tail + 1;
      count := count + 1;
      if tail >= aSize {
        tail := 0;
      }
      assert forall i :: 0 <= i < |before| ==> Contents()[i] == before[i];
      assert Contents()[|before|] == msg;
    }

    /** All slots from the head on, and those in front of the tail if the ring wraps around. */
    ghost function Unrolled(): seq<T>
      reads this, queue
      requires Ring()
    {
      if head >= tail then queue[head..] + queue[..tail] else queue[head..]
    }

    lemma {:induction false} MessagesComeFirst()
      requires Ring()
      ensures count <= |Unrolled()| && Unrolled()[..count] == Contents()
      ensures |Unrolled()| == count <==> count != 0 && head >= tail
    {
    }

    /** One of the two copying loops of grow. */
    method CopySlots(temp: array<T>, at: nat, first: nat, last: nat)
      requires temp != queue && first <= last <= queue.Length && at + last - first <= temp.Length
      modifies temp
      ensures temp[..at + last - first] == old(temp[..at]) + queue[first..last]
    {
      var i, j := first, at;
      while i != last
        invariant first <= i <= last && j == at + i - first
        invariant temp[..j] == old(temp[..at]) + queue[first..i]
      {
        temp[j] := queue[i];
        i := i + 1;
        j := j + 1;
      }
    }

    lemma {:induction false} SlotAtFront()
      requires head == 0 && count < aSize
      ensures Slot(count) == count
    {
    }

    lemma {:induction false} UnrolledHalves()
      requires Ring()
      ensures Unrolled() == if head >= tail then queue[head..aSize] + queue[..tail] else queue[head..aSize]
    {
    }

    method Unroll(newSize: nat) returns (temp: array<T>, j: nat)
      requires Ring() && aSize < newSize
      ensures fresh(temp) && temp.Length == newSize
      ensures j < newSize && temp[..j] == Unrolled()
    {
      hide Contents, Unrolled;
      UnrolledHalves();
      temp := new T[newSize];
      CopySlots(temp, 0, head, aSize);
      j := aSize - head;
      if head >= tail {
        CopySlots(temp, j, 0, tail);
        j := j + tail;
      }
    }

    /**
     * Copies the messages to the front of a larger array, in order. The new tail is right exactly when
     * the ring was empty, full or wrapped around.
     */
    method Grow(newSize: U32) returns (ok: bool)
      requires Ring()
      modifies this
      ensures ok <==> old(aSize) < newSize
      ensures !ok ==> unchanged(this)
      ensures count == old(count)
      ensures ok ==> fresh(queue) && head == 0 && aSize == newSize == queue.Length
      ensures ok ==> (Ring() <==> count == 0 || old(head) >= old(tail))
      ensures ok ==> queue[..count] == old(Contents())
    {
      hide Contents, Unrolled, Slot;
      if newSize <= aSize {
        return false;
      }
      MessagesComeFirst();
      var temp, j := Unroll(newSize);
      assert temp[..count] == Unrolled()[..count];
      tail := j;
      head := 0;
      aSize := newSize;
      queue := temp;
      assert Slot(count) == count by { SlotAtFront(); }
      return true;
    }

    method Remove() returns (ok: bool)
      requires Valid()
      modifies this`head, this`count
      ensures Valid()
      ensures ok <==> old(Contents()) != []
      ensures Contents() == if ok then old(Contents())[1..] else []
    {
      if count > 0 {
        if head < aSize - 1 {
          head := head + 1;
        } else {
          head := 0;
        }
        count := count - 1;
      } else {
        return false;
      }
      return true;
    }

    method Peek() returns (msg: Option<T>)
      requires Ring()
      ensures msg == if Contents() == [] then None else Some(Contents()[0])
    {
      if 1 > count {
        return None;
      } else {
        return Some(queue[head]);
      }
    }

    method Pop() returns (msg: Option<T>)
      requires Valid()
      modifies this`head, this`count
      ensures Valid()
      ensures msg == if old(Contents()) == [] then None else Some(old(Contents())[0])
      ensures Contents() == if msg.None? then [] else old(Contents())[1..]
    {
      msg := Peek();
      if msg.Some? {
        var _ := Remove();
      }
    }

    method Size() returns (n: nat)
      requires Ring()
      ensures n == |Contents()|
    {
      n := count;
    }
  }
}
