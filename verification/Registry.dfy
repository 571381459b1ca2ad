/** The registry of thread handles: a linked list of reference-counted handles shared by all hives. */
module Registry {
  /** ThreadHandle: `shares` counts the hives that refer to it and starts at zero. */
  class Handle {
    const threadName: string
    var shares: int
    var next: Handle?

    constructor (threadName: string)
      ensures this.threadName == threadName && shares == 0 && next == null
    {
      this.threadName := threadName;
      shares := 0;
      next := null;
    }
  }

  /** ThreadHive: an owner of a handle, or the copy of one that a spawned thread runs. */
  class Hive {
    var myThreadHandle: Handle?

    constructor (handle: Handle?)
      ensures myThreadHandle == handle
    {
      myThreadHandle := handle;
    }
  }

  /** The hives among `refs` that refer to the handle. */
  ghost function Owners(refs: map<Hive, Handle?>, th: Handle): set<Hive> {
    set h | h in refs && refs[h] == th
  }

  lemma {:induction false} OwnerJoins(refs: map<Hive, Handle?>, h: Hive, th: Handle?)
    requires h in refs ==> refs[h] == null
    ensures forall x: Handle :: |Owners(refs[h := th], x)| == |Owners(refs, x)| + if x == th then 1 else 0
  {
    forall x: Handle ensures |Owners(refs[h := th], x)| == |Owners(refs, x)| + if x == th then 1 else 0 {
      assert Owners(refs[h := th], x) == if x == th then Owners(refs, x) + {h} else Owners(refs, x);
    }
  }

  lemma {:induction false} OwnerLeaves(refs: map<Hive, Handle?>, h: Hive)
    requires h in refs
    ensures forall x: Handle :: |Owners(refs - {h}, x)| == |Owners(refs, x)| - if x == refs[h] then 1 else 0
  {
    forall x: Handle ensures |Owners(refs - {h}, x)| == |Owners(refs, x)| - if x == refs[h] then 1 else 0 {
      assert Owners(refs - {h}, x) == if x == refs[h] then Owners(refs, x) - {h} else Owners(refs, x);
    }
  }

  lemma {:induction false} NoOwners(refs: map<Hive, Handle?>, x: Handle?)
    ensures x != null && (forall o :: o in refs ==> refs[o] != x) <==> x != null && |Owners(refs, x)| == 0
  {
    if x != null {
      assert forall o :: o in refs && refs[o] == x ==> o in Owners(refs, x);
      assert |Owners(refs, x)| == 0 <==> Owners(refs, x) == {};
    }
  }

  /** The list without its element `k`, the others in their order. */
  ghost function Without<T>(list: seq<T>, k: nat): seq<T>
    requires k < |list|
  {
    list[..k] + list[k + 1..]
  }

  lemma {:induction false} RemovedAt<T>(list: seq<T>, k: nat)
    requires k < |list|
    requires forall i, j :: 0 <= i < j < |list| ==> list[i] != list[j]
    ensures |Without(list, k)| == |list| - 1
    ensures forall i :: 0 <= i < |list| - 1 ==> Without(list, k)[i] == list[if i < k then i else i + 1]
    ensures forall x :: x in Without(list, k) <==> x in list && x != list[k]
  {
    assert list == list[..k] + [list[k]] + list[k + 1..];
  }

  class HandleList {
    var head: Handle?
    var tail: Handle?
    var threadCount: int
    /** The handles in the order they were added. */
    ghost var list: seq<Handle>
    /** The handles deleted so far, in order. */
    ghost var freed: seq<Handle>
    /** The hives alive, and the handle each refers to. */
    ghost var refs: map<Hive, Handle?>

    /** An acyclic list from `head` to `tail` of length `threadCount`. */
    ghost predicate Chain()
      reads `head, `tail, `threadCount, `list, list`next
    {
      && threadCount == |list|
      && (forall i, j :: 0 <= i < j < |list| ==> list[i] != list[j])
      && (forall i :: 0 <= i < |list| - 1 ==> list[i].next == list[i + 1])
      && (list != [] ==> list[|list| - 1].next == null)
      && head == (if list == [] then null else list[0])
      && tail == (if list == [] then null else list[|list| - 1])
    }

    /** Every listed handle counts its owners, and has one; no hive refers to an unlisted handle. */
    ghost predicate Counted()
      reads this, list
    {
      && (forall th :: th in list ==> th.shares == |Owners(refs, th)| > 0)
      && (forall h :: h in refs && refs[h] != null ==> refs[h] in list)
    }

    /** No handle was deleted twice, and none that is still listed. */
    ghost predicate FreedOnce()
      reads this, freed
    {
      && (forall i, j :: 0 <= i < j < |freed| ==> freed[i] != freed[j])
      && (forall th :: th in freed ==> th !in list && th.shares == 0)
    }

    ghost predicate Live()
      reads this, refs.Keys
    {
      forall h :: h in refs ==> h.myThreadHandle == refs[h]
    }

    ghost predicate Valid()
      reads this, refs.Keys, list, freed
    {
      Chain() && Counted() && FreedOnce() && Live()
    }

    constructor ()
      ensures Valid() && list == [] && freed == [] && refs == map[]
    {
      head, tail, threadCount := null, null, 0;
      list, freed, refs := [], [], map[];
    }

    /** A hive that owns no handle yet. */
    method NewHive() returns (h: Hive)
      requires Valid()
      modifies this`refs
      ensures Valid() && fresh(h) && refs == old(refs)[h := null]
    {
      hide Owners, Chain;
      h := new Hive(null);
      OwnerJoins(refs, h, null);
      refs := refs[h := null];
    }

    method Push(threadName: string) returns (newTH: Handle)
      requires Chain()
      modifies this`head, this`tail, this`threadCount, this`list, list`next
      ensures Chain() && fresh(newTH) && newTH.threadName == threadName && newTH.shares == 0
      ensures list == old(list) + [newTH]
    {
      newTH := new Handle(threadName);
      if tail == null {
        tail := newTH;
        head := newTH;
      } else {
        tail.next := newTH;
        tail := newTH;
      }
      threadCount := threadCount + 1;
      list := list + [newTH];
    }

    /** Gives a hive that has no handle a new one at the end of the list. */
    method AddThread(h: Hive, threadName: string) returns (result: bool)
      requires Valid() && h in refs
      modifies this, list`next, h
      ensures Valid() && freed == old(freed) && refs == old(refs)[h := h.myThreadHandle]
      ensures result <==> old(h.myThreadHandle) == null
      ensures !result ==> list == old(list) && h.myThreadHandle == old(h.myThreadHandle)
      ensures result ==> list == old(list) + [h.myThreadHandle] && fresh(h.myThreadHandle)
      ensures result ==> h.myThreadHandle.threadName == threadName && h.myThreadHandle.shares == 1
    {
      hide Owners, Chain;
      if h.myThreadHandle == null {
        var myTH := Push(threadName);
        myTH.shares := myTH.shares + 1;
        h.myThreadHandle := myTH;
        OwnerJoins(refs, h, myTH);
        NoOwners(refs, myTH);
        refs := refs[h := myTH];
        result := true;
      } else {
        result := false;
      }
    }

    /** Starting the thread copies the hive: the copy shares the handle. */
    method SpawnThread(h: Hive) returns (copy: Hive)
      requires Valid() && h in refs && h.myThreadHandle != null
      modifies this`refs, list`shares
      ensures Valid() && fresh(copy) && refs == old(refs)[copy := h.myThreadHandle]
      ensures h.myThreadHandle.shares == old(h.myThreadHandle.shares) + 1
    {
      hide Owners, Chain;
      var th := h.myThreadHandle;
      th.shares := th.shares + 1;
      copy := new Hive(th);
      OwnerJoins(refs, copy, th);
      refs := refs[copy := th];
    }

    /**
     * The end of a hive. Its handle is unlinked and deleted exactly when no other hive refers to it; the
     * other handles keep their order.
     */
    method Destroy(h: Hive)
      requires Valid() && h in refs
      modifies this, list, h
      ensures Valid() && refs == old(refs) - {h}
      ensures
        var x := old(h.myThreadHandle);
        if x != null && forall o :: o in refs ==> refs[o] != x then
          freed == old(freed) + [x] &&
          exists k :: 0 <= k < |old(list)| && old(list)[k] == x && list == Without(old(list), k)
        else freed == old(freed) && list == old(list) && (x != null ==> x.shares == old(x.shares) - 1)
    {
      hide Owners, Chain, Without;
      ghost var x := h.myThreadHandle;
      OwnerLeaves(refs, h);
      NoOwners(refs - {h}, x);
      refs := refs - {h};
      if h.myThreadHandle != null {
        h.myThreadHandle.shares := h.myThreadHandle.shares - 1;
        assert Chain();
        if h.myThreadHandle.shares < 1 {
          ghost var k := Unlink(h);
          freed := freed + [x];
        }
      }
    }

    /** The destructor's walk to the hive's handle: where it is and what stands before it. */
    method Find(h: Hive) returns (temp: Handle, current: Handle, ghost k: nat)
      requires Chain() && h.myThreadHandle != null && h.myThreadHandle in list && head != h.myThreadHandle
      modifies h
      ensures 1 <= k < |list| && temp == list[k - 1] && current == list[k] == old(h.myThreadHandle)
    {
      ghost var j :| 0 <= j < |list| && list[j] == h.myThreadHandle;
      assert list[0].next == list[1];
      temp := head;
      current := temp.next;
      k := 1;
      while h.myThreadHandle != null
        invariant 1 <= k <= j && temp == list[k - 1] && current == list[k]
        invariant h.myThreadHandle == list[j] || (h.myThreadHandle == null && j == k)
        decreases j - k, h.myThreadHandle != null
      {
        if h.myThreadHandle == current {
          h.myThreadHandle := null;
        } else {
          assert list[k - 1].next == list[k] && list[k].next == list[k + 1];
          current := current.next;
          temp := temp.next;
          k := k + 1;
        }
      }
    }

    /** Links the handle before `current` to the one behind it. */
    method Bypass(temp: Handle, current: Handle, ghost k: nat)
      requires Chain() && 1 <= k < |list| && temp == list[k - 1] && current == list[k]
      modifies `tail, list`next
      ensures tail == if k == |list| - 1 then temp else old(tail)
      ensures temp.next == old(list[k].next)
      ensures forall i :: 0 <= i < |list| && i != k - 1 && i != k ==> list[i].next == old(list[i].next)
    {
      if tail == current {
        tail := temp;
      }
      temp.next := temp.next.next;
      current.next := null;
    }

    /** The part of the destructor that takes the hive's handle out of the list. */
    method Unlink(h: Hive) returns (ghost k: nat)
      requires Chain() && h.myThreadHandle != null && h.myThreadHandle in list
      modifies this`head, this`tail, this`threadCount, this`list, list`next, h
      ensures Chain() && h.myThreadHandle == null
      ensures k < |old(list)| && old(list)[k] == old(h.myThreadHandle)
      ensures list == Without(old(list), k)
      ensures forall th :: th in list <==> th in old(list) && th != old(h.myThreadHandle)
    {
      hide Without;
      if head == h.myThreadHandle {
        k := 0;
        UnlinkFirst();
      } else {
        k := UnlinkInner(h);
      }
      RemovedAt(list, k);
      threadCount := threadCount - 1;
      if head == null {
        tail := null;
      }
      h.myThreadHandle := null;
      list := Without(list, k);
    }

    /** The links run through these handles from `head` to `tail`. */
    ghost predicate Linked(rest: seq<Handle>)
      reads `head, `tail, rest`next
    {
      && (forall i :: 0 <= i < |rest| - 1 ==> rest[i].next == rest[i + 1])
      && (rest != [] ==> rest[|rest| - 1].next == null && tail == rest[|rest| - 1])
      && head == (if rest == [] then null else rest[0])
    }

    /** The destructor's branch for the head of the list. */
    method UnlinkFirst()
      requires Chain() && list != []
      modifies `head, list`next
      ensures Linked(Without(list, 0))
    {
      hide Without;
      RemovedAt(list, 0);
      var current := head;
      head := head.next;
      current.next := null;
    }

    /** The destructor's branch for any other handle. */
    method UnlinkInner(h: Hive) returns (ghost k: nat)
      requires Chain() && h.myThreadHandle != null && h.myThreadHandle in list && head != h.myThreadHandle
      modifies `tail, list`next, h
      ensures k < |list| && list[k] == old(h.myThreadHandle) && Linked(Without(list, k))
    {
      hide Without;
      var temp, current;
      temp, current, k := Find(h);
      RemovedAt(list, k);
      Bypass(temp, current, k);
    }

    /** The handle at place `i` of the list, and no handle of its name in front of it. */
    ghost predicate IsFirst(i: nat, th: Handle)
      reads this
    {
      i < |list| && list[i] == th && forall k :: 0 <= k < i ==> list[k].threadName != th.threadName
    }

    /** The first handle of that name, or null. */
    method GetThreadHandle(threadName: string) returns (th: Handle?)
      requires Chain()
      ensures th == null <==> forall i :: 0 <= i < |list| ==> list[i].threadName != threadName
      ensures th != null ==> th.threadName == threadName && exists i :: IsFirst(i, th)
    {
      th := null;
      if head != null {
        var current := head;
        ghost var i := 0;
        while th != current
          invariant 0 <= i <= |list| && current == (if i < |list| then list[i] else null)
          invariant forall k :: 0 <= k < i ==> list[k].threadName != threadName
          invariant th == null || (th == current && th.threadName == threadName && IsFirst(i, th))
          decreases |list| - i, th == null
        {
          if threadName == current.threadName {
            th := current;
          } else {
            current := current.next;
            i := i + 1;
          }
        }
      }
    }
  }
}
