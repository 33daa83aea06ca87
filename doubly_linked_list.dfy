/** A doubly linked list of ints with insertion at the end, deletion of the first node
    holding a key, search, and the two traversals (DataStructures/DoublyLinkedList.java). */
module DoublyLinkedList {

  /** The list with the first occurrence of `key` taken out, or unchanged when `key` does
      not occur. */
  function RemoveFirst(s: seq<int>, key: int): (r: seq<int>)
    ensures |r| == if key in s then |s| - 1 else |s|
  {
    if |s| == 0 then []
    else if s[0] == key then s[1..]
    else [s[0]] + RemoveFirst(s[1..], key)
  }

  lemma {:induction false} RemoveFirstAbsent(s: seq<int>, key: int)
    requires key !in s
    ensures RemoveFirst(s, key) == s
  {
    if |s| > 0 {
      RemoveFirstAbsent(s[1..], key);
    }
  }

  /** With `i` the first index holding `key`, the node at `i` goes and the order of the
      others is kept. */
  lemma {:induction false} RemoveFirstAt(s: seq<int>, key: int, i: int)
    requires 0 <= i < |s| && s[i] == key && key !in s[..i]
    ensures RemoveFirst(s, key) == s[..i] + s[i + 1..]
  {
    if i > 0 {
      assert s[1..][..i - 1] == s[..i][1..];
      RemoveFirstAt(s[1..], key, i - 1);
      assert s[..i] == [s[0]] + s[1..][..i - 1];
    }
  }

  function Reverse(s: seq<int>): (r: seq<int>)
    ensures |r| == |s| && forall i :: 0 <= i < |s| ==> r[i] == s[|s| - 1 - i]
  {
    if |s| == 0 then [] else [s[|s| - 1]] + Reverse(s[..|s| - 1])
  }

  lemma ReverseReverse(s: seq<int>)
    ensures Reverse(Reverse(s)) == s
  {
  }

  class Node {
    var data: int
    var prev: Node?
    var next: Node?

    constructor (data: int)
      ensures this.data == data && prev == null && next == null
    {
      this.data := data;
      prev := null;
      next := null;
    }
  }

  class List {
    var head: Node?
    /** The nodes reachable from `head`, in forward order, and the values they hold. */
    ghost var nodes: seq<Node>
    ghost var contents: seq<int>
    ghost var Repr: set<Node>

    /** `head` starts a finite, acyclic chain through `nodes` whose `prev` pointers mirror
        its `next` pointers, with `head.prev == null` and `null` after the last node. */
    ghost predicate Valid()
      reads this, Repr
    {
      |contents| == |nodes| &&
      (forall i, j :: 0 <= i < j < |nodes| ==> nodes[i] != nodes[j]) &&
      head == (if |nodes| == 0 then null else nodes[0]) &&
      (forall i :: 0 <= i < |nodes| ==> nodes[i] in Repr && nodes[i].data == contents[i]) &&
      (forall i {:trigger nodes[i].next} :: 0 <= i < |nodes| ==>
         nodes[i].next == (if i + 1 < |nodes| then nodes[i + 1] else null)) &&
      (forall i {:trigger nodes[i].prev} :: 0 <= i < |nodes| ==>
         nodes[i].prev == (if i == 0 then null else nodes[i - 1]))
    }

    constructor ()
      ensures Valid() && contents == [] && fresh(Repr)
    {
      head := null;
      nodes := [];
      contents := [];
      Repr := {};
    }

    /** Appends `d` after the last node. */
    method Insert(d: int)
      requires Valid()
      modifies this, Repr
      ensures Valid() && fresh(Repr - old(Repr))
      ensures contents == old(contents) + [d]
    {
      ghost var N := nodes;
      var newNode := new Node(d);
      if head == null {
        head := newNode;
      } else {
        var temp := head;
        ghost var i := 0;
        while temp.next != null
          invariant 0 <= i < |nodes| && temp == nodes[i]
          decreases |nodes| - i
        {
          temp := temp.next;
          i := i + 1;
        }
        temp.next := newNode;
        newNode.prev := temp;
      }
      nodes := N + [newNode];
      contents := contents + [d];
      Repr := Repr + {newNode};
    }

    /** Unlinks the first node holding `key`; nothing changes when there is none. */
    method Delete(key: int)
      requires Valid()
      modifies this, Repr
      ensures Valid() && Repr <= old(Repr)
      ensures contents == RemoveFirst(old(contents), key)
    {
      if head == null {
        return;
      }
      var temp := head;
      if temp.data == key {
        head := temp.next;
        if head != null {
          head.prev := null;
        }
        nodes := nodes[1..];
        contents := contents[1..];
        Repr := Repr - {temp};
        return;
      }
      ghost var i := 0;
      while temp != null && temp.data != key
        invariant 0 <= i <= |nodes|
        invariant temp == (if i < |nodes| then nodes[i] else null)
        invariant key !in contents[..i]
        decreases |nodes| - i
      {
        temp := temp.next;
        i := i + 1;
      }
      if temp == null {
        assert contents[..i] == contents;
        RemoveFirstAbsent(contents, key);
        return;
      }
      RemoveFirstAt(contents, key, i);
      Unlink(temp, i);
    }

    /** Takes the node at position `i > 0` out of the chain: its neighbours are linked
        to each other. */
    method Unlink(temp: Node, ghost i: int)
      requires Valid() && 0 < i < |nodes| && temp == nodes[i]
      modifies this, Repr
      ensures Valid() && Repr <= old(Repr)
      ensures nodes == old(nodes[..i] + nodes[i + 1..])
      ensures contents == old(contents[..i] + contents[i + 1..])
    {
      ghost var N := nodes;
      assert temp.prev == N[i - 1];
      assert temp.next == if i + 1 < |N| then N[i + 1] else null;
      if temp.next != null {
        temp.next.prev := temp.prev;
      }
      if temp.prev != null {
        temp.prev.next := temp.next;
      }
      nodes := N[..i] + N[i + 1..];
      contents := contents[..i] + contents[i + 1..];
      Repr := Repr - {temp};
      forall k | 0 <= k < |nodes|
        ensures nodes[k] == if k < i then N[k] else N[k + 1]
        ensures nodes[k].next == (if k + 1 < |nodes| then nodes[k + 1] else null)
        ensures nodes[k].prev == (if k == 0 then null else nodes[k - 1])
      {
        if k < i {
          assert nodes[k] == N[k];
        } else {
          assert nodes[k] == N[k + 1];
        }
      }
    }

    /** Whether some node holds `key`. */
    method Search(key: int) returns (found: bool)
      requires Valid()
      ensures found <==> key in contents
    {
      var temp := head;
      ghost var i := 0;
      while temp != null
        invariant 0 <= i <= |nodes|
        invariant temp == (if i < |nodes| then nodes[i] else null)
        invariant key !in contents[..i]
        decreases |nodes| - i
      {
        if temp.data == key {
          return true;
        }
        temp := temp.next;
        i := i + 1;
      }
      assert contents[..i] == contents;
      return false;
    }

    /** The values the forward display visits, following `next` from `head`. */
    method Forward() returns (r: seq<int>)
      requires Valid()
      ensures r == contents
    {
      r := [];
      var temp := head;
      ghost var i := 0;
      while temp != null
        invariant 0 <= i <= |nodes|
        invariant temp == (if i < |nodes| then nodes[i] else null)
        invariant r == contents[..i]
        decreases |nodes| - i
      {
        r := r + [temp.data];
        temp := temp.next;
        i := i + 1;
      }
    }

    /** The values the backward display visits: to the last node along `next`, then
        back along `prev`. */
    method Backward() returns (r: seq<int>)
      requires Valid()
      ensures r == Reverse(contents)
    {
      r := [];
      if head == null {
        return;
      }
      var temp := head;
      ghost var i := 0;
      while temp.next != null
        invariant 0 <= i < |nodes| && temp == nodes[i]
        decreases |nodes| - i
      {
        temp := temp.next;
        i := i + 1;
      }
      while temp != null
        invariant -1 <= i < |nodes|
        invariant temp == (if i >= 0 then nodes[i] else null)
        invariant r == Reverse(contents)[..|nodes| - 1 - i]
        decreases i + 1
      {
        r := r + [temp.data];
        temp := temp.prev;
        i := i - 1;
      }
    }
  }

  /** Inserting 10, 20 and 30 and deleting 20 leaves 10 and 30, which the list then
      shows in both directions; 30 is found and 50 is not. */
  method Example() returns (forward: seq<int>, backward: seq<int>, has30: bool, has50: bool)
    ensures forward == [10, 30] && backward == [30, 10]
    ensures has30 && !has50
  {
    var dll := new List();
    dll.Insert(10);
    dll.Insert(20);
    dll.Insert(30);
    assert dll.contents == [10, 20, 30];
    dll.Delete(20);
    assert RemoveFirst([10, 20, 30], 20) == [10, 30] by {
      assert [10, 20, 30][1..] == [20, 30];
    }
    forward := dll.Forward();
    backward := dll.Backward();
    has30 := dll.Search(30);
    has50 := dll.Search(50);
  }
}
