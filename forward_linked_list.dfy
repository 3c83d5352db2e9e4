/**
 * The singly linked list `fll_*` and its iterator.
 *
 * A list owns a chain of nodes from `head` to `tail`; `size` counts them. The ghost
 * `Nodes` is the chain in order and `Contents` the values it holds, so every
 * operation's effect is stated on `Contents`. An object pointer that may be NULL is
 * an `Option`; the copy `malloc` plus `memcpy` makes is the stored value itself.
 */
module ForwardLinkedList {
  import opened Wrappers

  /** `s` with `x` inserted so that it ends up at position `i`. */
  function InsertAt<T>(s: seq<T>, i: nat, x: T): seq<T>
    requires i <= |s|
  {
    s[..i] + [x] + s[i..]
  }

  /** `s` without its element at position `i`. */
  function RemoveAt<T>(s: seq<T>, i: nat): seq<T>
    requires i < |s|
  {
    s[..i] + s[i + 1..]
  }

  /** Inserting puts `x` at `i`, shifts the later elements up by one, and removing at
      the same position undoes it; inserting at the end appends. */
  lemma InsertAtProperties<T>(s: seq<T>, i: nat, x: T)
    requires i <= |s|
    ensures |InsertAt(s, i, x)| == |s| + 1 && InsertAt(s, i, x)[i] == x
    ensures forall k :: 0 <= k < i ==> InsertAt(s, i, x)[k] == s[k]
    ensures forall k :: i < k <= |s| ==> InsertAt(s, i, x)[k] == s[k - 1]
    ensures RemoveAt(InsertAt(s, i, x), i) == s
    ensures i == |s| ==> InsertAt(s, i, x) == s + [x]
  {
    assert InsertAt(s, i, x)[..i] == s[..i];
    assert InsertAt(s, i, x)[i + 1..] == s[i..];
  }

  /** Removing shortens by one and shifts the later elements down by one. */
  lemma RemoveAtProperties<T>(s: seq<T>, i: nat)
    requires i < |s|
    ensures |RemoveAt(s, i)| == |s| - 1
    ensures forall k :: 0 <= k < i ==> RemoveAt(s, i)[k] == s[k]
    ensures forall k :: i <= k < |s| - 1 ==> RemoveAt(s, i)[k] == s[k + 1]
  {
  }

  /** Nodes in a row, each one's `next` the one after it, all different. */
  ghost predicate Chain<T>(nodes: seq<Node<T>>)
    reads set k | 0 <= k < |nodes| :: nodes[k]
  {
    (forall k :: 0 <= k < |nodes| - 1 ==> nodes[k].next == nodes[k + 1]) &&
    (forall j, k :: 0 <= j < k < |nodes| ==> nodes[j] != nodes[k])
  }

  /** A chain with a node newly linked in between positions `index - 1` and `index`
      is again a chain, with that node at `index`. */
  lemma InsertedChain<T>(before: seq<Node<T>>, index: nat, node: Node<T>)
    requires 0 < index < |before|
    requires forall k :: 0 <= k < |before| - 1 && k != index - 1 ==> before[k].next == before[k + 1]
    requires forall j, k :: 0 <= j < k < |before| ==> before[j] != before[k]
    requires forall k :: 0 <= k < |before| ==> before[k] != node
    requires before[index - 1].next == node && node.next == before[index]
    ensures Chain(InsertAt(before, index, node))
  {
    InsertAtProperties(before, index, node);
  }

  /** A chain whose node before `index` was relinked past the node at `index` is,
      without that node, again a chain. */
  lemma RemovedChain<T>(before: seq<Node<T>>, index: nat)
    requires index < |before|
    requires forall k :: 0 <= k < |before| - 1 && k != index - 1 ==> before[k].next == before[k + 1]
    requires forall j, k :: 0 <= j < k < |before| ==> before[j] != before[k]
    requires 0 < index < |before| - 1 ==> before[index - 1].next == before[index + 1]
    ensures Chain(RemoveAt(before, index))
  {
    var nodes := RemoveAt(before, index);
    RemoveAtProperties(before, index);
    forall k | 0 <= k < |nodes| - 1
      ensures nodes[k].next == nodes[k + 1]
    {
      if k >= index {
        assert nodes[k] == before[k + 1] && nodes[k + 1] == before[k + 2];
      } else if k < index - 1 {
        assert nodes[k] == before[k] && nodes[k + 1] == before[k + 1];
      }
    }
    forall j, k | 0 <= j < k < |nodes|
      ensures nodes[j] != nodes[k]
    {
      var j' := if j < index then j else j + 1;
      var k' := if k < index then k else k + 1;
      assert nodes[j] == before[j'] && nodes[k] == before[k'];
    }
  }

  /** Linking the node in keeps the ends of the chain, and every node but the new one
      still holds the value beside it. */
  lemma InsertedData<T>(before: seq<Node<T>>, values: seq<T>, index: nat, node: Node<T>)
    requires 0 < index < |before| && |values| == |before|
    requires forall k :: 0 <= k < |before| ==> before[k].data == values[k]
    ensures var nodes := InsertAt(before, index, node);
      |nodes| == |InsertAt(values, index, node.data)| == |before| + 1 &&
      nodes[0] == before[0] && nodes[|nodes| - 1] == before[|before| - 1] &&
      forall k :: 0 <= k < |nodes| ==> nodes[k].data == InsertAt(values, index, node.data)[k]
  {
    InsertAtProperties(before, index, node);
    InsertAtProperties(values, index, node.data);
  }

  /** `struct listNode`. */
  class Node<T> {
    var data: T
    var next: Node?<T>

    constructor (data: T)
      ensures this.data == data && next == null
    {
      this.data := data;
      this.next := null;
    }
  }

  /** `struct linkedList`. */
  class LinkedList<T> {
    var head: Node?<T>
    var tail: Node?<T>
    var size: nat
    ghost var Contents: seq<T>
    ghost var Nodes: seq<Node<T>>
    ghost var Repr: set<object>

    /** The nodes form one chain from `head` to `tail`, ending in NULL, holding
        `Contents` in order, and `size` is their number. */
    ghost predicate Valid()
      reads this, Repr
    {
      this in Repr &&
      (forall k :: 0 <= k < |Nodes| ==> Nodes[k] in Repr) &&
      size == |Nodes| && |Contents| == |Nodes| &&
      (forall k :: 0 <= k < |Nodes| ==> Nodes[k].data == Contents[k]) &&
      Chain(Nodes) &&
      (|Nodes| == 0 ==> head == null && tail == null) &&
      (|Nodes| > 0 ==> head == Nodes[0] && tail == Nodes[|Nodes| - 1] && tail.next == null)
    }

    /** `fll_init`. */
    constructor Init()
      ensures Valid() && fresh(Repr) && Contents == []
    {
      head := null;
      tail := null;
      size := 0;
      Contents := [];
      Nodes := [];
      Repr := {this};
    }

    /** `fll_size`. */
    method Size() returns (n: nat)
      requires Valid()
      ensures n == |Contents|
    {
      n := size;
    }

    /** `fll_getIterator`: an iterator at the head. */
    method GetIterator() returns (iter: ListIterator<T>)
      requires Valid()
      ensures fresh(iter) && iter.Valid() && iter.list == this && iter.pos == 0
    {
      iter := new ListIterator(this);
    }

    /** `fll_add`: append `obj` when it is not NULL and its size is not 0. */
    method Add(obj: Option<T>, objSize: nat) returns (completed: bool)
      requires Valid()
      modifies Repr
      ensures Valid() && fresh(Repr - old(Repr))
      ensures completed <==> obj.Some? && objSize != 0
      ensures Contents == if completed then old(Contents) + [obj.value] else old(Contents)
    {
      completed := false;
      if obj.Some? && objSize != 0 {
        var node := new Node(obj.value);
        if tail != null {
          tail.next := node;
        }
        tail := node;
        if size == 0 {
          head := node;
        }
        size := size + 1;
        Nodes := Nodes + [node];
        Contents := Contents + [obj.value];
        Repr := Repr + {node};
        completed := true;
      }
    }

    /** The iterator walk of `fll_addIndex`, `fll_remove` and `fll_get`: `n` calls of `fll_next`. */
    method WalkTo(n: nat) returns (iter: ListIterator<T>)
      requires Valid() && n < |Nodes|
      ensures fresh(iter) && iter.Valid() && iter.list == this && iter.pos == n
      ensures iter.current == Nodes[n]
    {
      iter := GetIterator();
      var i := 0;
      while i < n
        invariant 0 <= i <= n
        invariant iter.Valid() && iter.list == this && iter.pos == i
        invariant fresh(iter)
      {
        var _ := iter.Next();
        i := i + 1;
      }
    }

    /** `fll_addIndex`: insert `obj` at position `index`; at `index == size` this is `fll_add`. */
    method AddIndex(obj: Option<T>, objSize: nat, index: nat) returns (completed: bool)
      requires Valid()
      modifies Repr
      ensures Valid() && fresh(Repr - old(Repr))
      ensures completed <==> obj.Some? && objSize != 0 && index <= |old(Contents)|
      ensures Contents == if completed then InsertAt(old(Contents), index, obj.value) else old(Contents)
    {
      completed := false;
      if obj.Some? && objSize != 0 && index < size {
        if index == 0 {
          InsertFirst(obj.value);
          assert InsertAt(old(Contents), 0, obj.value) == [obj.value] + old(Contents);
        } else {
          InsertAfter(obj.value, index);
        }
        completed := true;
      } else if index == size {
        completed := Add(obj, objSize);
        if obj.Some? {
          InsertAtProperties(old(Contents), index, obj.value);
        }
      }
    }

    /** The `index == 0` branch of `fll_addIndex`: the new node becomes the head. */
    method InsertFirst(x: T)
      requires Valid() && Contents != []
      modifies Repr
      ensures Valid() && fresh(Repr - old(Repr))
      ensures Contents == [x] + old(Contents)
    {
      var node := new Node(x);
      node.next := head;
      head := node;
      size := size + 1;
      Nodes := [node] + Nodes;
      Contents := [x] + Contents;
      Repr := Repr + {node};
      assert forall k :: 0 <= k < |Nodes| ==> Nodes[k] in Repr;
      assert forall k :: 0 <= k < |Nodes| ==> Nodes[k].data == Contents[k];
      assert forall k :: 0 <= k < |Nodes| - 1 ==> Nodes[k].next == Nodes[k + 1];
      assert forall j, k :: 0 <= j < k < |Nodes| ==> Nodes[j] != Nodes[k];
    }

    /** The node the walk of `n` steps from the head stops at. */
    method NodeAt(n: nat) returns (node: Node<T>)
      requires Valid() && n < |Nodes|
      ensures node == Nodes[n]
    {
      var iter := WalkTo(n);
      node := iter.current;
    }

    /** The other branch of `fll_addIndex`: walk to the node before `index` and link
        the new node in after it. */
    method InsertAfter(x: T, index: nat)
      requires Valid() && 0 < index < |Contents|
      modifies Repr
      ensures Valid() && fresh(Repr - old(Repr))
      ensures Contents == InsertAt(old(Contents), index, x)
    {
      ghost var before := Nodes;
      ghost var values := Contents;
      var prev := NodeAt(index - 1);
      var after := prev.next;
      var node := new Node(x);
      node.next := after;
      prev.next := node;
      assert forall k :: 0 <= k < |before| - 1 && k != index - 1 ==> before[k].next == before[k + 1] by {
        forall k | 0 <= k < |before| - 1 && k != index - 1
          ensures before[k].next == before[k + 1]
        {
          assert before[k] != before[index - 1];
        }
      }
      size := size + 1;
      Nodes := InsertAt(before, index, node);
      Contents := InsertAt(values, index, x);
      Repr := Repr + {node};
      InsertedValid(before, values, index, node);
    }

    /** The list is valid again once the new node is linked in at `index`. */
    lemma InsertedValid(before: seq<Node<T>>, values: seq<T>, index: nat, node: Node<T>)
      requires 0 < index < |before| && |values| == |before|
      requires this in Repr && node in Repr && forall k :: 0 <= k < |before| ==> before[k] in Repr
      requires forall k :: 0 <= k < |before| ==> before[k].data == values[k]
      requires forall k :: 0 <= k < |before| - 1 && k != index - 1 ==> before[k].next == before[k + 1]
      requires forall j, k :: 0 <= j < k < |before| ==> before[j] != before[k]
      requires forall k :: 0 <= k < |before| ==> before[k] != node
      requires before[index - 1].next == node && node.next == before[index]
      requires head == before[0] && tail == before[|before| - 1] && tail.next == null
      requires Nodes == InsertAt(before, index, node) && Contents == InsertAt(values, index, node.data)
      requires size == |before| + 1
      ensures Valid()
    {
      InsertedChain(before, index, node);
      InsertedData(before, values, index, node);
      forall k | 0 <= k < |Nodes|
        ensures Nodes[k] in Repr
      {
        if k > index {
          assert Nodes[k] == before[k - 1];
        } else if k < index {
          assert Nodes[k] == before[k];
        }
      }
    }

    /** `fll_remove`: unlink the node at `index`; the list is reinitialised when it becomes empty. */
    method Remove(index: nat) returns (completed: bool)
      requires Valid()
      modifies Repr
      ensures Valid() && Repr == old(Repr)
      ensures completed <==> index < |old(Contents)|
      ensures Contents == if completed then RemoveAt(old(Contents), index) else old(Contents)
    {
      completed := false;
      if index < size {
        if index == 0 {
          RemoveFirst();
        } else {
          RemoveAfter(index);
        }
        completed := true;
      }
    }

    /** The `index == 0` branch of `fll_remove`: the head moves on to the next node. */
    method RemoveFirst()
      requires Valid() && Contents != []
      modifies Repr
      ensures Valid() && Repr == old(Repr)
      ensures Contents == RemoveAt(old(Contents), 0)
    {
      ghost var before := Nodes;
      ghost var values := Contents;
      head := head.next;
      RemovedChain(before, 0);
      size := size - 1;
      Nodes := RemoveAt(Nodes, 0);
      Contents := RemoveAt(Contents, 0);
      if size == 0 {
        head := null;
        tail := null;
        size := 0;
      }
      RemovedValid(before, values, 0);
    }

    /** The other branch of `fll_remove`: walk to the node before `index` and link it
        past the removed one, which makes it the tail when the last node goes. */
    method RemoveAfter(index: nat)
      requires Valid() && 0 < index < |Contents|
      modifies Repr
      ensures Valid() && Repr == old(Repr)
      ensures Contents == RemoveAt(old(Contents), index)
    {
      ghost var before := Nodes;
      ghost var values := Contents;
      var prev := NodeAt(index - 1);
      assert prev.next == before[index];
      prev.next := prev.next.next;
      if index == size - 1 {
        tail := prev;
      }
      assert forall k :: 0 <= k < |before| - 1 && k != index - 1 ==> before[k].next == before[k + 1] by {
        forall k | 0 <= k < |before| - 1 && k != index - 1
          ensures before[k].next == before[k + 1]
        {
          assert before[k] != before[index - 1];
        }
      }
      assert tail.next == null by {
        if index != |before| - 1 {
          assert before[|before| - 1] != before[index - 1];
        }
      }
      RemovedChain(before, index);
      size := size - 1;
      Nodes := RemoveAt(Nodes, index);
      Contents := RemoveAt(Contents, index);
      RemovedValid(before, values, index);
    }

    /** The list is valid again once the node at `index` is unlinked and the size
        decremented, or reinitialised when it was the only one. */
    lemma RemovedValid(before: seq<Node<T>>, values: seq<T>, index: nat)
      requires index < |before| && |values| == |before|
      requires this in Repr && forall k :: 0 <= k < |before| ==> before[k] in Repr
      requires forall k :: 0 <= k < |before| ==> before[k].data == values[k]
      requires Chain(RemoveAt(before, index))
      requires Nodes == RemoveAt(before, index) && Contents == RemoveAt(values, index)
      requires size == |before| - 1
      requires |before| == 1 ==> head == null && tail == null
      requires |before| > 1 ==> head == Nodes[0] && tail == Nodes[|Nodes| - 1] && tail.next == null
      ensures Valid()
    {
      RemoveAtProperties(before, index);
      RemoveAtProperties(values, index);
      forall k | 0 <= k < |Nodes|
        ensures Nodes[k] in Repr && Nodes[k].data == Contents[k]
      {
        if k >= index {
          assert Nodes[k] == before[k + 1] && Contents[k] == values[k + 1];
        } else {
          assert Nodes[k] == before[k] && Contents[k] == values[k];
        }
      }
    }

    /** `fll_get`: the value at `index`, or NULL past the end. */
    method Get(index: nat) returns (r: Option<T>)
      requires Valid()
      ensures r == if index < |Contents| then Some(Contents[index]) else None
    {
      r := None;
      if index < size {
        var iter := WalkTo(index);
        r := Some(iter.current.data);
      }
    }

    /** `fll_clear`: walk the list freeing every node, then reinitialise it. */
    method Clear()
      requires Valid()
      modifies Repr
      ensures Valid() && Repr == old(Repr) && Contents == []
    {
      var iter := GetIterator();
      var more := iter.HasNext();
      while more
        modifies iter
        invariant iter.Valid() && iter.list == this
        invariant more <==> iter.pos < |Contents|
        decreases |Contents| - iter.pos
      {
        var _ := iter.Next();
        more := iter.HasNext();
      }
      head := null;
      tail := null;
      size := 0;
      Nodes := [];
      Contents := [];
    }
  }

  /** `struct linkedListIterator`: a cursor on a node of `list`, or past its end. */
  class ListIterator<T> {
    var current: Node?<T>
    ghost var list: LinkedList<T>
    ghost var pos: nat

    ghost predicate Valid()
      reads this, list, list.Repr
    {
      this !in list.Repr && list.Valid() && pos <= |list.Nodes| &&
      current == (if pos < |list.Nodes| then list.Nodes[pos] else null)
    }

    constructor (list: LinkedList<T>)
      requires list.Valid()
      ensures Valid() && this.list == list && pos == 0
    {
      this.list := list;
      pos := 0;
      current := list.head;
    }

    /** `fll_hasNext`: whether a value is left to visit. */
    method HasNext() returns (b: bool)
      requires Valid()
      ensures b <==> pos < |list.Contents|
    {
      b := current != null;
    }

    /** `fll_next`: the value at the cursor, moving past it; NULL once past the end. */
    method Next() returns (data: Option<T>)
      requires Valid()
      modifies this
      ensures Valid() && list == old(list)
      ensures old(pos) < |list.Contents| ==> data == Some(list.Contents[old(pos)]) && pos == old(pos) + 1
      ensures old(pos) == |list.Contents| ==> data == None && pos == old(pos)
    {
      data := None;
      if current != null {
        data := Some(current.data);
        current := current.next;
        pos := pos + 1;
      }
    }
  }
}
