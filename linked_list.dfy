/**
 * The singly linked list: a head pointer and a chain of nodes, each holding a
 * value and a pointer to the next node. Every operation walks the chain from
 * the head with a `current` pointer.
 *
 * The ghost sequence `nodes` is the chain in order and `contents` the values
 * it holds; `Valid` ties them to the pointers.
 */
module LinkedLists {

  import opened Wrappers

  class Node<T> {
    var value: T
    var next: Node?<T>

    constructor(value: T)
      ensures this.value == value && next == null
    {
      this.value := value;
      next := null;
    }
  }

  class LinkedList<T(==)> {
    var head: Node?<T>
    /** The nodes of the chain, from the head. */
    ghost var nodes: seq<Node<T>>
    /** The values of the list, from the head. */
    ghost var contents: seq<T>
    ghost var Repr: set<Node<T>>

    ghost predicate Valid()
      reads this, Repr
    {
      |nodes| == |contents| &&
      (forall i :: 0 <= i < |nodes| ==> nodes[i] in Repr) &&
      head == (if nodes == [] then null else nodes[0]) &&
      (forall i :: 0 <= i < |nodes| ==> nodes[i].value == contents[i]) &&
      (forall i :: 0 <= i < |nodes| - 1 ==> nodes[i].next == nodes[i + 1]) &&
      (forall i :: 0 <= i < |nodes| ==> (nodes[i].next == null <==> i == |nodes| - 1)) &&
      (forall i, j :: 0 <= i < j < |nodes| ==> nodes[i] != nodes[j])
    }

    constructor()
      ensures Valid() && contents == [] && Repr == {}
    {
      head := null;
      nodes, contents, Repr := [], [], {};
    }

    /** Adds `value` after the last node. */
    method Append(value: T)
      modifies this, Repr
      requires Valid()
      ensures Valid() && contents == old(contents) + [value]
      ensures fresh(Repr - old(Repr))
    {
      var newNode := new Node(value);
      if head == null {
        head := newNode;
        nodes, contents, Repr := [newNode], [value], Repr + {newNode};
        return;
      }
      var current := head;
      ghost var k := 0;
      while current.next != null
        invariant 0 <= k < |nodes| && current == nodes[k]
        decreases |nodes| - k
      {
        current := current.next;
        k := k + 1;
      }
      current.next := newNode;
      nodes, contents, Repr := nodes + [newNode], contents + [value], Repr + {newNode};
    }

    /** Adds `value` in front of the head. */
    method Prepend(value: T)
      modifies this
      requires Valid()
      ensures Valid() && contents == [value] + old(contents)
      ensures fresh(Repr - old(Repr))
    {
      var newNode := new Node(value);
      newNode.next := head;
      head := newNode;
      nodes, contents, Repr := [newNode] + nodes, [value] + contents, Repr + {newNode};
    }

    /** The number of nodes, counted from the head. */
    method GetSize() returns (total: nat)
      requires Valid()
      ensures total == |contents|
    {
      total := 0;
      var current := head;
      while current != null
        invariant total <= |nodes| && current == if total < |nodes| then nodes[total] else null
        decreases |nodes| - total
      {
        total := total + 1;
        current := current.next;
      }
    }

    /** The first node, or null when the list is empty. */
    method GetHead() returns (first: Node?<T>)
      requires Valid()
      ensures first == null <==> contents == []
      ensures first != null ==> first == nodes[0] && first.value == contents[0]
    {
      first := head;
    }

    /** The last node, or null when the list is empty. */
    method GetTail() returns (last: Node?<T>)
      requires Valid()
      ensures last == null <==> contents == []
      ensures last != null ==> last == nodes[|nodes| - 1] && last.value == contents[|contents| - 1] && last.next == null
    {
      var current := head;
      if current == null {
        return null;
      }
      ghost var k := 0;
      while current.next != null
        invariant 0 <= k < |nodes| && current == nodes[k]
        decreases |nodes| - k
      {
        current := current.next;
        k := k + 1;
      }
      return current;
    }

    /** The node at position `index`, or null when there is none. */
    method AtIndex(index: int) returns (n: Node?<T>)
      requires Valid()
      ensures n == null <==> index < 0 || index >= |contents|
      ensures n != null ==> n == nodes[index] && n.value == contents[index]
    {
      var size := GetSize();
      if index < 0 || index >= size {
        return null;
      }
      var current := head;
      var count := 0;
      while current != null
        invariant count <= index && current == if count < |nodes| then nodes[count] else null
        decreases |nodes| - count
      {
        if count == index {
          return current;
        }
        current := current.next;
        count := count + 1;
      }
      assert false;
      return null;
    }

    /**
     * Inserts `value` so that it ends up at position `index`; an index
     * outside `0..size` inserts nothing.
     */
    method InsertAt(value: T, index: int) returns (inserted: bool)
      modifies this, Repr
      requires Valid()
      ensures Valid()
      ensures inserted <==> 0 <= index <= |old(contents)|
      ensures inserted ==> contents == old(contents)[..index] + [value] + old(contents)[index..]
      ensures !inserted ==> contents == old(contents) && nodes == old(nodes) && head == old(head)
      ensures fresh(Repr - old(Repr))
    {
      var size := GetSize();
      if index < 0 || index > size {
        return false;
      }
      if index == 0 {
        Prepend(value);
        return true;
      }
      LinkAfter(value, index);
      return true;
    }

    /** The insertion of `InsertAt` past the head: links a new node after the one at `index - 1`. */
    method LinkAfter(value: T, index: int)
      modifies this, Repr
      requires Valid() && 1 <= index <= |contents|
      ensures Valid() && contents == old(contents)[..index] + [value] + old(contents)[index..]
      ensures fresh(Repr - old(Repr))
    {
      ghost var ns, cs := nodes, contents;
      var newNode := new Node(value);
      var previous := AtIndex(index - 1);
      newNode.next := previous.next;
      previous.next := newNode;
      nodes := ns[..index] + [newNode] + ns[index..];
      contents := cs[..index] + [value] + cs[index..];
      Repr := Repr + {newNode};
      InsertedValid(ns, cs, newNode, value, index);
    }

    /**
     * The list is valid again once `newNode`, holding `value`, is linked in
     * at `index` of the chain `ns` with values `cs`: the links of every other
     * node are those of the old chain.
     */
    lemma {:induction false} InsertedValid(ns: seq<Node<T>>, cs: seq<T>, newNode: Node<T>, value: T, index: int)
      requires 1 <= index <= |ns| == |cs|
      requires nodes == ns[..index] + [newNode] + ns[index..] && contents == cs[..index] + [value] + cs[index..]
      requires head == ns[0] && newNode in Repr && forall i :: 0 <= i < |ns| ==> ns[i] in Repr
      requires newNode.value == value && forall i :: 0 <= i < |ns| ==> ns[i].value == cs[i]
      requires forall i :: 0 <= i < |ns| - 1 && i != index - 1 ==> ns[i].next == ns[i + 1]
      requires ns[index - 1].next == newNode && newNode.next == if index < |ns| then ns[index] else null
      requires index < |ns| ==> ns[|ns| - 1].next == null
      requires (forall i, j :: 0 <= i < j < |ns| ==> ns[i] != ns[j]) && newNode !in ns
      ensures Valid()
    {
      assert forall i :: 0 <= i < index ==> nodes[i] == ns[i] && contents[i] == cs[i];
      assert forall i :: index < i < |nodes| ==> nodes[i] == ns[i - 1] && contents[i] == cs[i - 1];
      forall i | 0 <= i < |nodes| - 1 ensures nodes[i].next == nodes[i + 1] {
        if i < index - 1 {
          assert nodes[i + 1] == ns[i + 1];
        } else if i > index {
          assert nodes[i + 1] == ns[i];
        }
      }
      forall i | 0 <= i < |nodes| ensures nodes[i].next == null <==> i == |nodes| - 1 {
        if i < index - 1 {
          assert nodes[i + 1] == ns[i + 1];
        } else if i > index && i < |nodes| - 1 {
          assert nodes[i + 1] == ns[i];
        }
      }
      forall i, j | 0 <= i < j < |nodes| ensures nodes[i] != nodes[j] {
        if j < index {
        } else if i > index {
          assert nodes[i] == ns[i - 1] && nodes[j] == ns[j - 1];
        } else if i < index && j > index {
          assert nodes[j] == ns[j - 1];
        }
      }
    }

    /**
     * Unlinks the last node and returns it. The list must hold two nodes at
     * least: with fewer, the walk dereferences a null `previous`.
     */
    method Pop() returns (tail: Node?<T>)
      modifies this, Repr
      requires Valid() && |contents| >= 2
      ensures Valid() && contents == old(contents)[..|old(contents)| - 1]
      ensures tail == old(nodes)[|old(nodes)| - 1] && tail.value == old(contents)[|old(contents)| - 1]
      ensures Repr == old(Repr)
    {
      var current := GetHead();
      tail := GetTail();
      var previous: Node?<T> := null;
      ghost var k := 0;
      while current.next != null
        invariant 0 <= k < |nodes| && current == nodes[k]
        invariant previous == if k == 0 then null else nodes[k - 1]
        decreases |nodes| - k
      {
        previous := current;
        current := current.next;
        k := k + 1;
      }
      previous.next := null;
      nodes, contents := nodes[..|nodes| - 1], contents[..|contents| - 1];
    }

    /** Whether some node holds `value`. */
    method Contains(value: T) returns (b: bool)
      requires Valid()
      ensures b <==> value in contents
    {
      var current := head;
      ghost var k := 0;
      while current != null
        invariant k <= |nodes| && current == if k < |nodes| then nodes[k] else null
        invariant value !in contents[..k]
        decreases |nodes| - k
      {
        if current.value == value {
          return true;
        }
        assert contents[..k + 1] == contents[..k] + [contents[k]];
        current := current.next;
        k := k + 1;
      }
      assert contents[..k] == contents;
      return false;
    }

    /** The position of the first node holding `value`, if any. */
    method Find(value: T) returns (r: Option<nat>)
      requires Valid()
      ensures r.None? <==> value !in contents
      ensures r.Some? ==> r.value < |contents| && contents[r.value] == value && value !in contents[..r.value]
    {
      var current := head;
      var count := 0;
      while current != null
        invariant count <= |nodes| && current == if count < |nodes| then nodes[count] else null
        invariant value !in contents[..count]
        decreases |nodes| - count
      {
        if current.value == value {
          return Some(count);
        }
        assert contents[..count + 1] == contents[..count] + [contents[count]];
        current := current.next;
        count := count + 1;
      }
      assert contents[..count] == contents;
      return None;
    }
  }
}
