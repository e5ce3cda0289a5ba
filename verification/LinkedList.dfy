/**
 The doubly linked lists of service/inode.c at pointer level: inodes, filenames and descriptors.
 All of them append at the tail after a walk. Removing a descriptor updates the caller's head
 pointer, removing an inode or a filename forgets to. `nodes` is the sequence that a well-formed
 list stands for.
 */
module LinkedList {

  class Node<T> {
    var item: T
    var next: Node?<T>
    var prev: Node?<T>

    constructor (item: T)
      ensures this.item == item && next == null && prev == null
    {
      this.item := item;
      next, prev := null, null;
    }
  }

  /** The node at position i, or null beyond either end. */
  ghost function At<T>(nodes: seq<Node<T>>, i: int): Node?<T> {
    if 0 <= i < |nodes| then nodes[i] else null
  }

  ghost predicate Placed<T>(nodes: seq<Node<T>>, i: nat)
    requires i < |nodes|
    reads nodes
  {
    nodes[i].next == At(nodes, i + 1) && nodes[i].prev == At(nodes, i - 1)
  }

  ghost function NodeSet<T>(nodes: seq<Node<T>>): set<Node<T>> {
    set n <- nodes
  }

  ghost predicate Distinct<T>(nodes: seq<Node<T>>) {
    forall i, j :: 0 <= i < j < |nodes| ==> nodes[i] != nodes[j]
  }

  /** The nodes are distinct, next follows the sequence and prev undoes next. */
  ghost predicate Chain<T>(nodes: seq<Node<T>>)
    reads nodes
  {
    Distinct(nodes) && forall i: nat :: i < |nodes| ==> Placed(nodes, i)
  }

  ghost function First<T>(nodes: seq<Node<T>>): Node?<T> {
    if |nodes| == 0 then null else nodes[0]
  }

  ghost function Items<T>(nodes: seq<Node<T>>): (r: seq<T>)
    reads nodes
    ensures |r| == |nodes| && forall i :: 0 <= i < |r| ==> r[i] == nodes[i].item
  {
    seq(|nodes|, i requires 0 <= i < |nodes| reads nodes => nodes[i].item)
  }

  /** Position of the first item that matches, or the length of the sequence. */
  ghost function Find<T(!new)>(items: seq<T>, matches: T -> bool, i: nat := 0): (r: nat)
    requires i <= |items|
    ensures i <= r <= |items|
    ensures r < |items| ==> matches(items[r])
    ensures forall j :: i <= j < r ==> !matches(items[j])
    decreases |items| - i
  {
    if i == |items| || matches(items[i]) then i else Find(items, matches, i + 1)
  }

  ghost function Without<T>(items: seq<T>, i: nat): seq<T>
    requires i < |items|
  {
    items[..i] + items[i + 1..]
  }

  /** Node j is linked as in a chain, except that the neighbours of node i point past it. */
  ghost predicate PlacedPast<T>(nodes: seq<Node<T>>, i: nat, j: nat)
    requires j < |nodes|
    reads nodes
  {
    && nodes[j].next == At(nodes, if j + 1 == i then i + 1 else j + 1)
    && nodes[j].prev == At(nodes, if j - 1 == i then i - 1 else j - 1)
  }

  /** Then the other nodes form a chain. */
  lemma Relinked<T>(nodes: seq<Node<T>>, i: nat)
    requires i < |nodes| && Distinct(nodes)
    requires forall j: nat :: j < |nodes| && j != i ==> PlacedPast(nodes, i, j)
    ensures Chain(Without(nodes, i))
    ensures nodes[i] !in Without(nodes, i)
  {
    var rest := Without(nodes, i);
    forall j: nat | j < |rest| ensures Placed(rest, j) {
      PlacedInRest(nodes, i, j);
    }
  }

  lemma PlacedInRest<T>(nodes: seq<Node<T>>, i: nat, j: nat)
    requires i < |nodes| && j < |nodes| - 1
    requires PlacedPast(nodes, i, if j < i then j else j + 1)
    ensures Placed(Without(nodes, i), j)
  {
    var rest := Without(nodes, i);
    assert rest[j] == nodes[if j < i then j else j + 1];
    assert j > 0 ==> rest[j - 1] == nodes[if j - 1 < i then j - 1 else j];
    assert j + 1 < |rest| ==> rest[j + 1] == nodes[if j + 1 < i then j + 1 else j + 2];
  }

  class List<T(!new)> {
    var head: Node?<T>
    ghost var nodes: seq<Node<T>>

    ghost predicate Valid()
      reads this, nodes
    {
      Chain(nodes) && head == First(nodes)
    }

    ghost function Contents(): (r: seq<T>)
      reads this, nodes
      ensures |r| == |nodes|
    {
      Items(nodes)
    }

    constructor ()
      ensures Valid() && nodes == []
    {
      head := null;
      nodes := [];
    }

    /** Walk to the first node that matches. */
    method Seek(matches: T -> bool) returns (curr: Node?<T>, ghost i: nat)
      requires Valid()
      ensures i == Find(Contents(), matches)
      ensures curr == if i < |nodes| then nodes[i] else null
    {
      curr, i := head, 0;
      while curr != null
        invariant i <= |nodes| && curr == (if i < |nodes| then nodes[i] else null)
        invariant Find(Contents(), matches) == Find(Contents(), matches, i)
        decreases |nodes| - i
      {
        if matches(curr.item) { return; }
        assert Placed(nodes, i);
        curr := curr.next;
        i := i + 1;
      }
    }

    /** Walk to the last node. */
    method Last() returns (curr: Node?<T>)
      requires Valid()
      ensures curr == if |nodes| == 0 then null else nodes[|nodes| - 1]
    {
      curr := head;
      if curr == null { return; }
      ghost var i := 0;
      while curr.next != null
        invariant i < |nodes| && curr == nodes[i]
        decreases |nodes| - i
      {
        assert Placed(nodes, i);
        curr := curr.next;
        i := i + 1;
      }
      assert Placed(nodes, i);
    }

    /** Append behind the last node: the end of add_inode, add_opened_descriptor and
        add_filename_to_table. */
    method Append(last: Node?<T>, item: T) returns (node: Node<T>)
      requires Valid() && last == if |nodes| == 0 then null else nodes[|nodes| - 1]
      modifies this, last
      ensures Valid()
      ensures fresh(node) && nodes == old(nodes) + [node] && node.item == item
      ensures Contents() == old(Contents()) + [item]
    {
      node := new Node(item);
      if last == null {
        head := node;
      } else {
        assert Placed(nodes, |nodes| - 1);
        last.next := node;
        node.prev := last;
      }
      nodes := nodes + [node];
      forall j: nat | j < |nodes| ensures Placed(nodes, j) {
        if j < |nodes| - 1 { assert old(Placed(nodes, j)); }
      }
    }

    /** Change the item of a node in place. */
    method Set(curr: Node<T>, ghost i: nat, item: T)
      requires Valid() && i < |nodes| && curr == nodes[i]
      modifies curr`item
      ensures Valid() && Contents() == old(Contents())[i := item]
    {
      curr.item := item;
      forall j: nat | j < |nodes| ensures Placed(nodes, j) {
        assert old(Placed(nodes, j));
      }
    }

    /** The list surgery of remove_descriptor and remove_inode: the head is moved if needed. */
    method Detach(curr: Node<T>, ghost i: nat)
      requires Valid() && i < |nodes| && curr == nodes[i]
      modifies this, nodes
      ensures Valid() && nodes == Without(old(nodes), i)
      ensures forall j :: 0 <= j < |old(nodes)| ==> old(nodes)[j].item == old(nodes[j].item)
    {
      assert Placed(nodes, i);
      if curr.prev != null {
        curr.prev.next := curr.next;
      } else {
        if curr.next != null { curr.next.prev := null; }
        head := curr.next;
      }
      if curr.next != null {
        curr.next.prev := curr.prev;
      } else if curr.prev != null {
        curr.prev.next := null;
      }
      forall j: nat | j < |nodes| && j != i ensures PlacedPast(nodes, i, j) {
        assert old(Placed(nodes, j));
      }
      Relinked(nodes, i);
      nodes := Without(nodes, i);
    }

    /** remove_descriptor and remove_inode: the first element that matches goes. */
    method Remove(matches: T -> bool) returns (ok: bool)
      requires Valid()
      modifies this, nodes
      ensures Valid()
      ensures ok <==> Find(old(Contents()), matches) < |old(nodes)|
      ensures nodes == if ok then Without(old(nodes), Find(old(Contents()), matches)) else old(nodes)
      ensures Contents() == if ok then Without(old(Contents()), Find(old(Contents()), matches)) else old(Contents())
    {
      var curr, i := Seek(matches);
      if curr == null { return false; }
      ghost var was, items := nodes, Contents();
      Detach(curr, i);
      forall j | 0 <= j < |nodes| ensures nodes[j].item == Without(items, i)[j] {
        assert nodes[j] == was[if j < i then j else j + 1];
      }
      assert Contents() == Without(items, i);
      return true;
    }

    /** The list surgery of unlink_inode and remove_filename_from_table: the head is not moved. */
    method Bypass(curr: Node<T>, ghost i: nat)
      requires Valid() && i < |nodes| && curr == nodes[i]
      modifies nodes, this`nodes
      ensures Chain(nodes) && head == old(head) && nodes == Without(old(nodes), i) && curr !in nodes
      ensures forall j :: 0 <= j < |old(nodes)| ==> old(nodes)[j].item == old(nodes[j].item)
    {
      assert Placed(nodes, i);
      if curr.prev != null { curr.prev.next := curr.next; }
      if curr.next != null { curr.next.prev := curr.prev; }
      forall j: nat | j < |nodes| && j != i ensures PlacedPast(nodes, i, j) {
        assert old(Placed(nodes, j));
      }
      Relinked(nodes, i);
      nodes := Without(nodes, i);
    }

    /** The caller's head is never written, so the remaining nodes are chained as they should be,
        but the head is still right exactly when the removed node was not the first one; otherwise
        it is left pointing at the node that has been freed. */
    method RemoveKeepingHead(curr: Node<T>, ghost i: nat)
      requires Valid() && i < |nodes| && curr == nodes[i]
      modifies nodes, this`nodes
      ensures Chain(nodes) && head == old(head) && nodes == Without(old(nodes), i)
      ensures Contents() == Without(old(Contents()), i)
      ensures Valid() <==> i != 0
      ensures i == 0 ==> head == curr && head !in nodes
    {
      ghost var was, items := nodes, Contents();
      Bypass(curr, i);
      forall j | 0 <= j < |nodes| ensures nodes[j].item == Without(items, i)[j] {
        assert nodes[j] == was[if j < i then j else j + 1];
      }
      assert Contents() == Without(items, i);
    }
  }
}
