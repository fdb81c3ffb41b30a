/** The circular doubly linked list of runtime/bin/eventhandler.h, on the heap.

    A ring is refined to the sequence of its values, read from the head along
    `next`. Nodes are relinked in place; a removed node leaves `nodes`, which is
    this model's reading of `delete`. */
module Ring {
  import opened Common

  class Node<T> {
    const value: T
    var next: Node?<T>
    var prev: Node?<T>

    constructor (t: T)
      ensures value == t && next == null && prev == null
    {
      value, next, prev := t, null, null;
    }
  }

  function Succ(i: nat, n: nat): (j: nat)
    requires i < n
    ensures j < n
  {
    if i + 1 == n then 0 else i + 1
  }

  function Pred(i: nat, n: nat): (j: nat)
    requires i < n
    ensures j < n && Succ(j, n) == i
  {
    if i == 0 then n - 1 else i - 1
  }

  /** The nodes form one cycle, in the order listed, with `prev` the inverse of `next`. */
  ghost predicate Linked<T>(nodes: seq<Node<T>>)
    reads nodes
  {
    && (forall i {:trigger nodes[i].next} :: 0 <= i < |nodes| ==> nodes[i].next == nodes[Succ(i, |nodes|)])
    && (forall i {:trigger nodes[i].prev} :: 0 <= i < |nodes| ==> nodes[i].prev == nodes[Pred(i, |nodes|)])
  }

  /** Where position i of a cycle read from position k is when it is read from the start. */
  function Origin(i: nat, k: nat, n: nat): (o: nat)
    requires i < n && k <= n
    ensures o < n
  {
    if i + k < n then i + k else i + k - n
  }

  lemma OriginSteps(i: nat, k: nat, n: nat)
    requires i < n && k <= n
    ensures Origin(Succ(i, n), k, n) == Succ(Origin(i, k, n), n) && Origin(Pred(i, n), k, n) == Pred(Origin(i, k, n), n)
  {
  }

  lemma RotatedAt<T>(s: seq<T>, k: nat)
    requires k <= |s|
    ensures var rotated := s[k..] + s[..k];
            |rotated| == |s| && forall i :: 0 <= i < |s| ==> rotated[i] == s[Origin(i, k, |s|)]
  {
  }

  /** A cycle may be read from any of its nodes. */
  lemma RotatedLinked<T>(nodes: seq<Node<T>>, k: nat)
    requires k <= |nodes| && Linked(nodes)
    ensures Linked(nodes[k..] + nodes[..k])
  {
    RotatedAt(nodes, k);
    RelabelledLinked(nodes, nodes[k..] + nodes[..k], k);
  }

  lemma RelabelledLinked<T>(nodes: seq<Node<T>>, rotated: seq<Node<T>>, k: nat)
    requires |rotated| == |nodes| && k <= |nodes| && Linked(nodes)
    requires forall i :: 0 <= i < |nodes| ==> rotated[i] == nodes[Origin(i, k, |nodes|)]
    ensures Linked(rotated)
  {
    var n := |nodes|;
    forall i {:trigger rotated[i].next} | 0 <= i < n ensures rotated[i].next == rotated[Succ(i, n)] {
      OriginSteps(i, k, n);
      assert nodes[Origin(i, k, n)].next == nodes[Succ(Origin(i, k, n), n)];
      assert rotated[Succ(i, n)] == nodes[Origin(Succ(i, n), k, n)];
    }
    forall i {:trigger rotated[i].prev} | 0 <= i < n ensures rotated[i].prev == rotated[Pred(i, n)] {
      OriginSteps(i, k, n);
      assert nodes[Origin(i, k, n)].prev == nodes[Pred(Origin(i, k, n), n)];
      assert rotated[Pred(i, n)] == nodes[Origin(Pred(i, n), k, n)];
    }
  }

  lemma DistinctWithout<T>(s: seq<T>, k: nat)
    requires Distinct(s) && k < |s|
    ensures Distinct(s[..k] + s[k + 1..])
  {
  }

  /** Reading the cycle from where it was read before node k was taken out. */
  lemma RotateBack<T>(nodes: seq<Node<T>>, k: nat)
    requires k < |nodes| && Linked((nodes[k..] + nodes[..k])[1..])
    ensures Linked(nodes[..k] + nodes[k + 1..])
  {
    var ring, n := (nodes[k..] + nodes[..k])[1..], |nodes| - 1;
    assert ring == nodes[k + 1..] + nodes[..k];
    RotatedLinked(ring, n - k);
    assert ring[n - k..] + ring[..n - k] == nodes[..k] + nodes[k + 1..];
  }

  lemma DistinctRotated<T>(s: seq<T>, k: nat)
    requires Distinct(s) && k <= |s|
    ensures Distinct(s[k..] + s[..k])
  {
    RotatedAt(s, k);
    forall i, j | 0 <= i < j < |s| ensures (s[k..] + s[..k])[i] != (s[k..] + s[..k])[j] {
      assert Origin(i, k, |s|) != Origin(j, k, |s|);
    }
  }

  /** Takes the first node of a cycle of at least two out of it. */
  method Splice<T>(e: Node<T>, ghost ring: seq<Node<T>>)
    requires Linked(ring) && Distinct(ring) && |ring| >= 2 && ring[0] == e
    modifies ring
    ensures Linked(ring[1..]) && e.next == old(e.next) && e.prev == old(e.prev)
  {
    var prev, next := e.prev, e.next;
    prev.next := next;
    next.prev := prev;
  }

  /** Links a new node in between the last and the first node of a cycle. */
  method Append<T>(e: Node<T>, head: Node<T>, ghost ring: seq<Node<T>>)
    requires Linked(ring) && Distinct(ring) && ring != [] && ring[0] == head && e !in ring
    modifies ring, e
    ensures Linked(ring + [e])
  {
    ghost var n, after := |ring|, ring + [e];
    var last := head.prev;
    assert last == ring[n - 1];
    e.prev, e.next := last, head;
    last.next := e;
    head.prev := e;
    forall i | 0 <= i <= n ensures after[i].next == after[Succ(i, n + 1)]
    {
      if i < n - 1 {
        assert ring[i] != last;
        assert old(ring[i].next) == ring[Succ(i, n)];
      }
    }
    forall i | 0 <= i <= n ensures after[i].prev == after[Pred(i, n + 1)]
    {
      if 0 < i < n {
        assert ring[i] != head;
        assert old(ring[i].prev) == ring[Pred(i, n)];
      }
    }
  }

  ghost function Values<T>(nodes: seq<Node<T>>): (s: seq<T>)
    ensures |s| == |nodes|
  {
    seq(|nodes|, i requires 0 <= i < |nodes| => nodes[i].value)
  }

  /** `s` without its first occurrence of `t`. */
  function Without<T(==)>(s: seq<T>, t: T): (r: seq<T>)
  {
    if s == [] then [] else if s[0] == t then s[1..] else [s[0]] + Without(s[1..], t)
  }

  /** Deleting the first occurrence keeps everything before and after it in order. */
  lemma {:induction false} WithoutRemovesFirst<T>(s: seq<T>, t: T, k: nat)
    requires k < |s| && s[k] == t && t !in s[..k]
    ensures Without(s, t) == s[..k] + s[k + 1..]
  {
    if k == 0 {
      assert s == [s[0]] + s[1..];
    } else {
      assert s[0] in s[..k];
      assert t !in s[1..][..k - 1] by {
        forall x | x in s[1..][..k - 1] ensures x in s[..k] {}
      }
      WithoutRemovesFirst(s[1..], t, k - 1);
      assert s == [s[0]] + s[1..];
      assert s[1..][k..] == s[k + 1..];
      assert [s[0]] + s[1..][..k - 1] == s[..k];
    }
  }

  lemma {:induction false} WithoutAbsent<T>(s: seq<T>, t: T)
    requires t !in s
    ensures Without(s, t) == s
  {
    if s != [] {
      WithoutAbsent(s[1..], t);
      assert s == [s[0]] + s[1..];
    }
  }

  class CircularLinkedList<T(==)> {
    var head: Node?<T>
    ghost var nodes: seq<Node<T>>
    /** Every node the ring has owned so far. */
    ghost var cells: set<Node<T>>

    ghost predicate Valid()
      reads this, nodes
    {
      && (head == null <==> nodes == [])
      && (head != null ==> nodes[0] == head)
      && (forall i :: 0 <= i < |nodes| ==> nodes[i] in cells)
      && Distinct(nodes)
      && Linked(nodes)
    }

    ghost function Contents(): (s: seq<T>)
      reads this
    {
      Values(nodes)
    }

    constructor ()
      ensures Valid() && Contents() == [] && cells == {}
    {
      head, nodes, cells := null, [], {};
    }

    /** Appends at the end; the result says whether the ring was empty. */
    method Add(t: T) returns (wasEmpty: bool)
      requires Valid()
      modifies this, cells
      ensures Valid() && fresh(cells - old(cells))
      ensures Contents() == old(Contents()) + [t]
      ensures wasEmpty <==> old(Contents()) == []
    {
      var e := new Node(t);
      if head == null {
        e.next, e.prev, head := e, e, e;
        nodes, cells := [e], cells + {e};
        return true;
      }
      Append(e, head, nodes);
      nodes, cells := nodes + [e], cells + {e};
      wasEmpty := false;
    }

    method RemoveHead() returns (removed: T)
      requires Valid() && Contents() != []
      modifies this, cells
      ensures Valid() && nodes == old(nodes)[1..] && cells == old(cells)
      ensures removed == old(Contents())[0] && Contents() == old(Contents())[1..]
    {
      var e := head;
      if e.next == e {
        head := null;
      } else {
        assert nodes[0].next == nodes[Succ(0, |nodes|)];
        Splice(e, nodes);
        head := e.next;
      }
      nodes := nodes[1..];
      removed := e.value;
    }

    /** Unlinks the node at position k, as the search loop of Remove does on a hit. */
    method Unlink(current: Node<T>, ghost k: nat)
      requires Valid() && 2 <= |nodes| && k < |nodes| && nodes[k] == current
      modifies this, cells
      ensures Valid() && cells == old(cells)
      ensures nodes == old(nodes)[..k] + old(nodes)[k + 1..]
    {
      RotatedLinked(nodes, k);
      DistinctRotated(nodes, k);
      Splice(current, nodes[k..] + nodes[..k]);
      RotateBack(nodes, k);
      DistinctWithout(nodes, k);
      if current == head {
        head := head.next;
      }
      assert forall i :: 0 <= i < |nodes| ==> nodes[i] in cells;
      nodes := nodes[..k] + nodes[k + 1..];
    }

    /** Deletes the first occurrence of `item`, if any. */
    method Remove(item: T)
      requires Valid()
      modifies this, cells
      ensures Valid() && cells == old(cells)
      ensures Contents() == Without(old(Contents()), item)
    {
      if head == null {
        return;
      } else if head == head.next {
        if head.value == item {
          head := null;
          nodes := [];
        }
      } else {
        ghost var k := 0;
        var current;
        current, k := Find(item);
        if current != null {
          WithoutRemovesFirst(Contents(), item, k);
          Unlink(current, k);
        } else {
          WithoutAbsent(Contents(), item);
        }
      }
    }

    /** The search loop of Remove: once around the ring from its head. */
    method Find(item: T) returns (current: Node?<T>, ghost k: nat)
      requires Valid() && 2 <= |nodes|
      ensures current != null ==>
                k < |nodes| && nodes[k] == current && Contents()[k] == item && item !in Contents()[..k]
      ensures current == null ==> item !in Contents()
    {
      current, k := head, 0;
      while true
        invariant k < |nodes| && current == nodes[k]
        invariant forall j :: 0 <= j < k ==> nodes[j].value != item
        decreases |nodes| - k
      {
        if current.value == item {
          return;
        }
        assert nodes[k].next == nodes[Succ(k, |nodes|)];
        current := current.next;
        if current == head {
          assert k + 1 == |nodes|;
          return null, 0;
        }
        k := k + 1;
      }
    }

    /** Empties the ring; `cleared` are the values handed to the clear function, in order. */
    method RemoveAll() returns (cleared: seq<T>)
      requires Valid()
      modifies this, cells
      ensures Valid() && Contents() == [] && cleared == old(Contents()) && cells == old(cells)
    {
      cleared := [];
      ghost var was := Contents();
      while head != null
        invariant Valid() && cells == old(cells)
        invariant |cleared| <= |was| && cleared == was[..|cleared|] && Contents() == was[|cleared|..]
        decreases |nodes|
      {
        var t := RemoveHead();
        cleared := cleared + [t];
      }
    }

    method Head() returns (t: T)
      requires Valid() && Contents() != []
      ensures t == Contents()[0]
    {
      t := head.value;
    }

    method HasHead() returns (b: bool)
      requires Valid()
      ensures b <==> Contents() != []
    {
      b := head != null;
    }

    /** Moves the first value to the end without touching any link. */
    method Rotate()
      requires Valid()
      modifies this
      ensures Valid() && cells == old(cells)
      ensures nodes == if old(nodes) == [] then [] else old(nodes)[1..] + [old(nodes)[0]]
      ensures Contents() == if old(Contents()) == [] then [] else old(Contents())[1..] + [old(Contents())[0]]
    {
      if head != null {
        assert nodes == [nodes[0]] + nodes[1..];
        head := head.next;
        nodes := nodes[1..] + [nodes[0]];
      }
    }
  }
}
