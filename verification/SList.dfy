/** The singly-linked list of include/sys/slist.h with the operations that include/sys/list_gen.h generates for it.
    Every operation is proved to be one operation on the ghost sequence `nodes`, of which the pointers are a faithful
    picture: acyclic, null-terminated, the tail in agreement with the head. */
module SList {
  import opened Sequences

  /** A `sys_snode_t` embedded in a larger object.  `payload` is the rest of that object, so the container of a node is the
      node itself. */
  class SNode<P> {
    var next: SNode?<P>
    var payload: P

    constructor (payload: P)
      ensures next == null && this.payload == payload
    {
      next := null;
      this.payload := payload;
    }
  }

  /** The nodes are linked in the order of the sequence and the last one ends the chain. */
  ghost predicate Chained<P>(s: seq<SNode<P>>)
    reads s
  {
    && (forall i {:trigger s[i].next} :: 0 <= i < |s| - 1 ==> s[i].next == s[i + 1])
    && (s != [] ==> s[|s| - 1].next == null)
  }

  class SList<P> {
    var head: SNode?<P>
    var tail: SNode?<P>
    ghost var nodes: seq<SNode<P>>

    ghost predicate Valid()
      reads this, nodes
    {
      && NoDuplicates(nodes)
      && Chained(nodes)
      && (if nodes == [] then head == null && tail == null else head == nodes[0] && tail == nodes[|nodes| - 1])
    }

    constructor ()
      ensures Valid() && nodes == []
    {
      head, tail := null, null;
      nodes := [];
    }

    /** `sys_slist_init`. */
    method Init()
      modifies this
      ensures Valid() && nodes == []
    {
      head := null;
      tail := null;
      nodes := [];
    }

    method IsEmpty() returns (empty: bool)
      requires Valid()
      ensures empty <==> nodes == []
    {
      empty := head == null;
    }

    method PeekNext(node: SNode?<P>) returns (next: SNode?<P>)
      requires Valid()
      ensures node == null ==> next == null
      ensures forall i :: 0 <= i < |nodes| && node == nodes[i] ==> next == if i + 1 < |nodes| then nodes[i + 1] else null
    {
      next := if node != null then node.next else null;
    }

    method Prepend(node: SNode<P>)
      requires Valid() && node !in nodes
      modifies this, node`next
      ensures Valid() && nodes == [node] + old(nodes)
    {
      node.next := head;
      head := node;
      if tail == null {
        tail := head;
      }
      nodes := [node] + nodes;
    }

    method Append(node: SNode<P>)
      requires Valid() && node !in nodes
      modifies this, node`next, (if tail == null then {} else {tail})`next
      ensures Valid() && nodes == old(nodes) + [node]
    {
      node.next := null;
      if tail == null {
        tail := node;
        head := node;
      } else {
        tail.next := node;
        tail := node;
      }
      nodes := nodes + [node];
    }

    /** `first` and `last` are the ends of a null-terminated chain of nodes that are not in this list. */
    method AppendList(first: SNode?<P>, last: SNode?<P>, ghost chain: seq<SNode<P>>)
      requires Valid()
      requires first != null && last != null ==>
        && chain != [] && chain[0] == first && chain[|chain| - 1] == last && Chained(chain) && NoDuplicates(chain)
        && forall n :: n in chain ==> n !in nodes
      modifies this, (if tail == null then {} else {tail})`next
      ensures Valid()
      ensures nodes == if first != null && last != null then old(nodes) + chain else old(nodes)
    {
      if first != null && last != null {
        assert tail != null ==> tail in nodes;
        assert last in chain;
        if tail == null {
          head := first;
        } else {
          tail.next := first;
        }
        tail := last;
        NoDuplicatesConcat(nodes, chain);
        nodes := nodes + chain;
      }
    }

    /** `sys_slist_merge_slist`: appends the other list, which ends up empty. */
    method Merge(other: SList<P>)
      requires Valid() && other.Valid() && other != this
      requires forall n :: n in other.nodes ==> n !in nodes
      modifies this, other, (if tail == null then {} else {tail})`next
      ensures Valid() && nodes == old(nodes) + old(other.nodes)
      ensures other.Valid() && other.nodes == []
    {
      var first, last := other.head, other.tail;
      AppendList(first, last, other.nodes);
      other.Init();
    }

    /** Inserts after `prev`, or in front when `prev` is null. */
    method Insert(prev: SNode?<P>, node: SNode<P>, ghost at: nat)
      requires Valid() && node !in nodes
      requires if prev == null then at == 0 else 0 < at <= |nodes| && prev == nodes[at - 1]
      modifies this, node`next, (if prev == null then {} else {prev})`next
      ensures Valid() && nodes == InsertedAt(old(nodes), at, node)
    {
      assert 0 < at < |nodes| ==> nodes[at - 1].next == nodes[at];
      if prev == null {
        Prepend(node);
      } else if prev.next == null {
        Append(node);
      } else {
        node.next := prev.next;
        prev.next := node;
        nodes := InsertedAt(nodes, at, node);
      }
    }

    method GetNotEmpty() returns (node: SNode<P>)
      requires Valid() && nodes != []
      modifies this
      ensures Valid() && node == old(nodes)[0] && nodes == old(nodes)[1..]
    {
      node := head;
      head := node.next;
      if tail == node {
        tail := head;
      }
      nodes := nodes[1..];
    }

    method Get() returns (node: SNode?<P>)
      requires Valid()
      modifies this
      ensures Valid()
      ensures if old(nodes) == [] then node == null && nodes == [] else node == old(nodes)[0] && nodes == old(nodes)[1..]
    {
      if head == null {
        node := null;
      } else {
        node := GetNotEmpty();
      }
    }

    /** `prev` is the predecessor of `node`, null when `node` is the head. */
    method Remove(prev: SNode?<P>, node: SNode<P>, ghost at: nat)
      requires Valid() && at < |nodes| && node == nodes[at]
      requires prev == if at == 0 then null else nodes[at - 1]
      modifies this, node`next, (if prev == null then {} else {prev})`next
      ensures Valid() && nodes == RemovedAt(old(nodes), at)
      ensures node.next == null
    {
      if prev == null {
        head := node.next;
        if tail == node {
          tail := head;
        }
      } else {
        prev.next := node.next;
        if tail == node {
          tail := prev;
        }
      }
      node.next := null;
      nodes := RemovedAt(nodes, at);
    }

    /** Returns whether the node was there, and then removes exactly it. */
    method FindAndRemove(node: SNode<P>) returns (found: bool)
      requires Valid()
      modifies this, (set n | n in nodes)`next
      ensures Valid()
      ensures found <==> node in old(nodes)
      ensures nodes == Without(old(nodes), node) && node !in nodes
      ensures !found ==> unchanged(this) && forall n :: n in nodes ==> unchanged(n)
    {
      var prev: SNode?<P> := null;
      var test := head;
      ghost var i := 0;
      while test != null
        invariant 0 <= i <= |nodes|
        invariant test == if i < |nodes| then nodes[i] else null
        invariant prev == if i == 0 then null else nodes[i - 1]
        invariant node !in nodes[..i]
        decreases |nodes| - i
      {
        if test == node {
          WithoutAt(nodes, i);
          Remove(prev, node, i);
          return true;
        }
        prev := test;
        test := test.next;
        i := i + 1;
      }
      found := false;
    }
  }
}
