/** The circular doubly-linked list of include/sys/dlist.h.  A list head and its nodes are the same structure, and removal
    is told only the node.  The operations are therefore proved over a whole family of lists at once. */
module DList {
  import opened Sequences

  /** `struct _dnode`: `next` and `prev` of a node are `head` and `tail` of a list. */
  class DNode {
    var next: DNode?
    var prev: DNode?

    /** `sys_dnode_init`. */
    constructor ()
      ensures next == null && prev == null
    {
      next, prev := null, null;
    }
  }

  /** What a pointer allows to be written. */
  ghost function Target(p: DNode?): set<DNode> { if p == null then {} else {p} }

  /** Once round the ring, from the head back to the head. */
  ghost function Round(h: DNode, s: seq<DNode>): seq<DNode> { [h] + s + [h] }

  /** `next` leads along the sequence and `prev` is its inverse. */
  ghost predicate Linked(r: seq<DNode>)
    reads r
  {
    && (forall i {:trigger r[i].next} :: 0 <= i < |r| - 1 ==> r[i].next == r[i + 1])
    && (forall i {:trigger r[i].prev} :: 0 < i < |r| ==> r[i].prev == r[i - 1])
  }

  /** Every sequence lists known nodes that are not heads, no node occurs twice or in two sequences, and `owner` maps every
      head and every listed node, and nothing else, to the head of its ring. */
  ghost predicate Partitioned(lists: map<DNode, seq<DNode>>, known: set<DNode>, owner: map<DNode, DNode>) {
    && (forall h :: h in lists ==> h !in known && h in owner && owner[h] == h && NoDuplicates(lists[h]))
    && (forall h, n :: h in lists && n in lists[h] ==> n in known && n in owner && owner[n] == h)
    && (forall n :: n in owner ==> owner[n] in lists && (n == owner[n] || n in lists[owner[n]]))
  }

  lemma InitKeepsPartition(lists: map<DNode, seq<DNode>>, known: set<DNode>, owner: map<DNode, DNode>, h: DNode)
    requires Partitioned(lists, known, owner) && h !in lists && h !in known
    ensures h !in owner && Partitioned(lists[h := []], known, owner[h := h])
  {
  }

  lemma InsertKeepsPartition(lists: map<DNode, seq<DNode>>, known: set<DNode>, owner: map<DNode, DNode>, h: DNode, k: nat,
                             node: DNode)
    requires Partitioned(lists, known, owner) && h in lists && k <= |lists[h]| && node !in owner
    ensures Partitioned(lists[h := InsertedAt(lists[h], k, node)], known + {node}, owner[node := h])
  {
    var s, t := lists[h], InsertedAt(lists[h], k, node);
    InsertedMembers(s, k, node);
    forall g, n | g in lists && n in lists[h := t][g] ensures (n == node && g == h) || n in lists[g] {
      if g == h { assert n in t; }
    }
  }

  lemma RemoveKeepsPartition(lists: map<DNode, seq<DNode>>, known: set<DNode>, owner: map<DNode, DNode>, h: DNode, k: nat)
    requires Partitioned(lists, known, owner) && h in lists && k < |lists[h]|
    ensures lists[h][k] in known
    ensures Partitioned(lists[h := RemovedAt(lists[h], k)], known, owner - {lists[h][k]})
  {
    var s, t := lists[h], RemovedAt(lists[h], k);
    RemovedMembers(s, k);
    assert s[k] in s;
    forall g, n | g in lists && n in lists[h := t][g] ensures n != s[k] && n in lists[g] {
      if g == h { assert n in t; } else { assert owner[n] == g && owner[s[k]] == h; }
    }
  }

  /** Only the head is met twice in a round, at the two ends. */
  ghost predicate RingShape(r: seq<DNode>) {
    && (forall i, j :: 0 <= i < j < |r| - 1 ==> r[i] != r[j])
    && (forall i, j :: 0 < i < j < |r| ==> r[i] != r[j])
  }

  lemma RoundIsRing(h: DNode, s: seq<DNode>)
    requires h !in s && NoDuplicates(s)
    ensures RingShape(Round(h, s))
    ensures forall n :: n in Round(h, s) <==> n == h || n in s
  {
    var r := Round(h, s);
    assert forall i :: 0 < i < |r| - 1 ==> r[i] == s[i - 1];
  }

  /** What is written at one position of a ring is written at no other. */
  lemma OnlyHere(r: seq<DNode>, k: nat)
    requires RingShape(r) && k < |r|
    ensures k < |r| - 1 ==> forall i :: 0 <= i < |r| - 1 && i != k ==> r[i] != r[k]
    ensures 0 < k ==> forall i :: 0 < i < |r| && i != k ==> r[i] != r[k]
    ensures r[k] in r
  {
  }

  lemma InsertedIntoRound(h: DNode, s: seq<DNode>, k: nat, node: DNode)
    requires k <= |s|
    ensures InsertedAt(Round(h, s), k + 1, node) == Round(h, InsertedAt(s, k, node))
  {
  }

  lemma RemovedFromRound(h: DNode, s: seq<DNode>, k: nat)
    requires k < |s|
    ensures RemovedAt(Round(h, s), k + 1) == Round(h, RemovedAt(s, k))
  {
  }

  /** All but one link of each direction, and the four new ones, make the ring with the node in place. */
  lemma SplicedIn(r: seq<DNode>, k: nat, node: DNode)
    requires k < |r| - 1
    requires node.prev == r[k] && node.next == r[k + 1] && r[k].next == node && r[k + 1].prev == node
    requires forall i {:trigger r[i].next} :: 0 <= i < |r| - 1 && i != k ==> r[i].next == r[i + 1]
    requires forall i {:trigger r[i].prev} :: 0 < i < |r| && i != k + 1 ==> r[i].prev == r[i - 1]
    ensures Linked(InsertedAt(r, k + 1, node))
  {
  }

  /** The links away from a node, and the two that bypass it, make the ring without it. */
  lemma SplicedOut(r: seq<DNode>, k: nat)
    requires 0 < k < |r| - 1
    requires r[k - 1].next == r[k + 1] && r[k + 1].prev == r[k - 1]
    requires forall i {:trigger r[i].next} :: 0 <= i < |r| - 1 && i != k - 1 && i != k ==> r[i].next == r[i + 1]
    requires forall i {:trigger r[i].prev} :: 0 < i < |r| && i != k && i != k + 1 ==> r[i].prev == r[i - 1]
    ensures Linked(RemovedAt(r, k))
  {
  }

  /** All the lists of a program, as the sequence of nodes after each head, and every initialised node, linked or not. */
  class Family {
    ghost var lists: map<DNode, seq<DNode>>
    ghost var known: set<DNode>
    ghost var owner: map<DNode, DNode>  // the head of the ring each head and each linked node is in

    ghost predicate Valid()
      reads this, lists.Keys, known
    {
      && Partitioned(lists, known, owner)
      && (forall n :: n in known ==> (n.next != null <==> n in owner))
      && (forall h :: h in lists ==> Linked(Round(h, lists[h])))
    }

    /** The shape and the owner of one ring of a valid family. */
    lemma RingOf(h: DNode)
      requires Valid() && h in lists
      ensures RingShape(Round(h, lists[h])) && Linked(Round(h, lists[h]))
      ensures forall n :: n in Round(h, lists[h]) <==> n in owner && owner[n] == h
    {
      RoundIsRing(h, lists[h]);
    }

    /** What the head's own pointers say. */
    lemma EndsOf(h: DNode)
      requires Valid() && h in lists
      ensures var s := lists[h];
              && h !in s && NoDuplicates(s)
              && h.next == (if s == [] then h else s[0]) && h.prev == (if s == [] then h else s[|s| - 1])
    {
      var r := Round(h, lists[h]);
      assert r[0].next == r[1] && r[|r| - 1].prev == r[|r| - 2];
    }

    /** The neighbours of a node in its list. */
    lemma StepFrom(h: DNode, k: nat)
      requires Valid() && h in lists && k < |lists[h]|
      ensures var s := lists[h];
              && s[k] in known
              && s[k].next == (if k + 1 < |s| then s[k + 1] else h) && s[k].prev == (if k > 0 then s[k - 1] else h)
    {
      var r := Round(h, lists[h]);
      assert r[k + 1].next == r[k + 2] && r[k + 1].prev == r[k];
      assert lists[h][k] in lists[h];
    }

    lemma LinksOf(h: DNode)
      requires Valid() && h in lists
      ensures var r := Round(h, lists[h]);
              && (forall i {:trigger r[i].next} :: 0 <= i < |r| - 1 ==> r[i].next == r[i + 1] && r[i] in r)
              && (forall i {:trigger r[i].prev} :: 0 < i < |r| ==> r[i].prev == r[i - 1] && r[i] in r)
              && (forall n :: n in r <==> n in owner && owner[n] == h)
              && RingShape(r)
    {
      RingOf(h);
    }

    /** Every ring but one is intact, and a known node's flag is right unless it is the node being moved. */
    ghost predicate ValidBut(h: DNode, node: DNode)
      reads this, lists.Keys, known
    {
      && Partitioned(lists, known, owner)
      && (forall n :: n in known && n != node ==> (n.next != null <==> n in owner))
      && (forall g :: g in lists && g != h ==> Linked(Round(g, lists[g])))
    }

    ghost method Admit(h: DNode, k: nat, node: DNode)
      requires ValidBut(h, node) && h in lists && k <= |lists[h]| && node !in owner && node.next != null
      requires Linked(InsertedAt(Round(h, lists[h]), k + 1, node))
      modifies this
      ensures Valid() && lists == old(lists)[h := InsertedAt(old(lists[h]), k, node)] && known == old(known) + {node}
    {
      hide Linked; hide Partitioned; hide NoDuplicates; hide InsertedAt;
      InsertKeepsPartition(lists, known, owner, h, k, node);
      InsertedIntoRound(h, lists[h], k, node);
      lists := lists[h := InsertedAt(lists[h], k, node)];
      known := known + {node};
      owner := owner[node := h];
    }

    ghost method Dismiss(h: DNode, k: nat)
      requires h in lists && k < |lists[h]| && ValidBut(h, lists[h][k]) && lists[h][k].next == null
      requires Linked(RemovedAt(Round(h, lists[h]), k + 1))
      modifies this
      ensures Valid() && lists == old(lists)[h := RemovedAt(old(lists[h]), k)] && known == old(known)
    {
      hide Linked; hide Partitioned; hide NoDuplicates; hide RemovedAt;
      RemoveKeepsPartition(lists, known, owner, h, k);
      RemovedFromRound(h, lists[h], k);
      owner := owner - {lists[h][k]};
      lists := lists[h := RemovedAt(lists[h], k)];
    }

    /** While the nodes of all rings but one keep their links, those rings are kept. */
    twostate lemma OthersKept(h: DNode)
      requires old(Valid()) && unchanged(this)
      requires forall n :: n in owner && owner[n] != h ==> n.next == old(n.next) && n.prev == old(n.prev)
      ensures forall g :: g in lists && g != h ==> Linked(Round(g, lists[g]))
    {
      forall g | g in lists && g != h ensures Linked(Round(g, lists[g])) {
        var r := Round(g, lists[g]);
        assert old(Linked(r));
        assert forall n :: n in r ==> n in owner && owner[n] == g by {
          RoundIsRing(g, lists[g]);
        }
        assert forall i :: 0 <= i < |r| ==> r[i] in r;
      }
    }

    constructor ()
      ensures Valid() && lists == map[] && known == {}
    {
      lists, known, owner := map[], {}, map[];
    }
  }

  /** A node is linked exactly when it is in one of the sequences, and then it is in no other and there only once. */
  lemma LinkedIffInOneList(fam: Family, n: DNode)
    requires fam.Valid() && n in fam.known
    ensures n.next != null <==> exists h :: h in fam.lists && n in fam.lists[h]
    ensures forall h, k :: h in fam.lists && k in fam.lists && n in fam.lists[h] && n in fam.lists[k] ==> h == k
    ensures forall h :: h in fam.lists ==> NoDuplicates(fam.lists[h])
  {
  }

  /** `sys_dlist_init` of an object that is not yet part of the family. */
  method Init(list: DNode, ghost fam: Family)
    requires fam.Valid() && list !in fam.known && list !in fam.lists
    modifies fam, list
    ensures fam.Valid() && fam.lists == old(fam.lists)[list := []] && fam.known == old(fam.known)
  {
    hide Partitioned; hide NoDuplicates;
    InitKeepsPartition(fam.lists, fam.known, fam.owner, list);
    list.next := list;
    list.prev := list;
    fam.OthersKept(list);
    fam.lists := fam.lists[list := []];
    fam.owner := fam.owner[list := list];
  }

  /** `sys_dlist_insert`: before `successor`, which is a node or, for the end of the list, the head itself. */
  method Insert(successor: DNode, node: DNode, ghost h: DNode, ghost k: nat, ghost fam: Family)
    requires fam.Valid() && h in fam.lists && k <= |fam.lists[h]|
    requires successor == Round(h, fam.lists[h])[k + 1]
    requires node !in fam.owner
    modifies fam, node, successor`prev, Target(successor.prev)`next
    ensures fam.Valid() && fam.lists == old(fam.lists)[h := InsertedAt(old(fam.lists[h]), k, node)]
    ensures fam.known == old(fam.known) + {node}
  {
    hide Partitioned; hide NoDuplicates; hide Linked; hide RingShape; hide InsertedAt;
    ghost var r := Round(h, fam.lists[h]);
    fam.LinksOf(h);
    OnlyHere(r, k);
    OnlyHere(r, k + 1);
    var prev := successor.prev;
    node.prev := prev;
    node.next := successor;
    prev.next := node;
    successor.prev := node;
    SplicedIn(r, k, node);
    fam.OthersKept(h);
    fam.Admit(h, k, node);
  }

  /** `sys_dlist_append`. */
  method Append(list: DNode, node: DNode, ghost fam: Family)
    requires fam.Valid() && list in fam.lists && node !in fam.owner
    modifies fam, node, list`prev, Target(list.prev)`next
    ensures fam.Valid() && fam.lists == old(fam.lists)[list := old(fam.lists[list]) + [node]]
    ensures fam.known == old(fam.known) + {node}
  {
    hide Partitioned; hide NoDuplicates; hide Linked; hide RingShape; hide InsertedAt;
    ghost var s, r := fam.lists[list], Round(list, fam.lists[list]);
    fam.LinksOf(list);
    OnlyHere(r, |s|);
    OnlyHere(r, |s| + 1);
    var tail := list.prev;
    node.next := list;
    node.prev := tail;
    tail.next := node;
    list.prev := node;
    SplicedIn(r, |s|, node);
    fam.OthersKept(list);
    fam.Admit(list, |s|, node);
    InsertedAtEnds(s, node);
  }

  /** `sys_dlist_prepend`. */
  method Prepend(list: DNode, node: DNode, ghost fam: Family)
    requires fam.Valid() && list in fam.lists && node !in fam.owner
    modifies fam, node, list`next, Target(list.next)`prev
    ensures fam.Valid() && fam.lists == old(fam.lists)[list := [node] + old(fam.lists[list])]
    ensures fam.known == old(fam.known) + {node}
  {
    hide Partitioned; hide NoDuplicates; hide Linked; hide RingShape; hide InsertedAt;
    ghost var s, r := fam.lists[list], Round(list, fam.lists[list]);
    fam.LinksOf(list);
    OnlyHere(r, 0);
    OnlyHere(r, 1);
    var head := list.next;
    node.next := head;
    node.prev := list;
    head.prev := node;
    list.next := node;
    SplicedIn(r, 0, node);
    fam.OthersKept(list);
    fam.Admit(list, 0, node);
    InsertedAtEnds(s, node);
  }

  /** `sys_dlist_remove`: only the node is named; `h` and `k` say, for the proof, where it is. */
  method Remove(node: DNode, ghost h: DNode, ghost k: nat, ghost fam: Family)
    requires fam.Valid() && h in fam.lists && k < |fam.lists[h]| && node == fam.lists[h][k]
    modifies fam, node, Target(node.prev)`next, Target(node.next)`prev
    ensures fam.Valid() && fam.lists == old(fam.lists)[h := RemovedAt(old(fam.lists[h]), k)]
    ensures fam.known == old(fam.known) && node.next == null && node.prev == null
  {
    hide Partitioned; hide NoDuplicates; hide Linked; hide RingShape; hide RemovedAt;
    ghost var r := Round(h, fam.lists[h]);
    fam.LinksOf(h);
    OnlyHere(r, k);
    OnlyHere(r, k + 1);
    OnlyHere(r, k + 2);
    assert r[k + 1] == node;
    var prev := node.prev;
    var next := node.next;
    prev.next := next;
    next.prev := prev;
    node.next := null;
    node.prev := null;
    SplicedOut(r, k + 1);
    fam.OthersKept(h);
    fam.Dismiss(h, k);
  }

  // ----- queries, each about one list of the family ---------------------------------------------------------------

  /** `sys_dnode_is_linked`. */
  method IsLinked(node: DNode, ghost fam: Family) returns (linked: bool)
    requires fam.Valid() && node in fam.known
    ensures linked <==> exists h :: h in fam.lists && node in fam.lists[h]
  {
    LinkedIffInOneList(fam, node);
    linked := node.next != null;
  }

  method IsEmpty(list: DNode, ghost fam: Family) returns (empty: bool)
    requires fam.Valid() && list in fam.lists
    ensures empty <==> fam.lists[list] == []
  {
    fam.EndsOf(list);
    empty := list.next == list;
  }

  method HasMultipleNodes(list: DNode, ghost fam: Family) returns (multiple: bool)
    requires fam.Valid() && list in fam.lists
    ensures multiple <==> |fam.lists[list]| >= 2
  {
    fam.EndsOf(list);
    multiple := list.next != list.prev;
  }

  method PeekHead(list: DNode, ghost fam: Family) returns (node: DNode?)
    requires fam.Valid() && list in fam.lists
    ensures node == if fam.lists[list] == [] then null else fam.lists[list][0]
  {
    fam.EndsOf(list);
    node := if list.next == list then null else list.next;
  }

  method PeekTail(list: DNode, ghost fam: Family) returns (node: DNode?)
    requires fam.Valid() && list in fam.lists
    ensures node == if fam.lists[list] == [] then null else fam.lists[list][|fam.lists[list]| - 1]
  {
    fam.EndsOf(list);
    node := if list.next == list then null else list.prev;
  }

  method PeekNext(list: DNode, node: DNode?, ghost k: nat, ghost fam: Family) returns (next: DNode?)
    requires fam.Valid() && list in fam.lists
    requires node != null ==> k < |fam.lists[list]| && node == fam.lists[list][k]
    ensures next == if node != null && k + 1 < |fam.lists[list]| then fam.lists[list][k + 1] else null
  {
    if node == null {
      return null;
    }
    fam.EndsOf(list);
    fam.StepFrom(list, k);
    next := if node == list.prev then null else node.next;
  }

  method PeekPrev(list: DNode, node: DNode?, ghost k: nat, ghost fam: Family) returns (prev: DNode?)
    requires fam.Valid() && list in fam.lists
    requires node != null ==> k < |fam.lists[list]| && node == fam.lists[list][k]
    ensures prev == if node != null && k > 0 then fam.lists[list][k - 1] else null
  {
    if node == null {
      return null;
    }
    fam.EndsOf(list);
    fam.StepFrom(list, k);
    prev := if node == list.next then null else node.prev;
  }

  /** `sys_dlist_get`. */
  method Get(list: DNode, ghost fam: Family) returns (node: DNode?)
    requires fam.Valid() && list in fam.lists
    modifies fam, list, fam.lists[list]
    ensures fam.Valid() && fam.known == old(fam.known)
    ensures var s := old(fam.lists[list]);
            if s == [] then
              node == null && fam.lists == old(fam.lists)
            else
              node == s[0] && node.next == null && fam.lists == old(fam.lists)[list := s[1..]]
  {
    fam.EndsOf(list);
    node := null;
    var empty := IsEmpty(list, fam);
    if !empty {
      node := list.next;
      fam.StepFrom(list, 0);
      assert RemovedAt(fam.lists[list], 0) == fam.lists[list][1..];
      Remove(node, list, 0, fam);
    }
  }

  // ----- ordered insertion ---------------------------------------------------------------------------------------

  /** `sys_dlist_insert_at`: before the first node the condition accepts, else at the end. */
  method InsertAt(list: DNode, node: DNode, cond: DNode -> bool, ghost fam: Family)
    requires fam.Valid() && list in fam.lists && node !in fam.owner
    modifies fam, node, list, fam.lists[list]
    ensures fam.Valid() && fam.known == old(fam.known) + {node}
    ensures var s := old(fam.lists[list]);
            fam.lists == old(fam.lists)[list := InsertedAt(s, FirstAccepted(s, cond), node)]
  {
    hide Partitioned; hide NoDuplicates; hide Linked; hide InsertedAt; hide FirstAccepted;
    ghost var s := fam.lists[list];
    fam.EndsOf(list);
    FirstAcceptedIs<DNode>([], cond, 0);
    var empty := IsEmpty(list, fam);
    InsertedAtEnds(s, node);
    if empty {
      Append(list, node, fam);
    } else {
      var pos := PeekHead(list, fam);
      ghost var k := 0;
      while pos != null && !cond(pos)
        invariant k <= |s| && pos == if k < |s| then s[k] else null
        invariant forall i :: 0 <= i < k ==> !cond(s[i])
        modifies {}
        decreases |s| - k
      {
        pos := PeekNext(list, pos, k, fam);
        k := k + 1;
      }
      FirstAcceptedIs(s, cond, k);
      if pos != null {
        fam.StepFrom(list, k);
        Insert(pos, node, list, k, fam);
      } else {
        Append(list, node, fam);
      }
    }
  }
}
