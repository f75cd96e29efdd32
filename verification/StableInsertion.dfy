/** What ordered insertion with `sys_dlist_insert_at` builds: with the condition "this node's key is greater than mine" every
    sequence of insertions yields the stable sort of the arrivals. */
module StableInsertion {
  import opened DList
  import opened Sequences

  /** The sequence `DList.InsertAt` leaves for that condition. */
  function OrderedInsert<T>(s: seq<T>, x: T, key: T -> int): seq<T> {
    InsertedAt(s, FirstAccepted(s, y => key(y) > key(x)), x)
  }

  function InsertAll<T>(arrivals: seq<T>, key: T -> int): seq<T> {
    if arrivals == [] then [] else OrderedInsert(InsertAll(arrivals[..|arrivals| - 1], key), arrivals[|arrivals| - 1], key)
  }

  ghost predicate Sorted<T>(s: seq<T>, key: T -> int) {
    forall i, j :: 0 <= i < j < |s| ==> key(s[i]) <= key(s[j])
  }

  function WithKey<T>(s: seq<T>, key: T -> int, k: int): seq<T> {
    if s == [] then [] else (if key(s[0]) == k then [s[0]] else []) + WithKey(s[1..], key, k)
  }

  /** Sorted by key, and for each key exactly the same elements in the same order. */
  ghost predicate StableSortOf<T>(sorted: seq<T>, s: seq<T>, key: T -> int) {
    Sorted(sorted, key) && forall k :: WithKey(sorted, key, k) == WithKey(s, key, k)
  }

  lemma {:induction false} WithKeyConcat<T>(s: seq<T>, t: seq<T>, key: T -> int, k: int)
    ensures WithKey(s + t, key, k) == WithKey(s, key, k) + WithKey(t, key, k)
  {
    if s == [] {
      assert s + t == t;
    } else {
      var here := if key(s[0]) == k then [s[0]] else [];
      WithKeyConcat(s[1..], t, key, k);
      assert (s + t)[1..] == s[1..] + t;
      assert (here + WithKey(s[1..], key, k)) + WithKey(t, key, k) == here + (WithKey(s[1..], key, k) + WithKey(t, key, k));
    }
  }

  lemma {:induction false} NoneWithKey<T>(s: seq<T>, key: T -> int, k: int)
    requires forall x :: x in s ==> key(x) != k
    ensures WithKey(s, key, k) == []
  {
    if s != [] {
      NoneWithKey(s[1..], key, k);
    }
  }

  lemma OrderedInsertSorted<T>(s: seq<T>, x: T, key: T -> int)
    requires Sorted(s, key)
    ensures Sorted(OrderedInsert(s, x, key), key)
  {
    var p, t := FirstAccepted(s, y => key(y) > key(x)), OrderedInsert(s, x, key);
    forall i, j | 0 <= i < j < |t| ensures key(t[i]) <= key(t[j]) {
      assert t[i] == if i < p then s[i] else if i == p then x else s[i - 1];
      assert t[j] == if j < p then s[j] else if j == p then x else s[j - 1];
    }
  }

  /** The new element goes behind every element with its key and disturbs no other key. */
  lemma OrderedInsertStable<T>(s: seq<T>, x: T, key: T -> int, k: int)
    requires Sorted(s, key)
    ensures WithKey(OrderedInsert(s, x, key), key, k) == WithKey(s + [x], key, k)
  {
    hide WithKey; hide FirstAccepted;
    var p := FirstAccepted(s, y => key(y) > key(x));
    var l, r := s[..p], s[p..];
    assert s == l + r && OrderedInsert(s, x, key) == (l + [x]) + r;
    WithKeyConcat(l + [x], r, key, k);
    WithKeyConcat(l, [x], key, k);
    WithKeyConcat(l, r, key, k);
    WithKeyConcat(s, [x], key, k);
    if k == key(x) {
      GreaterBehind(s, x, key);
      NoneWithKey(r, key, k);
    } else {
      NoneWithKey([x], key, k);
    }
    SwapEmpty(WithKey(l, key, k), WithKey([x], key, k), WithKey(r, key, k));
  }

  lemma GreaterBehind<T>(s: seq<T>, x: T, key: T -> int)
    requires Sorted(s, key)
    ensures forall y :: y in s[FirstAccepted(s, y => key(y) > key(x))..] ==> key(y) > key(x)
  {
    var p := FirstAccepted(s, y => key(y) > key(x));
    forall i | p <= i < |s| ensures key(s[i]) > key(x) {
      assert key(s[p]) <= key(s[i]);
    }
  }

  lemma SwapEmpty<T>(a: seq<T>, b: seq<T>, c: seq<T>)
    requires b == [] || c == []
    ensures (a + b) + c == (a + c) + b
  {
  }

  lemma {:induction false} InsertAllIsStableSort<T>(arrivals: seq<T>, key: T -> int)
    ensures StableSortOf(InsertAll(arrivals, key), arrivals, key)
  {
    if arrivals != [] {
      var earlier, last := arrivals[..|arrivals| - 1], arrivals[|arrivals| - 1];
      InsertAllIsStableSort(earlier, key);
      var before := InsertAll(earlier, key);
      OrderedInsertSorted(before, last, key);
      forall k ensures WithKey(InsertAll(arrivals, key), key, k) == WithKey(arrivals, key, k) {
        OrderedInsertStable(before, last, key, k);
        WithKeyConcat(before, [last], key, k);
        WithKeyConcat(earlier, [last], key, k);
        assert earlier + [last] == arrivals;
      }
    }
  }

  /** There is only one stable sort, so the description above determines the list. */
  lemma {:induction false} StableSortUnique<T>(a: seq<T>, b: seq<T>, key: T -> int)
    requires Sorted(a, key) && StableSortOf(b, a, key)
    ensures a == b
  {
    assert b != [] ==> WithKey(b, key, key(b[0])) == WithKey(a, key, key(b[0]));
    if a != [] {
      SameFirst(a, b, key);
      forall k ensures WithKey(b[1..], key, k) == WithKey(a[1..], key, k) {
        assert WithKey(b, key, k) == WithKey(a, key, k);
        assert WithKey(a[1..], key, k) == if key(a[0]) == k then WithKey(a, key, k)[1..] else WithKey(a, key, k);
        assert WithKey(b[1..], key, k) == if key(b[0]) == k then WithKey(b, key, k)[1..] else WithKey(b, key, k);
      }
      StableSortUnique(a[1..], b[1..], key);
    }
  }

  lemma {:induction false} SomeWithKey<T>(s: seq<T>, key: T -> int, k: int)
    requires WithKey(s, key, k) != []
    ensures exists i :: 0 <= i < |s| && key(s[i]) == k
  {
    if key(s[0]) != k {
      SomeWithKey(s[1..], key, k);
      var i :| 0 <= i < |s[1..]| && key(s[1..][i]) == k;
      assert key(s[i + 1]) == k;
    }
  }

  lemma SameFirst<T>(a: seq<T>, b: seq<T>, key: T -> int)
    requires a != [] && Sorted(a, key) && StableSortOf(b, a, key)
    ensures b != [] && a[0] == b[0]
  {
    assert WithKey(b, key, key(a[0])) == WithKey(a, key, key(a[0]));
    SomeWithKey(b, key, key(a[0]));
    assert WithKey(b, key, key(b[0])) == WithKey(a, key, key(b[0]));
    SomeWithKey(a, key, key(b[0]));
    assert key(a[0]) == key(b[0]);
    assert WithKey(a, key, key(a[0]))[0] == a[0];
    assert WithKey(b, key, key(b[0]))[0] == b[0];
  }

  /** Any condition that means "key greater than mine" makes `DList.InsertAt` an ordered insertion. */
  lemma OrderedInsertIs<T>(s: seq<T>, x: T, key: T -> int, cond: T -> bool)
    requires forall y :: cond(y) <==> key(y) > key(x)
    ensures InsertedAt(s, FirstAccepted(s, cond), x) == OrderedInsert(s, x, key)
    ensures Sorted(s, key) ==> Sorted(OrderedInsert(s, x, key), key)
  {
    FirstAcceptedIs(s, cond, FirstAccepted(s, y => key(y) > key(x)));
    if Sorted(s, key) { OrderedInsertSorted(s, x, key); }
  }

  /** Inserting by key into a list of the family is one step of `InsertAll` on its sequence. */
  method InsertByKey(list: DNode, node: DNode, key: DNode -> int, ghost fam: Family)
    requires fam.Valid() && list in fam.lists && node !in fam.owner
    modifies fam, node, list, fam.lists[list]
    ensures fam.Valid() && fam.known == old(fam.known) + {node}
    ensures fam.lists == old(fam.lists)[list := OrderedInsert(old(fam.lists[list]), node, key)]
    ensures Sorted(old(fam.lists[list]), key) ==> Sorted(fam.lists[list], key)
  {
    hide *;
    var cond := (other: DNode) => key(other) > key(node);
    OrderedInsertIs(fam.lists[list], node, key, cond);
    InsertAt(list, node, cond, fam);
  }

  lemma {:induction false} InsertAllMembers<T>(arrivals: seq<T>, key: T -> int)
    ensures forall x :: x in InsertAll(arrivals, key) ==> x in arrivals
  {
    if arrivals != [] {
      var earlier, last := arrivals[..|arrivals| - 1], arrivals[|arrivals| - 1];
      InsertAllMembers(earlier, key);
      var before := InsertAll(earlier, key);
      var p := FirstAccepted(before, y => key(y) > key(last));
      forall x | x in InsertAll(arrivals, key) ensures x in arrivals {
        assert x in before[..p] + [last] + before[p..];
        if x in before { assert x in earlier; } else { assert x == last; }
      }
    }
  }

  /** A node that is neither a head nor in a list is not owned. */
  lemma NotOwned(fam: Family, n: DNode)
    requires fam.Valid() && n !in fam.lists && forall h :: h in fam.lists ==> n !in fam.lists[h]
    ensures n !in fam.owner
  {
  }

  lemma OwnedMembers(fam: Family, n: DNode)
    requires fam.Valid() && n !in fam.owner
    ensures n !in fam.lists && forall h :: h in fam.lists ==> n !in fam.lists[h]
  {
  }

  /** Inserting unlinked nodes one after the other into an empty list of the family leaves their stable sort in it, and every
      other list as it was. */
  method InsertAllByKey(list: DNode, nodes: seq<DNode>, key: DNode -> int, ghost fam: Family)
    requires fam.Valid() && list in fam.lists && fam.lists[list] == []
    requires NoDuplicates(nodes) && forall n :: n in nodes ==> n !in fam.owner
    modifies fam, list, set n | n in nodes
    ensures fam.Valid() && fam.lists == old(fam.lists)[list := InsertAll(nodes, key)]
    ensures StableSortOf(fam.lists[list], nodes, key)
  {
    hide Partitioned, Linked, StableSortOf, OrderedInsert, Sorted;
    var i := 0;
    assert nodes[..0] == [];
    assert fam.lists == fam.lists[list := []];
    forall n | n in nodes ensures n !in fam.lists && forall h :: h in fam.lists ==> n !in fam.lists[h] { OwnedMembers(fam, n); }
    while i < |nodes|
      invariant 0 <= i <= |nodes| && fam.Valid()
      invariant fam.lists == old(fam.lists)[list := InsertAll(nodes[..i], key)]
      modifies fam, list, set n | n in nodes
    {
      InsertAllMembers(nodes[..i], key);
      assert nodes[i] !in nodes[..i];
      assert forall x :: x in fam.lists[list] ==> x in nodes;
      assert nodes[i] in nodes;
      NotOwned(fam, nodes[i]);
      assert nodes[..i + 1][..i] == nodes[..i];
      InsertByKey(list, nodes[i], key, fam);
      i := i + 1;
    }
    assert nodes[..|nodes|] == nodes;
    InsertAllIsStableSort(nodes, key);
  }
}
