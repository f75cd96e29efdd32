/** Facts about sequences shared by the list models. */
module Sequences {

  ghost predicate NoDuplicates<T>(s: seq<T>) {
    forall i, j :: 0 <= i < j < |s| ==> s[i] != s[j]
  }

  lemma NoDuplicatesConcat<T>(s: seq<T>, t: seq<T>)
    requires NoDuplicates(s) && NoDuplicates(t) && forall x :: x in t ==> x !in s
    ensures NoDuplicates(s + t)
  {
    forall i, j | 0 <= i < j < |s + t| ensures (s + t)[i] != (s + t)[j] {
      if i < |s| <= j {
        assert s[i] in s && t[j - |s|] in t;
      }
    }
  }

  function InsertedAt<T>(s: seq<T>, k: int, x: T): seq<T>
    requires 0 <= k <= |s|
  {
    s[..k] + [x] + s[k..]
  }

  function RemovedAt<T>(s: seq<T>, k: int): seq<T>
    requires 0 <= k < |s|
  {
    s[..k] + s[k + 1..]
  }

  lemma InsertedAtEnds<T>(s: seq<T>, x: T)
    ensures InsertedAt(s, |s|, x) == s + [x] && InsertedAt(s, 0, x) == [x] + s
  {
  }

  lemma InsertedMembers<T>(s: seq<T>, k: nat, x: T)
    requires k <= |s| && NoDuplicates(s) && x !in s
    ensures NoDuplicates(InsertedAt(s, k, x))
    ensures forall y :: y in InsertedAt(s, k, x) <==> y in s || y == x
  {
    var t := InsertedAt(s, k, x);
    forall y | y in s ensures y in t {
      var i :| 0 <= i < |s| && s[i] == y;
      assert t[if i < k then i else i + 1] == y;
    }
    assert t[k] == x;
    forall i, j | 0 <= i < j < |t| ensures t[i] != t[j] {
      assert i != k ==> t[i] == s[if i < k then i else i - 1] && t[i] in s;
      assert j != k ==> t[j] == s[if j < k then j else j - 1] && t[j] in s;
    }
  }

  lemma RemovedMembers<T>(s: seq<T>, k: nat)
    requires k < |s| && NoDuplicates(s)
    ensures NoDuplicates(RemovedAt(s, k))
    ensures forall y :: y in RemovedAt(s, k) <==> y in s && y != s[k]
  {
    var t := RemovedAt(s, k);
    forall y | y in s && y != s[k] ensures y in t {
      var i :| 0 <= i < |s| && s[i] == y;
      assert t[if i < k then i else i - 1] == y;
    }
    forall y | y in t ensures y in s && y != s[k] {
      var i :| 0 <= i < |t| && t[i] == y;
      assert s[if i < k then i else i + 1] == y;
    }
  }

  /** The sequence less the first occurrence of `x`. */
  function Without<T(==)>(s: seq<T>, x: T): (r: seq<T>)
    ensures x !in s ==> r == s
    ensures forall y :: y in r ==> y in s
  {
    if s == [] then [] else if s[0] == x then s[1..] else [s[0]] + Without(s[1..], x)
  }

  lemma {:induction false} WithoutAt<T>(s: seq<T>, i: nat)
    requires i < |s| && NoDuplicates(s)
    ensures Without(s, s[i]) == RemovedAt(s, i)
  {
    if i > 0 {
      WithoutAt(s[1..], i - 1);
      assert [s[0]] + RemovedAt(s[1..], i - 1) == RemovedAt(s, i);
    }
  }

  lemma {:induction false} WithoutRemovesOne<T>(s: seq<T>, x: T)
    requires NoDuplicates(s)
    ensures NoDuplicates(Without(s, x))
    ensures forall y :: y in Without(s, x) <==> y in s && y != x
  {
    if s != [] && s[0] != x {
      WithoutRemovesOne(s[1..], x);
      assert s == [s[0]] + s[1..];
      NoDuplicatesConcat([s[0]], Without(s[1..], x));
    }
  }

  /** The position of the first element the condition accepts, or the end. */
  function FirstAccepted<T>(s: seq<T>, cond: T -> bool): (k: nat)
    ensures k <= |s|
    ensures forall i :: 0 <= i < k ==> !cond(s[i])
    ensures k < |s| ==> cond(s[k])
  {
    if s == [] || cond(s[0]) then 0 else 1 + FirstAccepted(s[1..], cond)
  }

  lemma FirstAcceptedIs<T>(s: seq<T>, cond: T -> bool, k: nat)
    requires k <= |s| && (forall i :: 0 <= i < k ==> !cond(s[i])) && (k < |s| ==> cond(s[k]))
    ensures k == FirstAccepted(s, cond)
  {
  }
}
