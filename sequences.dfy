/** The semantics of System.Collections.Generic.List<T> operations, stated on
    the sequence of items the list holds. */
module Sequences {

  /** List<T>.IndexOf: the index of the first occurrence of x, or -1. */
  function FirstIndex<T(==)>(s: seq<T>, x: T): (r: int)
    ensures -1 <= r < |s|
    ensures r == -1 <==> x !in s
    ensures 0 <= r ==> s[r] == x && forall j :: 0 <= j < r ==> s[j] != x
  {
    if s == [] then -1
    else if s[0] == x then 0
    else
      var k := FirstIndex(s[1..], x);
      if k == -1 then -1
      else
        assert s[..k + 1] == [s[0]] + s[1..][..k];
        k + 1
  }

  /** List<T>.Insert(i, x): x lands at index i, the elements from i on move one to the right. */
  /** Nothing before the first occurrence of x is x. */
  lemma BeforeFirst<T>(s: seq<T>, x: T)
    requires x in s
    ensures x !in s[..FirstIndex(s, x)]
  {
    var k := FirstIndex(s, x);
    forall j | 0 <= j < k ensures s[..k][j] != x {
      assert s[..k][j] == s[j];
    }
  }

  /** A sequence is the part before an index, the element there and the
      part after it. */
  lemma Around<T>(s: seq<T>, k: nat)
    requires k < |s|
    ensures s == s[..k] + [s[k]] + s[k + 1..]
  {
  }

  /** The multiset of a sequence, split around an index. */
  lemma MultisetAround<T>(s: seq<T>, k: nat)
    requires k < |s|
    ensures multiset(s) == multiset(s[..k]) + multiset{s[k]} + multiset(s[k + 1..])
  {
    Around(s, k);
  }

  /** Cutting out an element before the last one, then appending the last,
      is cutting it out of the whole. */
  lemma CutBeforeLast<T>(s: seq<T>, k: nat)
    requires k + 1 < |s|
    ensures var n := |s| - 1;
            s[..n][..k] + s[..n][k + 1..] + [s[n]] == s[..k] + s[k + 1..]
            && s[k + 1..] == s[..n][k + 1..] + [s[n]]
  {
    var n := |s| - 1;
    assert s[k + 1..] == s[..n][k + 1..] + [s[n]];
  }

  function InsertAt<T>(s: seq<T>, i: nat, x: T): (r: seq<T>)
    requires i <= |s|
    ensures |r| == |s| + 1 && r[i] == x
    ensures forall j :: 0 <= j < i ==> r[j] == s[j]
    ensures forall j :: i < j < |r| ==> r[j] == s[j - 1]
  {
    s[..i] + [x] + s[i..]
  }

  /** List<T>.RemoveAt(i): the element at i goes, the later ones move one to the left. */
  function DeleteAt<T>(s: seq<T>, i: nat): (r: seq<T>)
    requires i < |s|
    ensures |r| == |s| - 1
    ensures forall j :: 0 <= j < i ==> r[j] == s[j]
    ensures forall j :: i <= j < |r| ==> r[j] == s[j + 1]
    ensures multiset(r) == multiset(s) - multiset{s[i]}
  {
    assert s == s[..i] + [s[i]] + s[i + 1..];
    s[..i] + s[i + 1..]
  }

  /** List<T>.Remove(x): deletes the first occurrence of x, if there is one. */
  function RemoveFirst<T(==)>(s: seq<T>, x: T): (r: seq<T>)
    ensures x !in s ==> r == s
    ensures x in s ==> |r| == |s| - 1 && multiset(r) == multiset(s) - multiset{x}
    ensures x in s ==> var k := FirstIndex(s, x);
                       r[..k] == s[..k] && r[k..] == s[k + 1..]
  {
    var k := FirstIndex(s, x);
    if k == -1 then s else DeleteAt(s, k)
  }

  /** Inserting at i and then deleting at i gives back the original list. */
  lemma {:induction false} DeleteInsert<T>(s: seq<T>, i: nat, x: T)
    requires i <= |s|
    ensures DeleteAt(InsertAt(s, i, x), i) == s
  {
    var r := DeleteAt(InsertAt(s, i, x), i);
    assert |r| == |s|;
    forall j | 0 <= j < |s| ensures r[j] == s[j] {
    }
  }

  /** Deleting at i and putting the same element back at i gives back the original list. */
  lemma {:induction false} InsertDelete<T>(s: seq<T>, i: nat)
    requires i < |s|
    ensures InsertAt(DeleteAt(s, i), i, s[i]) == s
  {
    var r := InsertAt(DeleteAt(s, i), i, s[i]);
    assert |r| == |s|;
    forall j | 0 <= j < |s| ensures r[j] == s[j] {
    }
  }

  /** Removing an element that is present and re-inserting it where it was
      first found restores the list: Remove deletes exactly the first
      occurrence and keeps the order of the rest. */
  lemma {:induction false} RemoveFirstRestorable<T>(s: seq<T>, x: T)
    requires x in s
    ensures InsertAt(RemoveFirst(s, x), FirstIndex(s, x), x) == s
  {
    InsertDelete(s, FirstIndex(s, x));
  }
}
