/**
  Sequence operations on one bucket of the spatial grid: a list of agent ids
  in insertion order. These are the `std::vector` algorithms the grid uses
  (`std::find`, single-element `erase`, `std::remove`).
 */
module Buckets {

  /** One grid bucket: agent ids, in the order they were appended. */
  type Bucket = seq<nat>

  /** Position of the first occurrence of `v` in `b`, or `|b|` when absent (`std::find`). */
  function Find(b: Bucket, v: nat): (k: nat)
    ensures k <= |b|
    ensures k < |b| ==> b[k] == v
    ensures forall j :: 0 <= j < k ==> b[j] != v
    ensures k == |b| <==> v !in b
    decreases |b|
  {
    if |b| == 0 then 0
    else if b[0] == v then 0
    else 1 + Find(b[1..], v)
  }

  /** The bucket with the element at position `k` erased (single-iterator `erase`). */
  function EraseAt(b: Bucket, k: nat): (r: Bucket)
    requires k < |b|
    ensures |r| == |b| - 1
    ensures forall j :: 0 <= j < k ==> r[j] == b[j]
    ensures forall j :: k <= j < |r| ==> r[j] == b[j + 1]
  {
    b[..k] + b[k + 1..]
  }

  /** Erasing one position removes exactly that one element from the bucket's contents. */
  lemma EraseAtMultiset(b: Bucket, k: nat)
    requires k < |b|
    ensures multiset(EraseAt(b, k)) == multiset(b) - multiset{b[k]}
  {
    assert b == b[..k] + [b[k]] + b[k + 1..];
  }

  /**
    The ids of `b` other than `v`, in their original order: the prefix that
    `std::remove` compacts to the front.
   */
  function Kept(b: Bucket, v: nat): (r: Bucket)
    ensures v !in r
    ensures |r| <= |b|
    decreases |b|
  {
    if |b| == 0 then []
    else if b[0] == v then Kept(b[1..], v)
    else [b[0]] + Kept(b[1..], v)
  }

  /** `Kept` drops every copy of `v` and keeps every other id with its multiplicity. */
  lemma {:induction false} KeptCounts(b: Bucket, v: nat)
    ensures |Kept(b, v)| == |b| - multiset(b)[v]
    ensures forall x :: x != v ==> multiset(Kept(b, v))[x] == multiset(b)[x]
    decreases |b|
  {
    if |b| > 0 {
      var t: Bucket := b[1..];
      assert b == [b[0]] + t;
      assert multiset(b) == multiset{b[0]} + multiset(t);
      KeptCounts(t, v);
    }
  }

  /** Erasing the first occurrence of `v` lowers its count by exactly one. */
  lemma EraseFirstCount(b: Bucket, v: nat)
    requires v in b
    ensures multiset(EraseAt(b, Find(b, v)))[v] == multiset(b)[v] - 1
    ensures forall x :: x != v ==> multiset(EraseAt(b, Find(b, v)))[x] == multiset(b)[x]
  {
    EraseAtMultiset(b, Find(b, v));
  }

  /** An id present once is absent after its first occurrence is erased. */
  lemma EraseOnlyOccurrence(b: Bucket, v: nat)
    requires multiset(b)[v] == 1
    ensures v !in EraseAt(b, Find(b, v))
  {
    EraseFirstCount(b, v);
  }

  /** When `v` occurs at most once, erasing all copies equals erasing the first one. */
  lemma {:induction false} KeptSingle(b: Bucket, v: nat)
    requires multiset(b)[v] == 1
    ensures Kept(b, v) == EraseAt(b, Find(b, v))
    decreases |b|
  {
    var t: Bucket := b[1..];
    assert b == [b[0]] + t;
    assert multiset(b) == multiset{b[0]} + multiset(t);
    if b[0] == v {
      KeptAbsent(t, v);
      assert EraseAt(b, 0) == t;
    } else {
      KeptSingle(t, v);
      EraseAtTail(b, Find(t, v));
    }
  }

  /** Erasing past the head commutes with taking the head off. */
  lemma EraseAtTail(b: Bucket, k: nat)
    requires k + 1 < |b|
    ensures EraseAt(b, k + 1) == [b[0]] + EraseAt(b[1..], k)
  {
    assert b[..k + 1] == [b[0]] + b[1..][..k];
    assert b[k + 2..] == b[1..][k + 1..];
  }

  /** Keeping everything but an absent id changes nothing. */
  lemma {:induction false} KeptAbsent(b: Bucket, v: nat)
    requires v !in b
    ensures Kept(b, v) == b
    decreases |b|
  {
    if |b| > 0 {
      assert b == [b[0]] + b[1..];
      KeptAbsent(b[1..], v);
    }
  }

  /**
    The bucket after `std::remove` followed by a single-iterator `erase`, as
    the grid's remove is written: when `v` is present, the ids other than `v`
    are compacted to the front, the vector keeps its length, and then only the
    one element at the new logical end is erased. The trailing elements keep
    the values they held before the call, as the GNU implementation of
    `std::remove` leaves them (the C++ standard leaves them unspecified).
   */
  function RemoveThenEraseOne(b: Bucket, v: nat): (r: Bucket)
    ensures v !in b ==> r == b
    ensures v in b ==> |r| == |b| - 1
  {
    if v !in b then b
    else
      KeptCounts(b, v);
      assert v in multiset(b);
      var front := Kept(b, v);
      front + b[|front| + 1..]
  }

  /** With a single copy of `v`, the as-written removal erases exactly that copy. */
  lemma RemoveThenEraseOneSingle(b: Bucket, v: nat)
    requires multiset(b)[v] == 1
    ensures RemoveThenEraseOne(b, v) == Kept(b, v)
  {
    assert v in b;
    KeptCounts(b, v);
  }

  /** Two copies of the id ahead of another id: the id vanishes and its neighbour is duplicated. */
  lemma RemoveThenEraseOneDuplicates()
    ensures RemoveThenEraseOne([7, 7, 3], 7) == [3, 3]
  {
    var b: Bucket := [7, 7, 3];
    assert Kept(b, 7) == [3] by {
      assert b[1..] == [7, 3];
      assert b[1..][1..] == [3];
      assert b[1..][1..][1..] == [];
    }
    assert b[2..] == [3];
  }

  /** Two copies of the id around another id: one copy survives the removal. */
  lemma RemoveThenEraseOneSurvivor()
    ensures 7 in RemoveThenEraseOne([7, 3, 7], 7)
  {
    var b: Bucket := [7, 3, 7];
    assert Kept(b, 7) == [3] by {
      assert b[1..] == [3, 7];
      assert b[1..][1..] == [7];
      assert b[1..][1..][1..] == [];
    }
    assert b[2..] == [7];
  }
}
