/** Sorted sequences of integers, and how many of their values lie at or below a bound.
    `Sorted` stands for what the standard library's `slices.Sort` leaves in a slice. */
module Sorting {

  ghost predicate IsSorted(s: seq<int>) {
    forall i, j :: 0 <= i < j < |s| ==> s[i] <= s[j]
  }

  function Insert(s: seq<int>, v: int): (r: seq<int>)
    requires IsSorted(s)
    ensures IsSorted(r) && |r| == |s| + 1
    ensures r[|s|] == if s == [] || s[|s| - 1] <= v then v else s[|s| - 1]
  {
    if s == [] then [v]
    else if s[|s| - 1] <= v then s + [v]
    else Insert(s[..|s| - 1], v) + [s[|s| - 1]]
  }

  function Sorted(s: seq<int>): (r: seq<int>)
    ensures IsSorted(r) && |r| == |s|
  {
    if s == [] then [] else Insert(Sorted(s[..|s| - 1]), s[|s| - 1])
  }

  lemma {:induction false} InsertPermutes(s: seq<int>, v: int)
    requires IsSorted(s)
    ensures multiset(Insert(s, v)) == multiset(s) + multiset{v}
  {
    if s != [] {
      assert s == s[..|s| - 1] + [s[|s| - 1]];
      InsertPermutes(s[..|s| - 1], v);
    }
  }

  lemma {:induction false} SortedPermutes(s: seq<int>)
    ensures multiset(Sorted(s)) == multiset(s)
  {
    if s != [] {
      assert s == s[..|s| - 1] + [s[|s| - 1]];
      SortedPermutes(s[..|s| - 1]);
      InsertPermutes(Sorted(s[..|s| - 1]), s[|s| - 1]);
    }
  }

  /** How many values of `s` are at most `v`. */
  function Count(s: seq<int>, v: int): (c: nat)
    ensures c <= |s|
  {
    if s == [] then 0 else Count(s[..|s| - 1], v) + if s[|s| - 1] <= v then 1 else 0
  }

  lemma {:induction false} CountOfInsert(s: seq<int>, x: int, v: int)
    requires IsSorted(s)
    ensures Count(Insert(s, x), v) == Count(s, v) + if x <= v then 1 else 0
  {
    if s == [] {
      assert [x][..0] == [];
    } else {
      var last := |s| - 1;
      var r := Insert(s, x);
      if s[last] <= x {
        assert r[..|s|] == s;
      } else {
        CountOfInsert(s[..last], x, v);
        assert r[..|s|] == Insert(s[..last], x);
      }
    }
  }

  lemma {:induction false} CountOfSorted(s: seq<int>, v: int)
    ensures Count(Sorted(s), v) == Count(s, v)
  {
    if s != [] {
      CountOfSorted(s[..|s| - 1], v);
      CountOfInsert(Sorted(s[..|s| - 1]), s[|s| - 1], v);
    }
  }

  /** In a sorted sequence the values at most `v` are exactly the first `Count(s, v)`. */
  lemma {:induction false} CountSplits(s: seq<int>, v: int)
    requires IsSorted(s)
    ensures forall i :: 0 <= i < |s| ==> (s[i] <= v <==> i < Count(s, v))
  {
    if s != [] {
      CountSplits(s[..|s| - 1], v);
    }
  }

  lemma {:induction false} CountIs(s: seq<int>, k: nat, v: int)
    requires k <= |s|
    requires forall i :: 0 <= i < k ==> s[i] <= v
    requires forall i :: k <= i < |s| ==> v < s[i]
    ensures Count(s, v) == k
  {
    if s != [] {
      CountIs(s[..|s| - 1], if k == |s| then k - 1 else k, v);
    }
  }

  lemma SortedKeepsMembers(s: seq<int>)
    ensures forall i :: 0 <= i < |s| ==> Sorted(s)[i] in s
  {
    SortedPermutes(s);
    forall i | 0 <= i < |s| ensures Sorted(s)[i] in s {
      assert Sorted(s)[i] in multiset(Sorted(s));
    }
  }
}
