/** Small facts about finite sets. */
module Sets {

  lemma Pick<T>(s: set<T>) returns (x: T)
    requires s != {}
    ensures x in s
  {
    x :| x in s;
  }

  lemma {:induction false} SubsetSize<T>(a: set<T>, b: set<T>)
    requires a <= b
    ensures |a| <= |b|
    decreases a
  {
    if a != {} {
      var x :| x in a;
      SubsetSize(a - {x}, b - {x});
    }
  }

  ghost predicate Distinct<T>(s: seq<T>) { forall i, j :: 0 <= i < j < |s| ==> s[i] != s[j] }

  /** Every element, each once. */
  ghost predicate Lists<T(!new)>(s: seq<T>, keys: set<T>) { Distinct(s) && forall k :: k in s <==> k in keys }

  /** Some order of a set: the order in which the keys of a map may come up. */
  method AnyOrder<K(==,!new)>(keys: set<K>) returns (order: seq<K>)
    ensures Lists(order, keys)
  {
    order := [];
    var left := keys;
    while left != {}
      invariant left <= keys && Lists(order, keys - left)
      decreases left
    {
      ghost var some := Pick(left);
      var k :| k in left;
      ListsOneMore(order, keys - left, k);
      assert keys - (left - {k}) == keys - left + {k};
      order := order + [k];
      left := left - {k};
    }
    assert keys - left == keys;
  }

  lemma ListsOneMore<T(!new)>(s: seq<T>, keys: set<T>, k: T)
    requires Lists(s, keys) && k !in keys
    ensures Lists(s + [k], keys + {k})
  {
    var r := s + [k];
    forall i, j | 0 <= i < j < |r| ensures r[i] != r[j] {
      assert s == r[..|s|];
      assert forall a :: 0 <= a < |s| ==> s[a] in s;
    }
  }

  function Elements<T>(s: seq<T>): set<T> { set x | x in s }

  lemma {:induction false} DistinctSize<T>(s: seq<T>)
    requires Distinct(s)
    ensures |Elements(s)| == |s|
  {
    if s != [] {
      var n := |s| - 1;
      DistinctSize(s[..n]);
      assert Elements(s) == Elements(s[..n]) + {s[n]};
    }
  }

  /** One step of a loop over a listing.. */
  lemma Visit<T(!new)>(s: seq<T>, keys: set<T>, i: nat)
    requires Lists(s, keys) && i < |s|
    ensures s[i] in keys && s[i] !in Elements(s[..i])
    ensures Elements(s[..i + 1]) == Elements(s[..i]) + {s[i]}
  {
    assert s[i] in s;
    assert s[..i + 1] == s[..i] + [s[i]];
  }

  /** .. and where it begins and ends. */
  lemma Visited<T(!new)>(s: seq<T>, keys: set<T>)
    requires Lists(s, keys)
    ensures Elements(s[..0]) == {} && Elements(s[..|s|]) == keys
  {
    assert s[..|s|] == s;
  }

  lemma MinusOneMore<T>(a: set<T>, b: set<T>, x: T)
    requires x !in a
    ensures |(a + {x}) - b| == |a - b| + if x in b then 0 else 1
  {
    assert (a + {x}) - b == if x in b then a - b else (a - b) + {x};
  }

  lemma TimesOneMore<T>(a: set<T>, b: set<T>, x: T)
    requires x !in a
    ensures |(a + {x}) * b| == |a * b| + if x in b then 1 else 0
  {
    assert (a + {x}) * b == if x in b then a * b + {x} else a * b;
  }
}
