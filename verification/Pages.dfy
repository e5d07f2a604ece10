/** The oldest rows of a table first, up to a limit: what an outbox sends in one request. */
module Pages {
  import opened Sets
  import opened Store

  /** Keys in time order, none later than a key left behind. */
  ghost predicate OldestPage(all: set<Key>, page: seq<Key>) {
    && Distinct(page)
    && (forall k :: k in page ==> k in all)
    && (forall i, j :: 0 <= i < j < |page| ==> page[i].ts <= page[j].ts)
    && OlderThan(page, all - Elements(page))
  }

  ghost predicate OlderThan(done: seq<Key>, left: set<Key>) {
    forall a, k :: a in done && k in left ==> a.ts <= k.ts
  }

  function SizeOf(all: set<Key>, limit: nat): nat { if |all| < limit then |all| else limit }

  method OldestKey(keys: set<Key>) returns (oldest: Key)
    requires keys != {}
    ensures oldest in keys && forall k :: k in keys ==> oldest.ts <= k.ts
  {
    oldest :| oldest in keys;
    var todo := keys;
    while todo != {}
      invariant todo <= keys && oldest in keys
      invariant forall k :: k in keys && k !in todo ==> oldest.ts <= k.ts
    {
      var k :| k in todo;
      todo := todo - {k};
      if k.ts < oldest.ts {
        oldest := k;
      }
    }
  }

  /** ORDER BY ts LIMIT ? */
  method TakePage(all: set<Key>, limit: nat) returns (page: seq<Key>)
    ensures OldestPage(all, page) && |page| == SizeOf(all, limit)
  {
    hide OldestPage, Elements;
    page := [];
    var left := all;
    EmptyPage(all);
    while |page| < limit && left != {}
      invariant OldestPage(all, page) && left == all - Elements(page)
      invariant |page| + |left| == |all| && |page| <= limit
      decreases left
    {
      var k := OldestKey(left);
      PageGrows(all, page, k);
      page := page + [k];
      left := left - {k};
    }
  }

  lemma EmptyPage(all: set<Key>)
    ensures OldestPage(all, []) && all - Elements<Key>([]) == all
  {
  }

  lemma PageGrows(all: set<Key>, page: seq<Key>, k: Key)
    requires OldestPage(all, page) && k in all - Elements(page)
    requires forall other :: other in all - Elements(page) ==> k.ts <= other.ts
    ensures OldestPage(all, page + [k])
    ensures all - Elements(page + [k]) == all - Elements(page) - {k}
  {
    var more := page + [k];
    assert Elements(more) == Elements(page) + {k};
    forall i, j | 0 <= i < j < |more| ensures more[i].ts <= more[j].ts && more[i] != more[j] {
      assert page[i] in page;
    }
  }

  lemma PageSize(all: set<Key>, page: seq<Key>)
    requires OldestPage(all, page)
    ensures |all - Elements(page)| == |all| - |page|
  {
    DistinctSize(page);
    assert Elements(page) <= all;
  }

  /** Page after page, what was taken is at least as old as what is left. */
  lemma StillOlder(done: seq<Key>, all: set<Key>, page: seq<Key>)
    requires OlderThan(done, all) && OldestPage(all, page)
    ensures OlderThan(done + page, all - Elements(page))
  {
  }
}
