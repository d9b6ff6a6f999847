/** UniFi pagination (`get_pages`, unifi.py) over a list that the controller does not change meanwhile. */
module UnifiPaging {
  import opened Numbers

  /** The controller's answer to `_start` and `_limit`. */
  function Page<T>(list: seq<T>, start: nat, limit: nat): seq<T> {
    if start >= |list| then [] else if start + limit >= |list| then list[start..] else list[start..start + limit]
  }

  /** Where page `n` starts. */
  function StartOf(n: nat, pageSize: nat): nat {
    if n == 0 then 0 else StartOf(n - 1, pageSize) + pageSize
  }

  /** However the list is cut into pages, the result is its beginning, as far as the two ceilings go. */
  method GetPages<T>(list: seq<T>, pageSize: nat, maxPages: nat, maxItems: nat) returns (items: seq<T>)
    requires pageSize >= 1 && maxPages >= 1 && maxItems >= 1
    ensures items == list[..Min(|list|, Min(maxItems, maxPages * pageSize))]
  {
    items := [];
    var page: nat, start: nat := 0, 0;
    var complete := false;
    while page < maxPages && !complete
      invariant page <= maxPages && start == StartOf(page, pageSize)
      invariant !complete ==> |items| == start < maxItems && start <= |list| && items == list[..start]
      invariant complete ==> items == list[..Min(|list|, Min(maxItems, StartOf(maxPages, pageSize)))]
      decreases maxPages - page, if complete then 0 else 1
    {
      var pageItems := Page(list, start, pageSize);
      var remaining := maxItems - |items|;
      var kept := if |pageItems| <= remaining then pageItems else pageItems[..remaining];
      StartsAscend(page + 1, maxPages, pageSize);
      assert items + kept == list[..|items| + |kept|];
      items := items + kept;
      complete := |items| >= maxItems || |pageItems| < pageSize;
      page, start := page + 1, start + pageSize;
    }
    StartIsProduct(maxPages, pageSize);
  }

  lemma {:induction false} StartsAscend(m: nat, n: nat, pageSize: nat)
    requires m <= n
    ensures StartOf(m, pageSize) <= StartOf(n, pageSize)
    decreases n
  {
    if m < n {
      StartsAscend(m, n - 1, pageSize);
    }
  }

  lemma {:induction false} StartIsProduct(n: nat, pageSize: nat)
    ensures StartOf(n, pageSize) == n * pageSize
  {
    if n > 0 {
      StartIsProduct(n - 1, pageSize);
      assert n * pageSize == (n - 1) * pageSize + pageSize;
    }
  }
}
