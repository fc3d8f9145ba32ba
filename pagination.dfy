/** Offset pagination as both listing endpoints compute it: `skip` and `take`
    for the query, and the `pagination` block of the response. */
module Pagination {
  import opened Sorting

  datatype PageInfo = PageInfo(page: int, limit: int, total: nat, totalPages: nat, hasNext: bool, hasPrev: bool)

  /** `Math.ceil(n / d)` for a non-negative count and a positive divisor. */
  function CeilDiv(n: nat, d: int): (q: nat)
    requires d > 0
    ensures n <= q * d
    ensures q == 0 || (q - 1) * d < n
  {
    var q := (n + d - 1) / d;
    assert q * d <= n + d - 1 < q * d + d;
    q
  }

  /** The number of entries skipped before page `page`: `(page - 1) * limit`. */
  function Skip(page: int, limit: int): (k: nat)
    requires page >= 1 && limit >= 1
    ensures k < page * limit
  {
    (page - 1) * limit
  }

  /** The `pagination` block for page `page` of `total` entries. */
  function Paginate(page: int, limit: int, total: nat): (p: PageInfo)
    requires page >= 1 && limit >= 1
    ensures p.page == page && p.limit == limit && p.total == total
    ensures p.totalPages * limit >= total
    ensures p.totalPages == 0 || (p.totalPages - 1) * limit < total
    ensures p.totalPages == 0 <==> total == 0
    ensures p.hasNext <==> page < p.totalPages
    ensures p.hasPrev <==> page > 1
  {
    var totalPages := CeilDiv(total, limit);
    PageInfo(page, limit, total, totalPages, page < totalPages, page > 1)
  }

  /** `hasNext` holds exactly when some entry lies beyond the requested page. */
  lemma HasNextIffMoreRemain(page: int, limit: int, total: nat)
    requires page >= 1 && limit >= 1
    ensures Paginate(page, limit, total).hasNext <==> page * limit < total
  {
    var q := Paginate(page, limit, total).totalPages;
    if page < q {
      assert page * limit <= (q - 1) * limit by {
        MulMonotone(page, q - 1, limit);
      }
    } else {
      assert q * limit <= page * limit by {
        MulMonotone(q, page, limit);
      }
    }
  }

  lemma MulMonotone(a: int, b: int, c: nat)
    requires a <= b
    ensures a * c <= b * c
  {
  }

  /** The entries `s[skip..skip + take]`, as far as `s` reaches: Prisma's
      `skip` and `take`. */
  function Window<T>(s: seq<T>, skip: nat, take: nat): (r: seq<T>)
    ensures |r| == if skip >= |s| then 0 else if |s| - skip < take then |s| - skip else take
    ensures forall k :: 0 <= k < |r| ==> r[k] == s[skip + k]
    ensures forall x :: x in r ==> x in s
  {
    if skip >= |s| then []
    else if |s| - skip < take then s[skip..]
    else s[skip..skip + take]
  }

  /** Element `k` is shown on page `k / limit + 1`, at position
      `k % limit` of that page. */
  lemma WindowAtPage<T>(s: seq<T>, limit: int, k: nat)
    requires limit >= 1 && k < |s|
    ensures var w := Window(s, Skip(k / limit + 1, limit), limit);
            k % limit < |w| && w[k % limit] == s[k]
  {
    assert Skip(k / limit + 1, limit) + k % limit == k;
  }

  /** A window of a sorted sequence is sorted. */
  lemma WindowSorted<T>(s: seq<T>, skip: nat, take: nat, le: (T, T) -> bool)
    requires SortedBy(s, le)
    ensures SortedBy(Window(s, skip, take), le)
  {
    var w := Window(s, skip, take);
    forall i, j | 0 <= i < j < |w| ensures le(w[i], w[j]) {
      assert w[i] == s[skip + i] && w[j] == s[skip + j];
    }
  }
}
