/** The records the backend keeps (sweets and inventory log entries), the
    in-memory store standing in for the database, and the outcomes a handler
    reports. */
module Db {
  import opened Js
  import opened Sorting

  type SweetId = string

  /** The closed set of stock-changing operations. */
  datatype InventoryType = Restock | Sale | Damage | Expired
  {
    /** The tag as it travels in requests and is stored. */
    function Name(): string
    {
      match this
      case Restock => "RESTOCK"
      case Sale => "SALE"
      case Damage => "DAMAGE"
      case Expired => "EXPIRED"
    }
  }

  /** The operation a request tag names, if any. */
  function TypeNamed(tag: string): (t: Option<InventoryType>)
    ensures t.Some? ==> t.value.Name() == tag
    ensures t.None? ==> forall k: InventoryType :: k.Name() != tag
  {
    if tag == "RESTOCK" then Some(Restock)
    else if tag == "SALE" then Some(Sale)
    else if tag == "DAMAGE" then Some(Damage)
    else if tag == "EXPIRED" then Some(Expired)
    else None
  }

  /** A catalog record. `price` is a positive number of at most 10000 (the
      route validators see to that) on which nothing computes here. */
  datatype Sweet = Sweet(
    id: SweetId,
    name: string,
    description: Option<string>,
    price: real,
    category: string,
    imageUrl: Option<string>,
    stock: nat,
    isActive: bool,
    createdById: string,
    createdAt: int)

  /** One row of the inventory log. It records the request, not the stock
      that resulted from it. */
  datatype LogEntry = LogEntry(
    id: string,
    sweetId: SweetId,
    kind: InventoryType,
    quantity: nat,
    reason: Option<string>,
    createdAt: int)

  /** The authenticated caller, as the token middleware attaches it. */
  datatype AuthUser = AuthUser(userId: string, role: string)

  /** What a handler answers, one constructor per status it can send. */
  datatype Response<T> =
    | Ok(value: T)                                       // 200 or 201
    | Unauthenticated                                    // 401
    | Forbidden                                          // 403
    | NotFound                                           // 404
    | InsufficientStock(available: nat, requested: nat)  // 400

  /** The sweets of `ids`, looked up in `m`, in the order of `ids`. */
  function SweetsIn(ids: seq<SweetId>, m: map<SweetId, Sweet>): (c: seq<Sweet>)
    requires forall i :: 0 <= i < |ids| ==> ids[i] in m
    ensures |c| == |ids|
    ensures forall i :: 0 <= i < |ids| ==> c[i] == m[ids[i]]
  {
    seq(|ids|, i requires 0 <= i < |ids| => m[ids[i]])
  }

  predicate IsActive(s: Sweet)
  {
    s.isActive
  }

  /** The rows a `where: { isActive: true }` query returns, in store order. */
  function Active(catalog: seq<Sweet>): (r: seq<Sweet>)
    ensures forall s :: s in r <==> s in catalog && s.isActive
  {
    Select(catalog, IsActive)
  }

  /** The number of sweets of category `c`. */
  function CountCategory(sweets: seq<Sweet>, c: string): (n: nat)
    ensures n <= |sweets|
    ensures n > 0 <==> exists s :: s in sweets && s.category == c
  {
    if sweets == [] then 0
    else (if sweets[0].category == c then 1 else 0) + CountCategory(sweets[1..], c)
  }

  /** The categories of `sweets`, each once, in ascending order. */
  function CategoriesOf(sweets: seq<Sweet>): (cs: seq<string>)
    ensures SortedBy(cs, LexLe)
    ensures forall c :: multiset(cs)[c] <= 1
    ensures forall c :: c in cs <==> exists s :: s in sweets && s.category == c
  {
    if sweets == [] then []
    else
      var rest := CategoriesOf(sweets[1..]);
      var c := sweets[0].category;
      assert forall s :: s in sweets <==> s == sweets[0] || s in sweets[1..];
      if c in rest then rest
      else
        LexLeIsTotalPreorder();
        var r := Insert(c, rest, LexLe);
        assert forall x :: x in r <==> x == c || x in rest by {
          forall x ensures x in r <==> x == c || x in rest {
            assert x in r <==> x in multiset(r);
          }
        }
        r
  }

  /** One group of a `groupBy: ['category']` query with `_count`. */
  datatype CategoryCount = CategoryCount(category: string, count: nat)

  /** The sweets grouped by category: one group per category, in ascending
      order of category, each with the number of its sweets. */
  function GroupByCategory(sweets: seq<Sweet>): (g: seq<CategoryCount>)
    ensures forall i, j :: 0 <= i < j < |g| ==> LexLe(g[i].category, g[j].category) && g[i].category != g[j].category
    ensures forall i :: 0 <= i < |g| ==> g[i].count == CountCategory(sweets, g[i].category) && g[i].count > 0
    ensures forall s :: s in sweets ==> exists i :: 0 <= i < |g| && g[i].category == s.category
  {
    var cs := CategoriesOf(sweets);
    DistinctFromCounts(cs);
    var g := seq(|cs|, i requires 0 <= i < |cs| => CategoryCount(cs[i], CountCategory(sweets, cs[i])));
    assert |g| == |cs| && forall i :: 0 <= i < |g| ==> g[i].category == cs[i];
    forall i, j | 0 <= i < j < |g| ensures LexLe(g[i].category, g[j].category) && g[i].category != g[j].category {
      assert SortedBy(cs, LexLe) && Distinct(cs);
    }
    forall i | 0 <= i < |g| ensures g[i].count > 0 {
      assert cs[i] in cs;
    }
    forall s | s in sweets ensures exists i :: 0 <= i < |g| && g[i].category == s.category {
      assert s.category in cs;
      var i :| 0 <= i < |cs| && cs[i] == s.category;
      assert g[i].category == s.category;
    }
    g
  }

  /** The store: the `sweet` table keyed by id with its insertion order, and
      the `inventoryLog` table in insertion order. */
  class Database {
    var sweets: map<SweetId, Sweet>
    var order: seq<SweetId>
    var logs: seq<LogEntry>

    /** Every key is listed once in `order`, every record carries its own
        key, and every log entry refers to an existing sweet. */
    ghost predicate Valid()
      reads this
    {
      && (forall i, j :: 0 <= i < j < |order| ==> order[i] != order[j])
      && (forall i :: 0 <= i < |order| ==> order[i] in sweets)
      && (forall id :: id in sweets ==> id in order && sweets[id].id == id)
      && (forall i :: 0 <= i < |logs| ==> logs[i].sweetId in sweets)
    }

    constructor ()
      ensures Valid()
      ensures sweets == map[] && order == [] && logs == []
    {
      sweets, order, logs := map[], [], [];
    }

    /** The sweet table as a query without `orderBy` reads it. */
    function Catalog(): (c: seq<Sweet>)
      reads this
      requires Valid()
      ensures |c| == |order|
      ensures forall i :: 0 <= i < |c| ==> c[i] == sweets[order[i]]
      ensures forall id :: id in sweets ==> sweets[id] in c
      ensures forall s :: s in c ==> s.id in sweets && sweets[s.id] == s
    {
      SweetsIn(order, sweets)
    }
  }
}
