/** The inventory handlers (backend/dist/controllers/inventoryController.js):
    the stock-change engine, which writes one log entry and one stock value,
    and three read-only views of the store: the log listing, the inventory
    report and the stock alerts. Each handler runs after the route's guard,
    so its precondition is that guard's acceptance. */
module InventoryController {
  import opened Js
  import opened Db
  import opened Sorting
  import opened Pagination
  import opened InventoryValidation

  // ---------------------------------------------------------------------
  // The stock-change engine
  // ---------------------------------------------------------------------

  /** The signed change a log entry of `kind` and `quantity` stands for. */
  function Delta(kind: InventoryType, quantity: nat): int
  {
    if kind == Restock then quantity as int else -(quantity as int)
  }

  /** The sum of the changes the entries of `logs` for sweet `id` stand for. */
  function NetChange(logs: seq<LogEntry>, id: SweetId): int
  {
    if logs == [] then 0
    else (if logs[0].sweetId == id then Delta(logs[0].kind, logs[0].quantity) else 0) + NetChange(logs[1..], id)
  }

  /** Appending an entry adds its change to its own sweet's net change and
      to no other. */
  lemma {:induction false} NetChangeAppend(logs: seq<LogEntry>, e: LogEntry, id: SweetId)
    ensures NetChange(logs + [e], id) == NetChange(logs, id) + if e.sweetId == id then Delta(e.kind, e.quantity) else 0
  {
    if logs != [] {
      assert (logs + [e])[1..] == logs[1..] + [e];
      NetChangeAppend(logs[1..], e, id);
    }
  }

  /** `reason || null`: an absent or empty reason is stored as null. */
  function StoredReason(reason: Option<string>): (r: Option<string>)
    ensures r.Some? <==> reason.Some? && reason.value != ""
    ensures r.Some? ==> r == reason
  {
    if reason.Some? && reason.value != "" then reason else None
  }

  /** The sweet as the created log's `include` reads it (before the stock
      update of the same transaction), with the new stock alongside. */
  datatype SweetSummary = SweetSummary(id: SweetId, name: string, category: string, stock: nat, currentStock: nat)

  /** The 201 answer: the created log entry and the sweet summary. */
  datatype LoggedChange = LoggedChange(log: LogEntry, sweet: SweetSummary)

  /** `logInventoryChange`, with the row id and the clock supplied by the
      caller. It does not look at `isActive`. */
  method LogInventoryChange(db: Database, req: LogRequest, logId: string, now: int) returns (r: Response<LoggedChange>)
    requires db.Valid()
    modifies db
    ensures db.Valid()
    ensures r.Ok? || r.NotFound? || r.InsufficientStock?
    ensures r.NotFound? <==> req.sweetId !in old(db.sweets)
    ensures r.InsufficientStock? <==>
              req.sweetId in old(db.sweets) && req.kind != Restock && old(db.sweets[req.sweetId].stock) < req.quantity
    ensures r.InsufficientStock? ==>
              r.available == old(db.sweets[req.sweetId].stock) && r.requested == req.quantity
    ensures !r.Ok? ==> db.sweets == old(db.sweets) && db.order == old(db.order) && db.logs == old(db.logs)
    ensures r.Ok? ==>
              var before := old(db.sweets[req.sweetId]);
              && r.value.log == LogEntry(logId, req.sweetId, req.kind, req.quantity, StoredReason(req.reason), now)
              && db.logs == old(db.logs) + [r.value.log]
              && r.value.sweet.currentStock as int == before.stock as int + Delta(req.kind, req.quantity)
              && r.value.sweet == SweetSummary(before.id, before.name, before.category, before.stock, r.value.sweet.currentStock)
              && db.sweets == old(db.sweets)[req.sweetId := before.(stock := r.value.sweet.currentStock)]
              && db.order == old(db.order)
    ensures db.sweets.Keys == old(db.sweets.Keys)
    ensures forall id :: id in db.sweets ==>
              db.sweets[id].stock - NetChange(db.logs, id) == old(db.sweets[id].stock) - NetChange(old(db.logs), id)
  {
    if req.sweetId !in db.sweets {
      return NotFound;
    }
    var sweet := db.sweets[req.sweetId];
    var newStock: int := sweet.stock;
    if req.kind == Restock {
      newStock := newStock + req.quantity;
    } else {
      if sweet.stock < req.quantity {
        return InsufficientStock(sweet.stock, req.quantity);
      }
      newStock := newStock - req.quantity;
    }
    var entry := LogEntry(logId, req.sweetId, req.kind, req.quantity, StoredReason(req.reason), now);
    forall id ensures NetChange(db.logs + [entry], id) == NetChange(db.logs, id) + if entry.sweetId == id then Delta(entry.kind, entry.quantity) else 0 {
      NetChangeAppend(db.logs, entry, id);
    }
    db.logs := db.logs + [entry];
    db.sweets := db.sweets[req.sweetId := sweet.(stock := newStock)];
    r := Ok(LoggedChange(entry, SweetSummary(sweet.id, sweet.name, sweet.category, sweet.stock, newStock)));
  }

  // ---------------------------------------------------------------------
  // The log listing
  // ---------------------------------------------------------------------

  /** The `where` clause of the listing: each part is present only when its
      parameter was given a truthy value. */
  datatype LogFilter = LogFilter(sweetId: Option<SweetId>, kind: Option<InventoryType>, from: Option<int>, to: Option<int>)

  predicate Matches(f: LogFilter, e: LogEntry)
  {
    && (f.sweetId.None? || e.sweetId == f.sweetId.value)
    && (f.kind.None? || e.kind == f.kind.value)
    && (f.from.None? || f.from.value <= e.createdAt)
    && (f.to.None? || e.createdAt <= f.to.value)
  }

  /** The filter a query accepted by the guard builds. An empty `sweetId`
      is falsy and filters nothing; the guard has already refused an empty
      `type` and unparseable dates. */
  function FilterOf(q: InventoryQuery): (f: LogFilter)
    requires ValidateInventoryQuery(q) == Next
    ensures forall e ::
              Matches(f, e) <==>
                && (q.sweetId.Some? && q.sweetId.value != "" ==> e.sweetId == q.sweetId.value)
                && (q.kind.Some? ==> e.kind.Name() == q.kind.value)
                && (q.startDate.Some? ==> q.startDate.value.ms <= e.createdAt)
                && (q.endDate.Some? ==> e.createdAt <= q.endDate.value.ms)
  {
    LogFilter(
      if q.sweetId.Some? && q.sweetId.value != "" then q.sweetId else None,
      if q.kind.Some? then TypeNamed(q.kind.value) else None,
      if q.startDate.Some? then Some(q.startDate.value.ms) else None,
      if q.endDate.Some? then Some(q.endDate.value.ms) else None)
  }

  /** The entries of `logs` the filter keeps, in store order. */
  function Matching(logs: seq<LogEntry>, f: LogFilter): (r: seq<LogEntry>)
    ensures forall e :: e in r <==> e in logs && Matches(f, e)
  {
    Select(logs, e => Matches(f, e))
  }

  /** `orderBy: { createdAt: 'desc' }` as a comparator. */
  predicate NewerOrSame(a: LogEntry, b: LogEntry)
  {
    a.createdAt >= b.createdAt
  }

  /** The entries newest first; entries with the same time keep store order. */
  function Newest(logs: seq<LogEntry>): (r: seq<LogEntry>)
    ensures SortedBy(r, NewerOrSame)
    ensures multiset(r) == multiset(logs)
  {
    assert TotalPreorder(NewerOrSame);
    SortBy(logs, NewerOrSame)
  }

  /** The 200 answer of the listing. */
  datatype LogPage = LogPage(logs: seq<LogEntry>, pagination: PageInfo)

  /** `getInventoryLogs` over the log table `logs` (page 1 and limit 20 by
      default). */
  function GetInventoryLogs(logs: seq<LogEntry>, q: InventoryQuery): (r: LogPage)
    requires ValidateInventoryQuery(q) == Next
    ensures var page := IntOr(q.page, 1);
            var limit := IntOr(q.limit, 20);
            && r.logs == Window(Newest(Matching(logs, FilterOf(q))), Skip(page, limit), limit)
            && r.pagination == Paginate(page, limit, |Matching(logs, FilterOf(q))|)
            && |r.logs| <= limit
    ensures forall e :: e in r.logs ==> e in logs && Matches(FilterOf(q), e)
    ensures SortedBy(r.logs, NewerOrSame)
  {
    var page := IntOr(q.page, 1);
    var limit := IntOr(q.limit, 20);
    var matching := Matching(logs, FilterOf(q));
    var sorted := Newest(matching);
    var shown := Window(sorted, Skip(page, limit), limit);
    WindowSorted(sorted, Skip(page, limit), limit, NewerOrSame);
    forall e | e in shown ensures e in logs && Matches(FilterOf(q), e) {
      assert e in sorted;
      assert e in multiset(sorted);
    }
    LogPage(shown, Paginate(page, limit, |matching|))
  }

  /** Every matching entry is shown on the page its position in the
      newest-first order falls on. */
  lemma EveryMatchOnItsPage(logs: seq<LogEntry>, q: InventoryQuery, k: nat)
    requires ValidateInventoryQuery(q) == Next
    requires k < |Matching(logs, FilterOf(q))|
    ensures var limit := IntOr(q.limit, 20);
            var q' := q.(page := Some(Int(k / limit + 1)));
            && ValidateInventoryQuery(q') == Next
            && k % limit < |GetInventoryLogs(logs, q').logs|
            && GetInventoryLogs(logs, q').logs[k % limit] == Newest(Matching(logs, FilterOf(q)))[k]
  {
    var limit := IntOr(q.limit, 20);
    var q' := q.(page := Some(Int(k / limit + 1)));
    assert WellFormedQuery(q');
    assert FilterOf(q') == FilterOf(q);
    var matching := Matching(logs, FilterOf(q));
    var sorted := Newest(matching);
    assert |sorted| == |matching| by {
      assert |multiset(sorted)| == |multiset(matching)|;
    }
    WindowAtPage(sorted, limit, k);
  }

  // ---------------------------------------------------------------------
  // The inventory report
  // ---------------------------------------------------------------------

  /** A row of `lowStockItems`. */
  datatype LowStockItem = LowStockItem(id: SweetId, name: string, category: string, currentStock: nat, price: real)

  /** The filter `stock <= threshold`. */
  function StockAtMost(threshold: int): Sweet -> bool
  {
    (s: Sweet) => s.stock <= threshold
  }

  /** The active sweets whose stock is at most `threshold`, in store order. */
  function LowStock(catalog: seq<Sweet>, threshold: int): (low: seq<Sweet>)
    ensures forall s :: s in low <==> s in catalog && s.isActive && s.stock <= threshold
  {
    Select(Active(catalog), StockAtMost(threshold))
  }

  /** The low-stock list keeps store order: the list of two stretches of the
      store is the list of the first followed by that of the second. */
  lemma LowStockKeepsStoreOrder(a: seq<Sweet>, b: seq<Sweet>, threshold: int)
    ensures LowStock(a + b, threshold) == LowStock(a, threshold) + LowStock(b, threshold)
  {
    SelectAppend(a, b, IsActive);
    SelectAppend(Active(a), Active(b), StockAtMost(threshold));
  }

  /** Over the store's own table, a sweet is on the low-stock list exactly
      when it is active and its stock is at most the threshold, and every
      listed row is the store's record for its id. */
  lemma LowStockOfDatabase(db: Database, threshold: int)
    requires db.Valid()
    ensures forall id :: id in db.sweets ==>
              (db.sweets[id] in LowStock(db.Catalog(), threshold) <==> db.sweets[id].isActive && db.sweets[id].stock <= threshold)
    ensures forall s :: s in LowStock(db.Catalog(), threshold) ==> s.id in db.sweets && db.sweets[s.id] == s
  {
  }

  /** The report without its money totals. */
  datatype Report = Report(
    totalSweets: nat,
    lowStockItems: seq<LowStockItem>,
    recentActivities: seq<LogEntry>,
    categoryBreakdown: seq<CategoryCount>)

  /** The number of most recent entries the report shows. */
  const RecentCount := 20

  /** `getInventoryReport` over the sweet table `catalog` and the log table
      `logs` (low-stock threshold 10 by default). */
  function GetInventoryReport(catalog: seq<Sweet>, logs: seq<LogEntry>, q: InventoryQuery): (r: Report)
    requires ValidateInventoryQuery(q) == Next
    ensures r.totalSweets == |Active(catalog)|
    ensures var low := LowStock(catalog, IntOr(q.lowStockThreshold, 10));
            && |r.lowStockItems| == |low|
            && forall i :: 0 <= i < |low| ==>
                 r.lowStockItems[i] == LowStockItem(low[i].id, low[i].name, low[i].category, low[i].stock, low[i].price)
    ensures |r.recentActivities| == if |logs| < RecentCount then |logs| else RecentCount
    ensures SortedBy(r.recentActivities, NewerOrSame)
    ensures forall e :: e in r.recentActivities ==> e in logs
    ensures multiset(r.recentActivities) <= multiset(logs)
    ensures forall i, j :: 0 <= i < |r.recentActivities| <= j < |Newest(logs)| ==>
              Newest(logs)[j].createdAt <= r.recentActivities[i].createdAt
    ensures r.categoryBreakdown == GroupByCategory(Active(catalog))
  {
    var low := LowStock(catalog, IntOr(q.lowStockThreshold, 10));
    var items := seq(|low|, i requires 0 <= i < |low| =>
      LowStockItem(low[i].id, low[i].name, low[i].category, low[i].stock, low[i].price));
    var sorted := Newest(logs);
    assert |sorted| == |logs| by {
      assert |multiset(sorted)| == |multiset(logs)|;
    }
    var recent := Window(sorted, 0, RecentCount);
    WindowSorted(sorted, 0, RecentCount, NewerOrSame);
    forall e | e in recent ensures e in logs {
      assert e in multiset(sorted);
    }
    assert sorted == sorted[..|recent|] + sorted[|recent|..];
    assert recent == sorted[..|recent|];
    assert multiset(sorted) == multiset(recent) + multiset(sorted[|recent|..]);
    Report(|Active(catalog)|, items, recent, GroupByCategory(Active(catalog)))
  }

  // ---------------------------------------------------------------------
  // The stock alerts
  // ---------------------------------------------------------------------

  datatype Severity = OutOfStock | Critical | Low
  {
    function Name(): string
    {
      match this
      case OutOfStock => "OUT_OF_STOCK"
      case Critical => "CRITICAL"
      case Low => "LOW"
    }

    /** How urgent the level is: higher is more urgent. */
    function Rank(): nat
    {
      match this
      case OutOfStock => 2
      case Critical => 1
      case Low => 0
    }
  }

  /** The severity of an alert: out of stock at 0, critical up to 30% of the
      threshold (`stock <= threshold * 0.3`, compared exactly), low above. */
  function Classify(stock: nat, threshold: int): (sv: Severity)
    ensures sv == OutOfStock <==> stock == 0
    ensures sv == Critical <==> 0 < stock && 10 * stock <= 3 * threshold
    ensures sv == Low <==> 0 < stock && 3 * threshold < 10 * stock
  {
    if stock == 0 then OutOfStock
    else if 10 * stock <= 3 * threshold then Critical
    else Low
  }

  /** Less stock is never less urgent. */
  lemma SeverityMonotone(a: nat, b: nat, threshold: int)
    requires a <= b
    ensures Classify(a, threshold).Rank() >= Classify(b, threshold).Rank()
  {
    if 0 < a && 10 * b <= 3 * threshold {
      assert 10 * a <= 10 * b;
    }
  }

  /** With the default threshold of 10: 0 is out of stock, 1 to 3 are
      critical and 4 to 10 are low. */
  lemma DefaultThresholdLevels(stock: nat)
    requires stock <= 10
    ensures Classify(stock, 10) == if stock == 0 then OutOfStock else if stock <= 3 then Critical else Low
  {
  }

  /** One alert row. */
  datatype Alert = Alert(sweetId: SweetId, sweetName: string, currentStock: nat, threshold: int, severity: Severity)

  datatype AlertSummary = AlertSummary(outOfStock: nat, critical: nat, low: nat)

  /** The 200 answer of the alerts. */
  datatype Alerts = Alerts(alerts: seq<Alert>, total: nat, summary: AlertSummary)

  predicate LessOrSameStock(a: Sweet, b: Sweet)
  {
    a.stock <= b.stock
  }

  /** The rows of `where: { isActive: true, stock: { lte } }` with
      `orderBy: { stock: 'asc' }`. */
  function AlertedSweets(catalog: seq<Sweet>, threshold: int): (a: seq<Sweet>)
    ensures forall s :: s in a <==> s in catalog && s.isActive && s.stock <= threshold
    ensures SortedBy(a, LessOrSameStock)
    ensures multiset(a) == multiset(LowStock(catalog, threshold))
  {
    var low := LowStock(catalog, threshold);
    assert TotalPreorder(LessOrSameStock);
    var a := SortBy(low, LessOrSameStock);
    assert forall s :: s in a <==> s in multiset(low);
    a
  }

  predicate IsOutOfStock(a: Alert) { a.severity == OutOfStock }
  predicate IsCritical(a: Alert) { a.severity == Critical }
  predicate IsLow(a: Alert) { a.severity == Low }

  /** `getStockAlerts` over the sweet table `catalog` (threshold 10 by
      default). */
  function GetStockAlerts(catalog: seq<Sweet>, q: InventoryQuery): (r: Alerts)
    requires ValidateInventoryQuery(q) == Next
    ensures var t := IntOr(q.threshold, 10);
            var a := AlertedSweets(catalog, t);
            && |r.alerts| == |a|
            && forall i :: 0 <= i < |a| ==>
                 r.alerts[i] == Alert(a[i].id, a[i].name, a[i].stock, t, Classify(a[i].stock, t))
    ensures forall i, j :: 0 <= i < j < |r.alerts| ==> r.alerts[i].currentStock <= r.alerts[j].currentStock
    ensures forall i :: 0 <= i < |r.alerts| ==>
              (r.alerts[i].severity == OutOfStock <==> r.alerts[i].currentStock == 0)
    ensures r.total == |r.alerts|
    ensures r.summary.outOfStock == |Select(r.alerts, IsOutOfStock)|
    ensures r.summary.critical == |Select(r.alerts, IsCritical)|
    ensures r.summary.low == |Select(r.alerts, IsLow)|
    ensures r.summary.outOfStock + r.summary.critical + r.summary.low == r.total
  {
    var t := IntOr(q.threshold, 10);
    var a := AlertedSweets(catalog, t);
    var alerts := seq(|a|, i requires 0 <= i < |a| => Alert(a[i].id, a[i].name, a[i].stock, t, Classify(a[i].stock, t)));
    forall i, j | 0 <= i < j < |alerts| ensures alerts[i].currentStock <= alerts[j].currentStock {
      assert LessOrSameStock(a[i], a[j]);
    }
    SelectPartition3(alerts, IsOutOfStock, IsCritical, IsLow);
    Alerts(alerts, |alerts|,
      AlertSummary(|Select(alerts, IsOutOfStock)|, |Select(alerts, IsCritical)|, |Select(alerts, IsLow)|))
  }
}
