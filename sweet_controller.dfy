/** The catalog handlers (backend/dist/controllers/sweetController.js):
    creating a record, the partial update and the soft delete behind the
    owner-or-admin rule, the filtered and sorted listing, and the category
    grouping. */
module SweetController {
  import opened Js
  import opened Db
  import opened Sorting
  import opened Pagination

  /** Only an admin or the sweet's creator may change or delete it. */
  predicate Authorized(user: AuthUser, s: Sweet)
  {
    user.role == "ADMIN" || s.createdById == user.userId
  }

  /** An admin may change every sweet; any other caller exactly the sweets
      they created. */
  lemma AdminOrCreator(user: AuthUser, s: Sweet)
    ensures user.role == "ADMIN" ==> Authorized(user, s)
    ensures user.role != "ADMIN" ==> (Authorized(user, s) <==> s.createdById == user.userId)
  {
  }

  /** `text?.trim() || null`: a trimmed string, or null when nothing is left. */
  function TrimmedOrNull(text: Option<string>): (r: Option<string>)
    ensures text.None? ==> r.None?
    ensures text.Some? ==> (r.None? <==> AllSpace(text.value))
    ensures r.Some? ==> r == Some(Trim(text.value)) && r.value != ""
  {
    if text.Some? then
      TrimEmptyIffAllSpace(text.value);
      if Trim(text.value) == "" then None else Some(Trim(text.value))
    else None
  }

  // ---------------------------------------------------------------------
  // Create
  // ---------------------------------------------------------------------

  /** The body of `POST /sweets`, as the create guard passes it on; an
      absent or null description or image URL is `None`. */
  datatype CreateBody = CreateBody(
    name: string,
    description: Option<string>,
    price: real,
    category: string,
    imageUrl: Option<string>,
    stock: Option<nat>)

  /** The record `createSweet` asks the store to insert: strings trimmed,
      empty optional texts stored as null, stock 0 unless a positive one was
      given, the caller as creator, and the schema's defaults (active, created
      now). */
  function NewSweet(b: CreateBody, userId: string, id: SweetId, now: int): (s: Sweet)
    ensures s.id == id && s.createdById == userId && s.isActive && s.createdAt == now
    ensures s.name == Trim(b.name) && s.category == Trim(b.category) && s.price == b.price
    ensures s.description == TrimmedOrNull(b.description) && s.imageUrl == TrimmedOrNull(b.imageUrl)
    ensures b.stock.None? ==> s.stock == 0
    ensures b.stock.Some? ==> s.stock == b.stock.value
  {
    Sweet(
      id,
      Trim(b.name),
      TrimmedOrNull(b.description),
      b.price,
      Trim(b.category),
      TrimmedOrNull(b.imageUrl),
      if b.stock.Some? && b.stock.value != 0 then b.stock.value else 0,
      true,
      userId,
      now)
  }

  /** `createSweet`, with the new row's id and the clock supplied by the
      caller; the store hands out an id no row has. */
  method CreateSweet(db: Database, user: Option<AuthUser>, b: CreateBody, id: SweetId, now: int) returns (r: Response<Sweet>)
    requires db.Valid() && id !in db.sweets
    modifies db
    ensures db.Valid()
    ensures r.Ok? || r.Unauthenticated?
    ensures r.Unauthenticated? <==> user.None? || user.value.userId == ""
    ensures r.Unauthenticated? ==> db.sweets == old(db.sweets) && db.order == old(db.order) && db.logs == old(db.logs)
    ensures r.Ok? ==>
              && r.value == NewSweet(b, user.value.userId, id, now)
              && db.sweets == old(db.sweets)[id := r.value]
              && db.order == old(db.order) + [id]
              && db.logs == old(db.logs)
  {
    if user.None? || user.value.userId == "" {
      return Unauthenticated;
    }
    var sweet := NewSweet(b, user.value.userId, id, now);
    db.sweets := db.sweets[id := sweet];
    db.order := db.order + [id];
    r := Ok(sweet);
  }

  // ---------------------------------------------------------------------
  // Update
  // ---------------------------------------------------------------------

  /** The body of `PUT /sweets/:id` as the update guard passes it on: each
      field is `None` when it is absent (undefined). */
  datatype UpdateBody = UpdateBody(
    name: Option<string>,
    description: Option<string>,
    price: Option<real>,
    category: Option<string>,
    imageUrl: Option<string>,
    stock: Option<nat>,
    isActive: Option<bool>)

  /** The sweet with `dataToUpdate` written over it: every field the body
      supplies, normalised, and every other field as it was. */
  function ApplyUpdate(s: Sweet, b: UpdateBody): (r: Sweet)
    ensures r.id == s.id && r.createdById == s.createdById && r.createdAt == s.createdAt
    ensures r.name == if b.name.Some? then Trim(b.name.value) else s.name
    ensures r.description == if b.description.Some? then TrimmedOrNull(b.description) else s.description
    ensures r.price == if b.price.Some? then b.price.value else s.price
    ensures r.category == if b.category.Some? then Trim(b.category.value) else s.category
    ensures r.imageUrl == if b.imageUrl.Some? then TrimmedOrNull(b.imageUrl) else s.imageUrl
    ensures r.stock == if b.stock.Some? then b.stock.value else s.stock
    ensures r.isActive == if b.isActive.Some? then b.isActive.value else s.isActive
  {
    s.(
      name := if b.name.Some? then Trim(b.name.value) else s.name,
      description := if b.description.Some? then TrimmedOrNull(b.description) else s.description,
      price := if b.price.Some? then b.price.value else s.price,
      category := if b.category.Some? then Trim(b.category.value) else s.category,
      imageUrl := if b.imageUrl.Some? then TrimmedOrNull(b.imageUrl) else s.imageUrl,
      stock := if b.stock.Some? then b.stock.value else s.stock,
      isActive := if b.isActive.Some? then b.isActive.value else s.isActive)
  }

  /** A body that supplies nothing changes nothing. */
  lemma EmptyUpdateChangesNothing(s: Sweet)
    ensures ApplyUpdate(s, UpdateBody(None, None, None, None, None, None, None)) == s
  {
  }

  /** The update a second body makes after a first: each field the
      second supplies, otherwise the first's. */
  function Then(first: UpdateBody, second: UpdateBody): UpdateBody
  {
    UpdateBody(
      if second.name.Some? then second.name else first.name,
      if second.description.Some? then second.description else first.description,
      if second.price.Some? then second.price else first.price,
      if second.category.Some? then second.category else first.category,
      if second.imageUrl.Some? then second.imageUrl else first.imageUrl,
      if second.stock.Some? then second.stock else first.stock,
      if second.isActive.Some? then second.isActive else first.isActive)
  }

  /** Two updates in a row act as one update with the later field winning. */
  lemma UpdatesCompose(s: Sweet, first: UpdateBody, second: UpdateBody)
    ensures ApplyUpdate(ApplyUpdate(s, first), second) == ApplyUpdate(s, Then(first, second))
  {
  }

  /** `updateSweet`. */
  method UpdateSweet(db: Database, id: SweetId, user: AuthUser, b: UpdateBody) returns (r: Response<Sweet>)
    requires db.Valid()
    modifies db
    ensures db.Valid()
    ensures r.Ok? || r.NotFound? || r.Forbidden?
    ensures r.NotFound? <==> id !in old(db.sweets)
    ensures r.Forbidden? <==> id in old(db.sweets) && !Authorized(user, old(db.sweets[id]))
    ensures !r.Ok? ==> db.sweets == old(db.sweets) && db.order == old(db.order) && db.logs == old(db.logs)
    ensures r.Ok? ==>
              && r.value == ApplyUpdate(old(db.sweets[id]), b)
              && db.sweets == old(db.sweets)[id := r.value]
              && db.order == old(db.order)
              && db.logs == old(db.logs)
  {
    if id !in db.sweets {
      return NotFound;
    }
    var existing := db.sweets[id];
    if user.role != "ADMIN" && existing.createdById != user.userId {
      return Forbidden;
    }
    var updated := ApplyUpdate(existing, b);
    db.sweets := db.sweets[id := updated];
    r := Ok(updated);
  }

  // ---------------------------------------------------------------------
  // Delete
  // ---------------------------------------------------------------------

  /** `deleteSweet`: a soft delete that only clears `isActive`. */
  method DeleteSweet(db: Database, id: SweetId, user: AuthUser) returns (r: Response<SweetId>)
    requires db.Valid()
    modifies db
    ensures db.Valid()
    ensures r.Ok? || r.NotFound? || r.Forbidden?
    ensures r.NotFound? <==> id !in old(db.sweets)
    ensures r.Forbidden? <==> id in old(db.sweets) && !Authorized(user, old(db.sweets[id]))
    ensures !r.Ok? ==> db.sweets == old(db.sweets) && db.order == old(db.order) && db.logs == old(db.logs)
    ensures r.Ok? ==>
              && r.value == id
              && db.sweets == old(db.sweets)[id := old(db.sweets[id]).(isActive := false)]
              && db.order == old(db.order)
              && db.logs == old(db.logs)
  {
    if id !in db.sweets {
      return NotFound;
    }
    var existing := db.sweets[id];
    if user.role != "ADMIN" && existing.createdById != user.userId {
      return Forbidden;
    }
    db.sweets := db.sweets[id := existing.(isActive := false)];
    r := Ok(id);
  }

  /** After a soft delete of `id` the active sweets are those active before
      except the deleted one, whose record is still in the table. */
  lemma SoftDeleteHides(order: seq<SweetId>, m: map<SweetId, Sweet>, id: SweetId)
    requires forall i :: 0 <= i < |order| ==> order[i] in m
    requires forall k :: k in m ==> m[k].id == k
    requires id in m
    ensures var m' := m[id := m[id].(isActive := false)];
            && (forall s :: s in Active(SweetsIn(order, m')) <==> s in Active(SweetsIn(order, m)) && s.id != id)
            && m'[id] == m[id].(isActive := false)
  {
    var m' := m[id := m[id].(isActive := false)];
    var before := SweetsIn(order, m);
    var after := SweetsIn(order, m');
    forall s ensures s in after && s.isActive <==> s in before && s.isActive && s.id != id {
      if s in after && s.isActive {
        var i :| 0 <= i < |after| && after[i] == s;
        assert order[i] != id;
        assert before[i] == s;
      }
      if s in before && s.isActive && s.id != id {
        var i :| 0 <= i < |before| && before[i] == s;
        assert after[i] == s;
      }
    }
  }

  // ---------------------------------------------------------------------
  // Listing
  // ---------------------------------------------------------------------

  /** The fields the listing can be ordered by, and the two directions. */
  datatype SortField = ByName | ByPrice | ByStock | ByCreatedAt
  datatype SortOrder = Asc | Desc

  /** The listing's query string, numbers already parsed and the sort
      parameters already matched against their allowed values by the query
      guard; `isActive` is kept as the raw string. */
  datatype SweetQuery = SweetQuery(
    page: Option<int>,
    limit: Option<int>,
    category: Option<string>,
    search: Option<string>,
    isActive: Option<string>,
    sortBy: Option<SortField>,
    sortOrder: Option<SortOrder>)

  /** What the query guard lets through: a page of at least 1 and a limit
      from 1 to 100 when given. */
  predicate ValidSweetQuery(q: SweetQuery)
  {
    && (q.page.None? || q.page.value >= 1)
    && (q.limit.None? || 1 <= q.limit.value <= 100)
  }

  /** Whether `needle` occurs in `hay`, ignoring the case of ASCII letters. */
  predicate ContainsIgnoringCase(hay: string, needle: string)
  {
    Find(Lower(hay), Lower(needle))
  }

  /** The `where` clause: each part applies only when its parameter is
      given (and, for `category` and `search`, non-empty). */
  predicate Listed(q: SweetQuery, s: Sweet)
  {
    && (q.category.None? || q.category.value == "" || Lower(s.category) == Lower(q.category.value))
    && (q.search.None? || q.search.value == ""
        || ContainsIgnoringCase(s.name, q.search.value)
        || (s.description.Some? && ContainsIgnoringCase(s.description.value, q.search.value)))
    && (q.isActive.None? || s.isActive == (q.isActive.value == "true"))
  }

  /** The sweets the `where` clause keeps, in store order. */
  function ListedIn(catalog: seq<Sweet>, q: SweetQuery): (r: seq<Sweet>)
    ensures forall s :: s in r <==> s in catalog && Listed(q, s)
  {
    Select(catalog, s => Listed(q, s))
  }

  /** Any `isActive` value other than the exact string "true" lists the
      inactive sweets only. */
  lemma ActiveFilterIsLiteral(q: SweetQuery, s: Sweet)
    requires q.isActive.Some? && q.isActive.value != "true"
    requires Listed(q, s)
    ensures !s.isActive
  {
  }

  /** The `orderBy` clause as a comparator (sweetController.js defaults to
      `createdAt`, descending). Names compare by code point. */
  function OrderOf(field: SortField, dir: SortOrder): (le: (Sweet, Sweet) -> bool)
    ensures TotalPreorder(le)
  {
    LexLeIsTotalPreorder();
    var asc: (Sweet, Sweet) -> bool :=
      match field
      case ByName => (a: Sweet, b: Sweet) => LexLe(a.name, b.name)
      case ByPrice => (a: Sweet, b: Sweet) => a.price <= b.price
      case ByStock => (a: Sweet, b: Sweet) => a.stock <= b.stock
      case ByCreatedAt => (a: Sweet, b: Sweet) => a.createdAt <= b.createdAt;
    if dir == Asc then asc else (a: Sweet, b: Sweet) => asc(b, a)
  }

  /** The 200 answer of the listing. */
  datatype SweetPage = SweetPage(sweets: seq<Sweet>, pagination: PageInfo)

  /** `getAllSweets` over the sweet table `catalog` (page 1, limit 10,
      newest first by default). */
  function GetAllSweets(catalog: seq<Sweet>, q: SweetQuery): (r: SweetPage)
    requires ValidSweetQuery(q)
    ensures var page := if q.page.Some? then q.page.value else 1;
            var limit := if q.limit.Some? then q.limit.value else 10;
            var le := OrderOf(if q.sortBy.Some? then q.sortBy.value else ByCreatedAt,
                              if q.sortOrder.Some? then q.sortOrder.value else Desc);
            && r.sweets == Window(SortBy(ListedIn(catalog, q), le), Skip(page, limit), limit)
            && r.pagination == Paginate(page, limit, |ListedIn(catalog, q)|)
            && |r.sweets| <= limit
            && SortedBy(r.sweets, le)
    ensures forall s :: s in r.sweets ==> s in catalog && Listed(q, s)
  {
    var page := if q.page.Some? then q.page.value else 1;
    var limit := if q.limit.Some? then q.limit.value else 10;
    var le := OrderOf(if q.sortBy.Some? then q.sortBy.value else ByCreatedAt,
                      if q.sortOrder.Some? then q.sortOrder.value else Desc);
    var listed := ListedIn(catalog, q);
    var sorted := SortBy(listed, le);
    var shown := Window(sorted, Skip(page, limit), limit);
    WindowSorted(sorted, Skip(page, limit), limit, le);
    forall s | s in shown ensures s in catalog && Listed(q, s) {
      assert s in sorted;
      assert s in multiset(sorted);
    }
    SweetPage(shown, Paginate(page, limit, |listed|))
  }

  // ---------------------------------------------------------------------
  // Categories
  // ---------------------------------------------------------------------

  /** The 200 answer of the category list. */
  datatype Categories = Categories(categories: seq<CategoryCount>, total: nat)

  /** `getSweetCategories`: the active sweets grouped by category, in
      ascending order of category, with the number of groups. */
  function GetSweetCategories(catalog: seq<Sweet>): (r: Categories)
    ensures r.total == |r.categories|
    ensures forall i, j :: 0 <= i < j < |r.categories| ==>
              LexLe(r.categories[i].category, r.categories[j].category)
              && r.categories[i].category != r.categories[j].category
    ensures forall i :: 0 <= i < |r.categories| ==>
              r.categories[i].count == CountCategory(Active(catalog), r.categories[i].category)
              && r.categories[i].count > 0
    ensures forall s :: s in catalog && s.isActive ==>
              exists i :: 0 <= i < |r.categories| && r.categories[i].category == s.category
  {
    var groups := GroupByCategory(Active(catalog));
    Categories(groups, |groups|)
  }
}
