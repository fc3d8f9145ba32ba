/** The request guards that run before the inventory handlers
    (backend/dist/middleware/inventoryValidation.js). Each is a chain of
    checks; the first that fails answers 400 with its message, and `next()`
    is reached only when all pass. The guards only read the request. */
module InventoryValidation {
  import opened Js
  import opened Db

  /** `validInventoryTypes`. */
  const ValidInventoryTypes: seq<string> := ["RESTOCK", "SALE", "DAMAGE", "EXPIRED"]

  lemma ValidTypesAreTheTags(tag: string)
    ensures tag in ValidInventoryTypes <==> TypeNamed(tag).Some?
  {
  }

  /** The checks of `validateInventoryLog`, in the order they run. */
  datatype LogError =
    | MissingRequired | BadSweetId | BadType | BadQuantity | QuantityTooLarge | ReasonNotString | ReasonTooLong
  {
    /** The message of the 400 answer. */
    function Message(): string
    {
      match this
      case MissingRequired => "sweetId, type, and quantity are required"
      case BadSweetId => "sweetId must be a non-empty string"
      case BadType => "type must be one of: RESTOCK, SALE, DAMAGE, EXPIRED"
      case BadQuantity => "quantity must be a positive integer"
      case QuantityTooLarge => "quantity cannot exceed 10,000"
      case ReasonNotString => "reason must be a string"
      case ReasonTooLong => "reason must be less than 500 characters"
    }
  }

  /** The body of `POST /inventory/log`; `kind` is its `type` field. */
  datatype LogBody = LogBody(sweetId: Value, kind: Value, quantity: Value, reason: Value)

  /** What the guard lets through, said without its chain of checks: an id
      with a non-space character, a known tag, a whole quantity from 1 to
      10000, and no reason or one of at most 500 characters. */
  predicate WellFormedLogBody(b: LogBody)
  {
    && b.sweetId.Str? && !AllSpace(b.sweetId.s)
    && b.kind.Str? && TypeNamed(b.kind.s).Some?
    && b.quantity.Num? && IsInteger(b.quantity.n) && 1.0 <= b.quantity.n <= 10000.0
    && (b.reason.Undefined? || (b.reason.Str? && |b.reason.s| <= 500))
  }

  /** `validateInventoryLog`. */
  function ValidateInventoryLog(b: LogBody): (v: Verdict<LogError>)
    ensures v == Reject(MissingRequired) <==> !Truthy(b.sweetId) || !Truthy(b.kind) || b.quantity.Undefined?
  {
    if !Truthy(b.sweetId) || !Truthy(b.kind) || b.quantity.Undefined? then
      Reject(MissingRequired)
    else if !b.sweetId.Str? || Trim(b.sweetId.s) == "" then
      Reject(BadSweetId)
    else if !(b.kind.Str? && b.kind.s in ValidInventoryTypes) then
      Reject(BadType)
    else if !b.quantity.Num? || b.quantity.n <= 0.0 || !IsInteger(b.quantity.n) then
      Reject(BadQuantity)
    else if b.quantity.n > 10000.0 then
      Reject(QuantityTooLarge)
    else if !b.reason.Undefined? && !b.reason.Str? then
      Reject(ReasonNotString)
    else if b.reason.Str? && |b.reason.s| > 500 then
      Reject(ReasonTooLong)
    else
      Next
  }

  /** The guard accepts exactly the well-formed bodies. */
  lemma ValidateLogAcceptsExactly(b: LogBody)
    ensures ValidateInventoryLog(b) == Next <==> WellFormedLogBody(b)
  {
    if b.sweetId.Str? {
      TrimEmptyIffAllSpace(b.sweetId.s);
    }
    if b.kind.Str? {
      ValidTypesAreTheTags(b.kind.s);
    }
  }

  /** Once the required fields are there, each later check reports its own
      message, and only when every check before it has passed. */
  lemma {:induction false} LogRejectionOrder(b: LogBody)
    requires Truthy(b.sweetId) && Truthy(b.kind) && !b.quantity.Undefined?
    ensures b.sweetId.Str? && AllSpace(b.sweetId.s) ==> ValidateInventoryLog(b) == Reject(BadSweetId)
    ensures !b.sweetId.Str? ==> ValidateInventoryLog(b) == Reject(BadSweetId)
    ensures (b.sweetId.Str? && !AllSpace(b.sweetId.s) && !(b.kind.Str? && TypeNamed(b.kind.s).Some?))
            ==> ValidateInventoryLog(b) == Reject(BadType)
    ensures (b.sweetId.Str? && !AllSpace(b.sweetId.s) && b.kind.Str? && TypeNamed(b.kind.s).Some?
             && !(b.quantity.Num? && IsInteger(b.quantity.n) && b.quantity.n > 0.0))
            ==> ValidateInventoryLog(b) == Reject(BadQuantity)
    ensures (b.sweetId.Str? && !AllSpace(b.sweetId.s) && b.kind.Str? && TypeNamed(b.kind.s).Some?
             && b.quantity.Num? && IsInteger(b.quantity.n) && b.quantity.n > 10000.0)
            ==> ValidateInventoryLog(b) == Reject(QuantityTooLarge)
    ensures (b.sweetId.Str? && !AllSpace(b.sweetId.s) && b.kind.Str? && TypeNamed(b.kind.s).Some?
             && b.quantity.Num? && IsInteger(b.quantity.n) && 1.0 <= b.quantity.n <= 10000.0
             && !b.reason.Undefined? && !b.reason.Str?)
            ==> ValidateInventoryLog(b) == Reject(ReasonNotString)
    ensures (b.sweetId.Str? && !AllSpace(b.sweetId.s) && b.kind.Str? && TypeNamed(b.kind.s).Some?
             && b.quantity.Num? && IsInteger(b.quantity.n) && 1.0 <= b.quantity.n <= 10000.0
             && b.reason.Str? && |b.reason.s| > 500)
            ==> ValidateInventoryLog(b) == Reject(ReasonTooLong)
  {
    if b.sweetId.Str? {
      TrimEmptyIffAllSpace(b.sweetId.s);
    }
    if b.kind.Str? {
      ValidTypesAreTheTags(b.kind.s);
    }
  }

  /** The boundaries of the quantity check: 10000 passes, 10001 does not,
      and 0 and 2.5 are not positive whole numbers (0 is not taken for a
      missing quantity: that check compares with `undefined` only). */
  lemma QuantityBoundaries(id: string)
    requires !AllSpace(id)
    ensures ValidateInventoryLog(LogBody(Str(id), Str("SALE"), Num(10000.0), Undefined)) == Next
    ensures ValidateInventoryLog(LogBody(Str(id), Str("SALE"), Num(10001.0), Undefined)) == Reject(QuantityTooLarge)
    ensures ValidateInventoryLog(LogBody(Str(id), Str("SALE"), Num(0.0), Undefined)) == Reject(BadQuantity)
    ensures ValidateInventoryLog(LogBody(Str(id), Str("SALE"), Num(2.5), Undefined)) == Reject(BadQuantity)
  {
    TrimEmptyIffAllSpace(id);
    ValidTypesAreTheTags("SALE");
  }

  /** The boundary of the reason check: 500 characters pass, 501 do not. */
  lemma ReasonBoundary(id: string, reason: string)
    requires !AllSpace(id) && |reason| == 500
    ensures ValidateInventoryLog(LogBody(Str(id), Str("SALE"), Num(1.0), Str(reason))) == Next
    ensures ValidateInventoryLog(LogBody(Str(id), Str("SALE"), Num(1.0), Str(reason + "x"))) == Reject(ReasonTooLong)
  {
    TrimEmptyIffAllSpace(id);
    ValidTypesAreTheTags("SALE");
    assert |reason + "x"| == 501;
  }

  /** A request the guard accepted, with its fields at their types. */
  datatype LogRequest = LogRequest(sweetId: SweetId, kind: InventoryType, quantity: nat, reason: Option<string>)

  /** What the handler reads out of an accepted body: the guard establishes
      every precondition the handler states. */
  function ToLogRequest(b: LogBody): (r: LogRequest)
    requires ValidateInventoryLog(b) == Next
    ensures r.sweetId == b.sweetId.s && !AllSpace(r.sweetId)
    ensures r.kind.Name() == b.kind.s
    ensures r.quantity as real == b.quantity.n && 1 <= r.quantity <= 10000
    ensures r.reason.None? <==> b.reason.Undefined?
    ensures r.reason.Some? ==> b.reason == Str(r.reason.value) && |r.reason.value| <= 500
  {
    LogRequest(
      b.sweetId.s,
      TypeNamed(b.kind.s).value,
      b.quantity.n.Floor,
      if b.reason.Str? then Some(b.reason.s) else None)
  }

  /** The checks of `validateInventoryQuery`, in the order they run. */
  datatype QueryError =
    | BadPage | BadLimit | BadQueryType | BadStartDate | BadEndDate | BadLowStockThreshold | BadThreshold
  {
    function Message(): string
    {
      match this
      case BadPage => "page must be a positive integer"
      case BadLimit => "limit must be between 1 and 100"
      case BadQueryType => "type must be one of: RESTOCK, SALE, DAMAGE, EXPIRED"
      case BadStartDate => "startDate must be a valid date"
      case BadEndDate => "endDate must be a valid date"
      case BadLowStockThreshold => "lowStockThreshold must be a non-negative integer"
      case BadThreshold => "threshold must be a non-negative integer"
    }
  }

  /** The query string shared by the three read endpoints, numbers and
      dates already parsed; `kind` is its `type` parameter. */
  datatype InventoryQuery = InventoryQuery(
    page: Option<Num>,
    limit: Option<Num>,
    sweetId: Option<string>,
    kind: Option<string>,
    startDate: Option<Date>,
    endDate: Option<Date>,
    lowStockThreshold: Option<Num>,
    threshold: Option<Num>)

  /** An absent parameter, or a number in `lo..hi`. */
  predicate InRange(p: Option<Num>, lo: int, hi: Option<int>)
  {
    p.None? || (p.value.Int? && lo <= p.value.i && (hi.None? || p.value.i <= hi.value))
  }

  /** Every parameter that is present is acceptable. */
  predicate WellFormedQuery(q: InventoryQuery)
  {
    && InRange(q.page, 1, None)
    && InRange(q.limit, 1, Some(100))
    && (q.kind.None? || TypeNamed(q.kind.value).Some?)
    && (q.startDate.None? || q.startDate.value.Date?)
    && (q.endDate.None? || q.endDate.value.Date?)
    && InRange(q.lowStockThreshold, 0, None)
    && InRange(q.threshold, 0, None)
  }

  /** `validateInventoryQuery`. */
  function ValidateInventoryQuery(q: InventoryQuery): (v: Verdict<QueryError>)
    ensures v == Next <==> WellFormedQuery(q)
    ensures v == Reject(BadPage) <==> !InRange(q.page, 1, None)
    ensures v == Reject(BadLimit) <==> InRange(q.page, 1, None) && !InRange(q.limit, 1, Some(100))
  {
    if q.page.Some? && (q.page.value.NaN? || q.page.value.i < 1) then
      Reject(BadPage)
    else if q.limit.Some? && (q.limit.value.NaN? || q.limit.value.i < 1 || q.limit.value.i > 100) then
      Reject(BadLimit)
    else if q.kind.Some? && q.kind.value !in ValidInventoryTypes then
      Reject(BadQueryType)
    else if q.startDate.Some? && q.startDate.value.InvalidDate? then
      Reject(BadStartDate)
    else if q.endDate.Some? && q.endDate.value.InvalidDate? then
      Reject(BadEndDate)
    else if q.lowStockThreshold.Some? && (q.lowStockThreshold.value.NaN? || q.lowStockThreshold.value.i < 0) then
      Reject(BadLowStockThreshold)
    else if q.threshold.Some? && (q.threshold.value.NaN? || q.threshold.value.i < 0) then
      Reject(BadThreshold)
    else
      Next
  }

  /** The number a handler uses for a parameter: the parsed value, or the
      handler's default when the parameter is absent. */
  function IntOr(p: Option<Num>, default: int): (n: int)
    requires p != Some(NaN)
    ensures p.None? ==> n == default
    ensures p.Some? ==> p.value == Int(n)
  {
    if p.Some? then p.value.i else default
  }
}
