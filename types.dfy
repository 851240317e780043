/** The entities of the warehouse custody system: tool units, log entries and instructors. */
module Types {

  datatype Option<T> = None | Some(value: T)

  /** The four legal states of a physical unit. `Maintenance` is legal but no handler produces it. */
  datatype ItemStatus = Available | CheckedOut | Maintenance | PendingReturn

  /** The kinds of custody log entries. There is no rejection kind. */
  datatype TransactionType = Checkout | Return | AddItem | ReturnRequest

  datatype Instructor = Instructor(id: string, name: string, password: string)

  /** One physical unit. `currentHolder` and `addedBy` are optional fields. */
  datatype Item = Item(
    id: string,
    name: string,
    category: string,
    status: ItemStatus,
    currentHolder: Option<string>,
    lastUpdated: string,
    addedBy: Option<string>)

  /** The fields of an item a caller supplies when adding stock (an item without `id` and `lastUpdated`). */
  datatype ItemData = ItemData(
    name: string,
    category: string,
    status: ItemStatus,
    currentHolder: Option<string>,
    addedBy: Option<string>)

  /** An immutable custody log entry; `kind` is the source's `type` field. */
  datatype Transaction = Transaction(
    id: string,
    itemId: string,
    itemName: string,
    instructorName: string,
    kind: TransactionType,
    timestamp: string)

  /** A status in which some instructor holds the unit. */
  predicate InCustody(st: ItemStatus)
  {
    st == CheckedOut || st == PendingReturn
  }

  /** The holder invariant for one unit: a holder is recorded exactly when the unit is in custody. */
  predicate HolderConsistent(it: Item)
  {
    it.currentHolder.Some? <==> InCustody(it.status)
  }

  /** JavaScript's `s || fallback` on an optional string: both a missing and an empty string are falsy. */
  function OrElse(s: Option<string>, fallback: string): (r: string)
    ensures s.Some? && s.value != "" ==> r == s.value
    ensures s.None? || s.value == "" ==> r == fallback
  {
    match s
    case Some(v) => if v != "" then v else fallback
    case None => fallback
  }

  /** JavaScript truthiness of an optional string (`if (s)`). */
  predicate Truthy(s: Option<string>)
  {
    s.Some? && s.value != ""
  }

  /** `parseInt(value) || 1`: `parsed` is `None` when `parseInt` gives NaN. NaN and 0 are falsy, so both
      become 1; any other number, negative ones included, is kept. */
  function ParsedOrOne(parsed: Option<int>): (n: int)
    ensures n != 0
    ensures parsed.None? ==> n == 1
    ensures parsed.Some? && parsed.value != 0 ==> n == parsed.value
  {
    match parsed
    case Some(v) => if v != 0 then v else 1
    case None => 1
  }

  /** A button guarded by `if (confirm(...))`: the value is handed on only when the confirmation is accepted. */
  function IfConfirmed<T>(confirmed: bool, value: T): (r: Option<T>)
    ensures r.Some? <==> confirmed
    ensures r.Some? ==> r.value == value
  {
    if confirmed then Some(value) else None
  }
}
