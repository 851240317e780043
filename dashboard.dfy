/** The supervisor dashboard: status counts and the list of units currently out with instructors. */
module Dashboard {
  import opened Types
  import opened Seqs

  /** The number of units with exactly the status `st` (`items.filter(i => i.status === st).length`). */
  function CountStatus(items: seq<Item>, st: ItemStatus): (n: nat)
    ensures n <= |items|
    ensures n == 0 <==> forall it :: it in items ==> it.status != st
  {
    Count(HasStatus(st), items)
  }

  function HasStatus(st: ItemStatus): Item -> bool
  {
    (it: Item) => it.status == st
  }

  datatype Stats = Stats(total: nat, available: nat, checkedOut: nat, pendingReturn: nat)

  /** The four cards of the dashboard. The three status cards never add up to more than the total;
      the shortfall is exactly the number of units in maintenance. */
  function ComputeStats(items: seq<Item>): (s: Stats)
    ensures s.total == |items|
    ensures s.available == CountStatus(items, Available)
    ensures s.checkedOut == CountStatus(items, CheckedOut)
    ensures s.pendingReturn == CountStatus(items, PendingReturn)
    ensures s.available + s.checkedOut + s.pendingReturn + CountStatus(items, Maintenance) == s.total
  {
    StatusPartition(items);
    Stats(|items|, CountStatus(items, Available), CountStatus(items, CheckedOut), CountStatus(items, PendingReturn))
  }

  /** Every unit has exactly one of the four statuses, so the four counts partition the inventory. */
  lemma {:induction false} StatusPartition(items: seq<Item>)
    ensures CountStatus(items, Available) + CountStatus(items, CheckedOut)
          + CountStatus(items, PendingReturn) + CountStatus(items, Maintenance) == |items|
  {
    if items != [] {
      StatusPartition(items[1..]);
      CountCons(HasStatus(Available), items);
      CountCons(HasStatus(CheckedOut), items);
      CountCons(HasStatus(PendingReturn), items);
      CountCons(HasStatus(Maintenance), items);
    }
  }

  /** Units in custody are split between the two custody statuses. */
  lemma {:induction false} CustodyCount(items: seq<Item>)
    ensures |Filter((it: Item) => InCustody(it.status), items)|
         == CountStatus(items, CheckedOut) + CountStatus(items, PendingReturn)
  {
    if items != [] {
      CustodyCount(items[1..]);
    }
  }

  /** The "current borrowers" panel: the units checked out or awaiting return approval, in inventory order. */
  function Borrowers(items: seq<Item>): (r: seq<Item>)
    ensures forall it :: it in r <==> it in items && InCustody(it.status)
    ensures IsSubseq(r, items)
    ensures |r| == ComputeStats(items).checkedOut + ComputeStats(items).pendingReturn
  {
    CustodyCount(items);
    Filter((it: Item) => InCustody(it.status), items)
  }

  /** The panel shows its empty-state message when both custody counts are zero. */
  predicate ShowsNoBorrowers(items: seq<Item>)
  {
    ComputeStats(items).checkedOut == 0 && ComputeStats(items).pendingReturn == 0
  }

  /** The empty-state message shows exactly when the borrower list is empty. */
  lemma EmptyStateIffNoBorrowers(items: seq<Item>)
    ensures ShowsNoBorrowers(items) <==> Borrowers(items) == []
  {
  }
}
