/** The application state and its handlers: the custody lifecycle of individual units, the custody log
    and the instructor roster. Every handler replaces whole state fields with new sequences. */
module Custody {
  import opened Types
  import opened Seqs
  import Dashboard

  /** The log name used for stock additions with no `addedBy` ("the supervisor"). */
  const SupervisorLabel: string := "المشرف"
  /** The `addedBy` label of a unit issued directly to an instructor ("supervisor, instant issue"). */
  const InstantIssueLabel: string := "المشرف (صرف فوري)"
  /** The log name of a return whose unit had no holder ("unknown"). */
  const UnknownHolder: string := "غير معروف"
  /** The password of a new or reset instructor. */
  const DefaultPassword: string := "1234"

  // ---------------------------------------------------------------------------------------------
  // Lookups

  function HasItemId(id: string): Item -> bool
  {
    (it: Item) => it.id == id
  }

  function HasInstructorId(id: string): Instructor -> bool
  {
    (i: Instructor) => i.id == id
  }

  /** `items.find(i => i.id === id)`: the first unit with that id. */
  function FindItem(items: seq<Item>, id: string): (r: Option<Item>)
    ensures r.None? <==> forall it :: it in items ==> it.id != id
    ensures r.Some? ==> r.value in items && r.value.id == id
    ensures r.Some? ==> r.value == items[FirstIndex(HasItemId(id), items)]
  {
    var k := FirstIndex(HasItemId(id), items);
    if k < |items| then Some(items[k]) else None
  }

  /** `instructors.find(i => i.id === id)`: the first instructor with that id. */
  function FindInstructor(roster: seq<Instructor>, id: string): (r: Option<Instructor>)
    ensures r.None? <==> forall i :: i in roster ==> i.id != id
    ensures r.Some? ==> r.value in roster && r.value.id == id
    ensures r.Some? ==> r.value == roster[FirstIndex(HasInstructorId(id), roster)]
  {
    var k := FirstIndex(HasInstructorId(id), roster);
    if k < |roster| then Some(roster[k]) else None
  }

  // ---------------------------------------------------------------------------------------------
  // Single-unit transitions (the object literals built inside each handler's `map`)

  /** A new stock unit: the supplied fields, a fresh id and timestamp, and status forced to Available. */
  function NewUnit(data: ItemData, id: string, now: string): Item
  {
    Item(id, data.name, data.category, Available, data.currentHolder, now, data.addedBy)
  }

  /** The AddItem log entry of a new unit. */
  function AddEntry(unit: Item, txId: string, now: string): Transaction
  {
    Transaction(txId, unit.id, unit.name, OrElse(unit.addedBy, SupervisorLabel), AddItem, now)
  }

  function CheckedOutUnit(it: Item, holder: string, now: string): Item
  {
    it.(status := CheckedOut, currentHolder := Some(holder), lastUpdated := now)
  }

  function PendingUnit(it: Item, now: string): Item
  {
    it.(status := PendingReturn, lastUpdated := now)
  }

  function ReturnedUnit(it: Item, now: string): Item
  {
    it.(status := Available, currentHolder := None, lastUpdated := now)
  }

  /** A unit created directly in custody by the instant-issue path. */
  function ManualUnit(name: string, category: string, holder: string, id: string, now: string): Item
  {
    Item(id, name, category, CheckedOut, Some(holder), now, Some(InstantIssueLabel))
  }

  /** The identity fields no transition touches. */
  predicate SameUnit(a: Item, b: Item)
  {
    a.id == b.id && a.name == b.name && a.category == b.category && a.addedBy == b.addedBy
  }

  // ---------------------------------------------------------------------------------------------
  // List-level transforms (`items.map(...)`, `instructors.map(...)`, `instructors.filter(...)`)

  /** `items.map(it => it.id === id ? f(it) : it)`. */
  function MapMatching(items: seq<Item>, id: string, f: Item -> Item): (r: seq<Item>)
    ensures |r| == |items|
    ensures forall k :: 0 <= k < |items| ==> r[k] == if items[k].id == id then f(items[k]) else items[k]
  {
    seq(|items|, k requires 0 <= k < |items| => if items[k].id == id then f(items[k]) else items[k])
  }

  /** The item list handleCheckout computes: every unit with the id becomes CheckedOut to `holder`,
      whatever its previous status; every other unit is untouched. */
  function CheckOutMatching(items: seq<Item>, id: string, holder: string, now: string): (r: seq<Item>)
    ensures |r| == |items|
    ensures forall k :: 0 <= k < |items| && items[k].id != id ==> r[k] == items[k]
    ensures forall k :: 0 <= k < |items| && items[k].id == id ==>
      SameUnit(r[k], items[k]) && r[k].status == CheckedOut && r[k].currentHolder == Some(holder) && r[k].lastUpdated == now
  {
    MapMatching(items, id, (it: Item) => CheckedOutUnit(it, holder, now))
  }

  /** The item list handleRequestReturn computes: every unit with the id becomes PendingReturn and keeps
      whatever holder it had; every other unit is untouched. */
  function MarkPendingMatching(items: seq<Item>, id: string, now: string): (r: seq<Item>)
    ensures |r| == |items|
    ensures forall k :: 0 <= k < |items| && items[k].id != id ==> r[k] == items[k]
    ensures forall k :: 0 <= k < |items| && items[k].id == id ==>
      SameUnit(r[k], items[k]) && r[k].status == PendingReturn
      && r[k].currentHolder == items[k].currentHolder && r[k].lastUpdated == now
  {
    MapMatching(items, id, (it: Item) => PendingUnit(it, now))
  }

  /** The item list handleApproveReturn computes: every unit with the id becomes Available with no
      holder; every other unit is untouched. */
  function ReturnMatching(items: seq<Item>, id: string, now: string): (r: seq<Item>)
    ensures |r| == |items|
    ensures forall k :: 0 <= k < |items| && items[k].id != id ==> r[k] == items[k]
    ensures forall k :: 0 <= k < |items| && items[k].id == id ==>
      SameUnit(r[k], items[k]) && r[k].status == Available && r[k].currentHolder.None? && r[k].lastUpdated == now
  {
    MapMatching(items, id, (it: Item) => ReturnedUnit(it, now))
  }

  /** The units handleAddItem's loop creates, one per supplied id, in creation order. */
  function NewUnits(data: ItemData, ids: seq<string>, now: string): (r: seq<Item>)
    ensures |r| == |ids|
    ensures forall k :: 0 <= k < |ids| ==>
      r[k].id == ids[k] && r[k].status == Available && r[k].name == data.name && r[k].category == data.category
      && r[k].currentHolder == data.currentHolder && r[k].addedBy == data.addedBy && r[k].lastUpdated == now
  {
    seq(|ids|, k requires 0 <= k < |ids| => NewUnit(data, ids[k], now))
  }

  /** The AddItem entries handleAddItem's loop creates, one per unit, in creation order. */
  function AddEntries(units: seq<Item>, txIds: seq<string>, now: string): (r: seq<Transaction>)
    requires |units| == |txIds|
    ensures |r| == |units|
    ensures forall k :: 0 <= k < |units| ==>
      r[k].id == txIds[k] && r[k].itemId == units[k].id && r[k].itemName == units[k].name
      && r[k].kind == AddItem && r[k].instructorName == OrElse(units[k].addedBy, SupervisorLabel)
      && r[k].timestamp == now
  {
    seq(|units|, k requires 0 <= k < |units| => AddEntry(units[k], txIds[k], now))
  }

  /** `instructors.map(inst => inst.id === updated.id ? updated : inst)`. */
  function ReplaceInstructor(roster: seq<Instructor>, updated: Instructor): (r: seq<Instructor>)
    ensures |r| == |roster|
    ensures forall k :: 0 <= k < |roster| && roster[k].id != updated.id ==> r[k] == roster[k]
    ensures forall k :: 0 <= k < |roster| && roster[k].id == updated.id ==> r[k] == updated
  {
    seq(|roster|, k requires 0 <= k < |roster| => if roster[k].id == updated.id then updated else roster[k])
  }

  /** `instructors.filter(i => i.id !== id)`: exactly the entries with that id disappear. */
  function RemoveInstructor(roster: seq<Instructor>, id: string): (r: seq<Instructor>)
    ensures forall i :: i in r <==> i in roster && i.id != id
    ensures forall i: Instructor :: i.id != id ==> multiset(r)[i] == multiset(roster)[i]
    ensures IsSubseq(r, roster)
  {
    Filter((i: Instructor) => i.id != id, roster)
  }

  /** `instructors.map(inst => inst.id === id ? { ...inst, password: '1234' } : inst)`. */
  function ResetPasswordOf(roster: seq<Instructor>, id: string): (r: seq<Instructor>)
    ensures |r| == |roster|
    ensures forall k :: 0 <= k < |roster| && roster[k].id != id ==> r[k] == roster[k]
    ensures forall k :: 0 <= k < |roster| && roster[k].id == id ==>
      r[k].id == id && r[k].name == roster[k].name && r[k].password == DefaultPassword
  {
    seq(|roster|, k requires 0 <= k < |roster| =>
      if roster[k].id == id then roster[k].(password := DefaultPassword) else roster[k])
  }

  // ---------------------------------------------------------------------------------------------
  // Invariants

  /** The holder invariant over the whole inventory. */
  predicate AllHoldersConsistent(items: seq<Item>)
  {
    forall it :: it in items ==> HolderConsistent(it)
  }

  /** Ids are distinct (what fresh ids from the id generator give). */
  predicate UniqueIds(items: seq<Item>)
  {
    forall i, j :: 0 <= i < j < |items| ==> items[i].id != items[j].id
  }

  /** With distinct ids, mapping over the matching id changes exactly one position. */
  lemma MapMatchingUnique(items: seq<Item>, k: nat, f: Item -> Item)
    requires UniqueIds(items) && k < |items|
    ensures MapMatching(items, items[k].id, f) == items[k := f(items[k])]
  {
  }

  /** Check-out always leaves the holder invariant intact: the unit gets both the status and the holder. */
  lemma CheckoutKeepsHolderInvariant(items: seq<Item>, id: string, holder: string, now: string)
    requires AllHoldersConsistent(items)
    ensures AllHoldersConsistent(CheckOutMatching(items, id, holder, now))
  {
    var r := CheckOutMatching(items, id, holder, now);
    forall it | it in r ensures HolderConsistent(it) {
      var k :| 0 <= k < |r| && r[k] == it;
      assert items[k] in items;
    }
  }

  /** A return request keeps the invariant only under the portal's precondition that the unit is in custody
      (the portal offers the request for CheckedOut units only); the handler itself checks nothing. */
  lemma RequestReturnKeepsHolderInvariant(items: seq<Item>, id: string, now: string)
    requires AllHoldersConsistent(items)
    requires forall it :: it in items && it.id == id ==> InCustody(it.status)
    ensures AllHoldersConsistent(MarkPendingMatching(items, id, now))
  {
    var r := MarkPendingMatching(items, id, now);
    forall it | it in r ensures HolderConsistent(it) {
      var k :| 0 <= k < |r| && r[k] == it;
      assert items[k] in items;
    }
  }

  /** Without that precondition the invariant breaks: a request on an Available unit yields a PendingReturn
      unit with no holder. */
  lemma RequestReturnOnAvailableBreaksInvariant()
    ensures var it := Item("u1", "Drill", "Tools", Available, None, "t0", None);
            AllHoldersConsistent([it]) && !AllHoldersConsistent(MarkPendingMatching([it], "u1", "t1"))
  {
    var it := Item("u1", "Drill", "Tools", Available, None, "t0", None);
    assert MarkPendingMatching([it], "u1", "t1")[0] in MarkPendingMatching([it], "u1", "t1");
  }

  /** Approval always leaves the holder invariant intact: the unit becomes Available and loses its holder. */
  lemma ApproveKeepsHolderInvariant(items: seq<Item>, id: string, now: string)
    requires AllHoldersConsistent(items)
    ensures AllHoldersConsistent(ReturnMatching(items, id, now))
  {
    var r := ReturnMatching(items, id, now);
    forall it | it in r ensures HolderConsistent(it) {
      var k :| 0 <= k < |r| && r[k] == it;
      assert items[k] in items;
    }
  }

  /** Added stock keeps the invariant when the supplied fields carry no holder (the inventory form never
      sets one); the handler copies whatever holder the caller passes. */
  lemma AddItemKeepsHolderInvariant(items: seq<Item>, data: ItemData, ids: seq<string>, now: string)
    requires AllHoldersConsistent(items)
    requires data.currentHolder.None?
    ensures AllHoldersConsistent(items + NewUnits(data, ids, now))
  {
    var added := NewUnits(data, ids, now);
    forall it | it in items + added ensures HolderConsistent(it) {
      if it !in items {
        var k :| 0 <= k < |added| && added[k] == it;
      }
    }
  }

  /** Check-out of an Available unit with a unique id moves exactly one unit from Available to CheckedOut,
      so a requested quantity above one is never honoured by this handler. */
  lemma CheckoutMovesOneUnit(items: seq<Item>, k: nat, holder: string, now: string)
    requires UniqueIds(items) && k < |items| && items[k].status == Available
    ensures var r := CheckOutMatching(items, items[k].id, holder, now);
            Dashboard.CountStatus(r, Available) + 1 == Dashboard.CountStatus(items, Available)
            && Dashboard.CountStatus(r, CheckedOut) == Dashboard.CountStatus(items, CheckedOut) + 1
  {
    var v := CheckedOutUnit(items[k], holder, now);
    MapMatchingUnique(items, k, (it: Item) => CheckedOutUnit(it, holder, now));
    CountUpdate(Dashboard.HasStatus(Available), items, k, v);
    CountUpdate(Dashboard.HasStatus(CheckedOut), items, k, v);
  }

  /** Added stock raises the Available count by exactly the number of new units. */
  lemma AddItemRaisesAvailable(items: seq<Item>, data: ItemData, ids: seq<string>, now: string)
    ensures Dashboard.CountStatus(items + NewUnits(data, ids, now), Available)
         == Dashboard.CountStatus(items, Available) + |ids|
  {
    var added := NewUnits(data, ids, now);
    FilterConcat(Dashboard.HasStatus(Available), items, added);
    FilterAll(Dashboard.HasStatus(Available), added);
  }

  /** Instant issue creates no Available unit: the Available count is unchanged. */
  lemma ManualCheckoutAddsNoAvailable(items: seq<Item>, name: string, category: string, holder: string, id: string, now: string)
    ensures Dashboard.CountStatus(items + [ManualUnit(name, category, holder, id, now)], Available)
         == Dashboard.CountStatus(items, Available)
  {
    FilterSnoc(Dashboard.HasStatus(Available), items, ManualUnit(name, category, holder, id, now));
  }

  /** Check-out, return request and approval bring a held-free Available unit back to where it started:
      only its timestamp differs, and no other unit changes. */
  lemma CustodyRoundTrip(items: seq<Item>, k: nat, holder: string, t1: string, t2: string, t3: string)
    requires UniqueIds(items) && k < |items|
    requires items[k].status == Available && items[k].currentHolder.None?
    ensures var id := items[k].id;
            ReturnMatching(MarkPendingMatching(CheckOutMatching(items, id, holder, t1), id, t2), id, t3)
            == items[k := items[k].(lastUpdated := t3)]
  {
    var id := items[k].id;
    var a := CheckOutMatching(items, id, holder, t1);
    MapMatchingUnique(items, k, (it: Item) => CheckedOutUnit(it, holder, t1));
    assert UniqueIds(a);
    var b := MarkPendingMatching(a, id, t2);
    MapMatchingUnique(a, k, (it: Item) => PendingUnit(it, t2));
    assert UniqueIds(b);
    MapMatchingUnique(b, k, (it: Item) => ReturnedUnit(it, t3));
  }

  // ---------------------------------------------------------------------------------------------
  // The application state

  /** How many times handleAddItem's `for (let i = 0; i < quantity; i++)` runs. */
  function Units(quantity: int): nat
  {
    if quantity <= 0 then 0 else quantity
  }

  class Warehouse {
    var items: seq<Item>
    var transactions: seq<Transaction>
    var instructors: seq<Instructor>

    /** The state as loaded at start-up. */
    constructor (storedItems: seq<Item>, storedLog: seq<Transaction>, storedRoster: seq<Instructor>)
      ensures items == storedItems && transactions == storedLog && instructors == storedRoster
    {
      items, transactions, instructors := storedItems, storedLog, storedRoster;
    }

    /** handleUpdateInstructor: the entry with the updated instructor's id is replaced. */
    method HandleUpdateInstructor(updated: Instructor)
      modifies this
      ensures instructors == ReplaceInstructor(old(instructors), updated)
      ensures items == old(items) && transactions == old(transactions)
    {
      var updatedList := ReplaceInstructor(instructors, updated);
      instructors := updatedList;
    }

    /** handleAddInstructor: one instructor with the default password is appended. */
    method HandleAddInstructor(name: string, newId: string)
      modifies this
      ensures instructors == old(instructors) + [Instructor(newId, name, DefaultPassword)]
      ensures items == old(items) && transactions == old(transactions)
    {
      var newInstructor := Instructor(newId, name, DefaultPassword);
      instructors := instructors + [newInstructor];
    }

    /** handleDeleteInstructor: every entry with the id is removed. */
    method HandleDeleteInstructor(id: string)
      modifies this
      ensures instructors == RemoveInstructor(old(instructors), id)
      ensures items == old(items) && transactions == old(transactions)
    {
      instructors := RemoveInstructor(instructors, id);
    }

    /** handleResetPassword: the password of every entry with the id becomes the default. */
    method HandleResetPassword(id: string)
      modifies this
      ensures instructors == ResetPasswordOf(old(instructors), id)
      ensures items == old(items) && transactions == old(transactions)
    {
      instructors := ResetPasswordOf(instructors, id);
    }

    /** handleAddItem: `quantity` new Available units are appended after the existing ones, and their AddItem
        entries, in reverse creation order, are put in front of the log. `unitIds` and `txIds` are the values
        the id generator returns, one per loop iteration; `now` is the single timestamp the handler reads. */
    method HandleAddItem(data: ItemData, quantity: int, unitIds: seq<string>, txIds: seq<string>, now: string)
      requires |unitIds| == Units(quantity) && |txIds| == Units(quantity)
      modifies this
      ensures items == old(items) + NewUnits(data, unitIds, now)
      ensures transactions == Reverse(AddEntries(NewUnits(data, unitIds, now), txIds, now)) + old(transactions)
      ensures instructors == old(instructors)
      ensures AllHoldersConsistent(old(items)) && data.currentHolder.None? ==> AllHoldersConsistent(items)
    {
      var newItems: seq<Item> := [];
      var newTransactions: seq<Transaction> := [];
      var i := 0;
      while i < quantity
        invariant 0 <= i <= Units(quantity)
        invariant newItems == NewUnits(data, unitIds[..i], now)
        invariant newTransactions == AddEntries(newItems, txIds[..i], now)
      {
        var newItem := NewUnit(data, unitIds[i], now);
        newItems := newItems + [newItem];
        newTransactions := newTransactions + [AddEntry(newItem, txIds[i], now)];
        i := i + 1;
        assert unitIds[..i] == unitIds[..i - 1] + [unitIds[i - 1]];
        assert txIds[..i] == txIds[..i - 1] + [txIds[i - 1]];
      }
      assert unitIds[..i] == unitIds && txIds[..i] == txIds;
      if AllHoldersConsistent(items) && data.currentHolder.None? {
        AddItemKeepsHolderInvariant(items, data, unitIds, now);
      }
      items := items + newItems;
      newTransactions := Reverse(newTransactions);
      transactions := newTransactions + transactions;
    }

    /** handleCheckout: an unknown id changes nothing; otherwise every unit with the id is checked out to
        `instructorName` and one Checkout entry is put in front of the log. No status is checked. */
    method HandleCheckout(itemId: string, instructorName: string, txId: string, now: string)
      modifies this
      ensures instructors == old(instructors)
      ensures FindItem(old(items), itemId).None? ==> items == old(items) && transactions == old(transactions)
      ensures FindItem(old(items), itemId).Some? ==>
        items == CheckOutMatching(old(items), itemId, instructorName, now)
        && transactions == [Transaction(txId, itemId, FindItem(old(items), itemId).value.name,
                                        instructorName, Checkout, now)] + old(transactions)
      ensures AllHoldersConsistent(old(items)) ==> AllHoldersConsistent(items)
    {
      var updatedItems := CheckOutMatching(items, itemId, instructorName, now);
      var item := FindItem(items, itemId);
      if item.None? {
        return;
      }
      var newTransaction := Transaction(txId, itemId, item.value.name, instructorName, Checkout, now);
      if AllHoldersConsistent(items) {
        CheckoutKeepsHolderInvariant(items, itemId, instructorName, now);
      }
      items := updatedItems;
      transactions := [newTransaction] + transactions;
    }

    /** handleManualCheckout: one new unit, already CheckedOut to `instructorName` and labelled as an instant
        issue, is appended, and one Checkout entry is put in front of the log. */
    method HandleManualCheckout(name: string, category: string, instructorName: string,
                                newItemId: string, txId: string, now: string)
      modifies this
      ensures items == old(items) + [ManualUnit(name, category, instructorName, newItemId, now)]
      ensures transactions == [Transaction(txId, newItemId, name, instructorName, Checkout, now)] + old(transactions)
      ensures instructors == old(instructors)
      ensures AllHoldersConsistent(old(items)) ==> AllHoldersConsistent(items)
    {
      var newItem := ManualUnit(name, category, instructorName, newItemId, now);
      var newTransaction := Transaction(txId, newItemId, newItem.name, instructorName, Checkout, now);
      items := items + [newItem];
      transactions := [newTransaction] + transactions;
    }

    /** handleRequestReturn: an unknown id changes nothing; otherwise every unit with the id becomes
        PendingReturn keeping its holder, and one ReturnRequest entry naming `instructorName` is put in
        front of the log. */
    method HandleRequestReturn(itemId: string, instructorName: string, txId: string, now: string)
      modifies this
      ensures instructors == old(instructors)
      ensures FindItem(old(items), itemId).None? ==> items == old(items) && transactions == old(transactions)
      ensures FindItem(old(items), itemId).Some? ==>
        items == MarkPendingMatching(old(items), itemId, now)
        && transactions == [Transaction(txId, itemId, FindItem(old(items), itemId).value.name,
                                        instructorName, ReturnRequest, now)] + old(transactions)
      ensures AllHoldersConsistent(old(items)) && (forall it :: it in old(items) && it.id == itemId ==> InCustody(it.status))
              ==> AllHoldersConsistent(items)
    {
      var item := FindItem(items, itemId);
      if item.None? {
        return;
      }
      var updatedItems := MarkPendingMatching(items, itemId, now);
      var newTransaction := Transaction(txId, itemId, item.value.name, instructorName, ReturnRequest, now);
      if AllHoldersConsistent(items) && (forall it :: it in items && it.id == itemId ==> InCustody(it.status)) {
        RequestReturnKeepsHolderInvariant(items, itemId, now);
      }
      items := updatedItems;
      transactions := [newTransaction] + transactions;
    }

    /** handleApproveReturn: an unknown id changes nothing; otherwise every unit with the id becomes Available
        with no holder, and one Return entry naming the holder being cleared (or the "unknown" placeholder)
        is put in front of the log. */
    method HandleApproveReturn(itemId: string, txId: string, now: string)
      modifies this
      ensures instructors == old(instructors)
      ensures FindItem(old(items), itemId).None? ==> items == old(items) && transactions == old(transactions)
      ensures FindItem(old(items), itemId).Some? ==>
        items == ReturnMatching(old(items), itemId, now)
        && transactions == [Transaction(txId, itemId, FindItem(old(items), itemId).value.name,
                                        OrElse(FindItem(old(items), itemId).value.currentHolder, UnknownHolder),
                                        Return, now)] + old(transactions)
      ensures AllHoldersConsistent(old(items)) ==> AllHoldersConsistent(items)
    {
      var item := FindItem(items, itemId);
      if item.None? {
        return;
      }
      var instructorName := OrElse(item.value.currentHolder, UnknownHolder);
      var updatedItems := ReturnMatching(items, itemId, now);
      var newTransaction := Transaction(txId, itemId, item.value.name, instructorName, Return, now);
      if AllHoldersConsistent(items) {
        ApproveKeepsHolderInvariant(items, itemId, now);
      }
      items := updatedItems;
      transactions := [newTransaction] + transactions;
    }
  }

  // ---------------------------------------------------------------------------------------------
  // Clients: what a caller can conclude from the handler contracts alone

  /** Check-out, return request and approval of one Available unit restore the inventory (up to that unit's
      timestamp) and log exactly one Checkout, one ReturnRequest and one Return entry, newest first. */
  method CheckoutRequestApprove(w: Warehouse, k: nat, holder: string,
                                tx1: string, tx2: string, tx3: string, t1: string, t2: string, t3: string)
    requires UniqueIds(w.items) && k < |w.items|
    requires w.items[k].status == Available && w.items[k].currentHolder.None?
    requires holder != ""
    modifies w
    ensures w.items == old(w.items)[k := old(w.items)[k].(lastUpdated := t3)]
    ensures |w.transactions| == |old(w.transactions)| + 3 && w.transactions[3..] == old(w.transactions)
    ensures w.transactions[0].kind == Return && w.transactions[0].instructorName == holder
    ensures w.transactions[1].kind == ReturnRequest && w.transactions[1].instructorName == holder
    ensures w.transactions[2].kind == Checkout && w.transactions[2].instructorName == holder
    ensures forall j :: 0 <= j < 3 ==> w.transactions[j].itemId == old(w.items)[k].id
  {
    var id := w.items[k].id;
    ghost var start := w.items;
    ghost var log := w.transactions;
    FindUnique(start, k);
    w.HandleCheckout(id, holder, tx1, t1);
    MapMatchingUnique(start, k, (it: Item) => CheckedOutUnit(it, holder, t1));
    ghost var a := w.items;
    assert a == start[k := CheckedOutUnit(start[k], holder, t1)];
    UniqueIdsUpdate(start, k, CheckedOutUnit(start[k], holder, t1));
    FindUnique(a, k);
    w.HandleRequestReturn(id, holder, tx2, t2);
    MapMatchingUnique(a, k, (it: Item) => PendingUnit(it, t2));
    ghost var b := w.items;
    assert b == a[k := PendingUnit(a[k], t2)];
    UniqueIdsUpdate(a, k, PendingUnit(a[k], t2));
    FindUnique(b, k);
    assert b[k].currentHolder == Some(holder);
    ghost var log2 := w.transactions;
    w.HandleApproveReturn(id, tx3, t3);
    CustodyRoundTrip(start, k, holder, t1, t2, t3);
    assert w.transactions == [w.transactions[0]] + log2;
    assert log2 == [log2[0]] + ([log2[1]] + log);
    assert w.transactions[3..] == log;
  }

  /** With distinct ids, the lookup of a unit's id finds that unit. */
  lemma FindUnique(items: seq<Item>, k: nat)
    requires UniqueIds(items) && k < |items|
    ensures FindItem(items, items[k].id) == Some(items[k])
  {
    var j := FirstIndex(HasItemId(items[k].id), items);
    assert j <= k;
  }

  /** Replacing one unit by one with the same id keeps the ids distinct. */
  lemma UniqueIdsUpdate(items: seq<Item>, k: nat, v: Item)
    requires UniqueIds(items) && k < |items| && v.id == items[k].id
    ensures UniqueIds(items[k := v])
  {
  }

  /** Approving the same unit twice is not refused: the second approval logs a second Return entry, naming the
      "unknown" placeholder because the holder is already cleared. */
  method ApproveTwice(w: Warehouse, id: string, tx1: string, tx2: string, t1: string, t2: string)
    requires exists it :: it in w.items && it.id == id
    modifies w
    ensures |w.transactions| == |old(w.transactions)| + 2
    ensures w.transactions[0].kind == Return && w.transactions[0].instructorName == UnknownHolder
    ensures w.transactions[1].kind == Return
  {
    w.HandleApproveReturn(id, tx1, t1);
    var k := FirstIndex(HasItemId(id), w.items);
    assert w.items[k] in w.items;
    w.HandleApproveReturn(id, tx2, t2);
  }
}
