/** The supervisor's stock form: a name, a category and a quantity become that many new Available units. */
module InventoryManager {
  import opened Types
  import Custody
  import Dashboard

  /** The guard of `handleSubmit`: name and category non-empty and a positive quantity. */
  predicate AddAllowed(name: string, category: string, quantity: int)
  {
    name != "" && category != "" && quantity > 0
  }

  /** The submit button's `disabled` condition. */
  predicate SubmitDisabled(name: string, category: string, quantity: int)
  {
    name == "" || category == "" || quantity < 1
  }

  /** On whole numbers the button is disabled exactly when the guard would refuse. */
  lemma DisabledIffRefused(name: string, category: string, quantity: int)
    ensures SubmitDisabled(name, category, quantity) <==> !AddAllowed(name, category, quantity)
  {
  }

  /** The item data handed to `onAddItem`: the typed name and category, Available, with no holder and no
      `addedBy`. */
  function StockData(name: string, category: string): (d: ItemData)
    ensures d.name == name && d.category == category
    ensures d.status == Available && d.currentHolder.None? && d.addedBy.None?
  {
    ItemData(name, category, Available, None, None)
  }

  /** The call `handleSubmit` makes. */
  datatype AddCall = AddCall(data: ItemData, quantity: int)

  function DecideAdd(name: string, category: string, quantity: int): (r: Option<AddCall>)
    ensures r.Some? <==> AddAllowed(name, category, quantity)
    ensures r.Some? ==> r.value.data == StockData(name, category) && r.value.quantity == quantity
                        && Custody.Units(r.value.quantity) == quantity
  {
    if AddAllowed(name, category, quantity) then Some(AddCall(StockData(name, category), quantity)) else None
  }

  /** Stock added from the form keeps the holder invariant and raises the Available count by the quantity. */
  lemma {:induction false} FormStockIsAvailable(items: seq<Item>, name: string, category: string, quantity: int,
                                                ids: seq<string>, now: string)
    requires DecideAdd(name, category, quantity).Some? && |ids| == quantity
    ensures var call := DecideAdd(name, category, quantity).value;
      var after := items + Custody.NewUnits(call.data, ids, now);
      (Custody.AllHoldersConsistent(items) ==> Custody.AllHoldersConsistent(after))
      && Dashboard.CountStatus(after, Available) == Dashboard.CountStatus(items, Available) + quantity
  {
    var call := DecideAdd(name, category, quantity).value;
    if Custody.AllHoldersConsistent(items) {
      Custody.AddItemKeepsHolderInvariant(items, call.data, ids, now);
    }
    Custody.AddItemRaisesAvailable(items, call.data, ids, now);
  }

  /** The form's state. */
  class StockForm {
    var name: string
    var category: string
    var quantity: int

    constructor ()
      ensures name == "" && category == "" && quantity == 1
    {
      name, category, quantity := "", "", 1;
    }

    /** The quantity input's `onChange`: `parseInt(value) || 1`, unclamped. */
    method EditQuantity(parsed: Option<int>)
      modifies this
      ensures quantity == ParsedOrOne(parsed) && name == old(name) && category == old(category)
    {
      quantity := ParsedOrOne(parsed);
    }

    /** `handleSubmit`: an accepted submit returns the call and resets the form to empty fields and quantity 1;
        a refused one changes nothing. */
    method HandleSubmit() returns (call: Option<AddCall>)
      modifies this
      ensures call == DecideAdd(old(name), old(category), old(quantity))
      ensures call.Some? ==> name == "" && category == "" && quantity == 1
      ensures call.None? ==> name == old(name) && category == old(category) && quantity == old(quantity)
    {
      if name != "" && category != "" && quantity > 0 {
        call := Some(AddCall(StockData(name, category), quantity));
        name, category := "", "";
        quantity := 1;
      } else {
        call := None;
      }
    }
  }

  /** Submitting the form into the application state adds exactly `quantity` Available units. */
  method AddThroughForm(form: StockForm, w: Custody.Warehouse, unitIds: seq<string>, txIds: seq<string>, now: string)
    requires |unitIds| == Custody.Units(form.quantity) && |txIds| == Custody.Units(form.quantity)
    modifies form, w
    ensures AddAllowed(old(form.name), old(form.category), old(form.quantity)) ==>
      Dashboard.CountStatus(w.items, Available) == Dashboard.CountStatus(old(w.items), Available) + old(form.quantity)
    ensures !AddAllowed(old(form.name), old(form.category), old(form.quantity)) ==> w.items == old(w.items)
    ensures Custody.AllHoldersConsistent(old(w.items)) ==> Custody.AllHoldersConsistent(w.items)
  {
    var call := form.HandleSubmit();
    if call.Some? {
      w.HandleAddItem(call.value.data, call.value.quantity, unitIds, txIds, now);
      Custody.AddItemRaisesAvailable(old(w.items), call.value.data, unitIds, now);
    }
  }
}
