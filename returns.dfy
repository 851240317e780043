/** The supervisor's returns screen: the pending requests, the units out with instructors and their search,
    the approve buttons, and the rejection editor. */
module Returns {
  import opened Types
  import opened Seqs
  import opened Strings
  import Dashboard

  /** `items.filter(item => item.status === PENDING_RETURN)`. */
  function PendingReturns(items: seq<Item>): (r: seq<Item>)
    ensures forall it :: it in r <==> it in items && it.status == PendingReturn
    ensures IsSubseq(r, items)
    ensures |r| == Dashboard.CountStatus(items, PendingReturn)
  {
    Filter(Dashboard.HasStatus(PendingReturn), items)
  }

  /** `items.filter(item => item.status === CHECKED_OUT)`. */
  function CheckedOutItems(items: seq<Item>): (r: seq<Item>)
    ensures forall it :: it in r <==> it in items && it.status == CheckedOut
    ensures IsSubseq(r, items)
    ensures |r| == Dashboard.CountStatus(items, CheckedOut)
  {
    Filter(Dashboard.HasStatus(CheckedOut), items)
  }

  /** The two lists never share a unit. */
  lemma {:induction false} ListsDisjoint(items: seq<Item>)
    ensures forall it :: it in PendingReturns(items) ==> it !in CheckedOutItems(items)
  {
  }

  /** The search predicate: the name contains the term, or a non-empty holder contains it. */
  function MatchesSearch(term: string): Item -> bool
  {
    (it: Item) => Includes(it.name, term) || (Truthy(it.currentHolder) && Includes(it.currentHolder.value, term))
  }

  /** `filteredCheckedOut`: the checked-out units whose name or holder contains the search term, in order. */
  function FilteredCheckedOut(items: seq<Item>, term: string): (r: seq<Item>)
    ensures IsSubseq(r, CheckedOutItems(items))
    ensures forall it :: it in r <==>
      it in CheckedOutItems(items)
      && ((exists i :: OccursAt(it.name, term, i))
          || (it.currentHolder.Some? && it.currentHolder.value != ""
              && exists i :: OccursAt(it.currentHolder.value, term, i)))
  {
    Filter(MatchesSearch(term), CheckedOutItems(items))
  }

  /** With an empty search term the manual-return list is the whole checked-out list. */
  lemma {:induction false} EmptySearchShowsAll(items: seq<Item>)
    ensures FilteredCheckedOut(items, "") == CheckedOutItems(items)
  {
    forall it | it in CheckedOutItems(items) ensures MatchesSearch("")(it) {
      IncludesEmpty(it.name);
    }
    FilterAll(MatchesSearch(""), CheckedOutItems(items));
  }

  /** A longer search never shows more: every unit matching `term + more` also matches `term`. */
  lemma {:induction false} NarrowerSearchShowsLess(items: seq<Item>, term: string, more: string)
    ensures forall it :: it in FilteredCheckedOut(items, term + more) ==> it in FilteredCheckedOut(items, term)
  {
    forall it | it in FilteredCheckedOut(items, term + more) ensures it in FilteredCheckedOut(items, term) {
      if Includes(it.name, term + more) {
        IncludesPrefix(it.name, term, more);
      } else {
        IncludesPrefix(it.currentHolder.value, term, more);
      }
    }
  }

  /** The two tabs of the screen. */
  datatype View = Requests | Manual

  /** The rows that carry an approve button: a PendingReturn row on the requests tab, a row of the searched
      checked-out list on the manual tab. */
  function ApproveRows(view: View, items: seq<Item>, term: string): (r: seq<Item>)
    ensures forall it :: it in r ==> it in items
    ensures view == Requests ==> forall it :: it in r ==> it.status == PendingReturn
    ensures view == Manual ==> forall it :: it in r ==> it.status == CheckedOut
  {
    match view
    case Requests => PendingReturns(items)
    case Manual => FilteredCheckedOut(items, term)
  }

  /** An approve click hands the row's id to `onApproveReturn` through `IfConfirmed`. Approval is only ever
      requested for a unit in custody: a PendingReturn one from the requests tab, a
      CheckedOut one from the manual tab. */
  lemma {:induction false} ApprovedUnitsInCustody(view: View, items: seq<Item>, term: string, row: Item, confirmed: bool)
    requires row in ApproveRows(view, items, term)
    ensures IfConfirmed(confirmed, row.id).Some? ==> row in items && InCustody(row.status)
  {
  }

  // ---------------------------------------------------------------------------------------------
  // The rejection editor

  /** What `submitRejection` does. `HandlerMissing` is the call of an `onRejectReturn` the screen was not
      given, which throws before the state is reset. */
  datatype RejectionOutcome = ReasonRequired | Rejected(itemId: string, reason: string) | HandlerMissing

  /** The decision of `submitRejection`: an id that is set and non-empty, and a reason that is not blank. */
  function DecideRejection(rejectingItemId: Option<string>, reason: string, hasHandler: bool): (r: RejectionOutcome)
    ensures r.ReasonRequired? <==> !Truthy(rejectingItemId) || Trim(reason) == ""
    ensures r.Rejected? ==> hasHandler && Some(r.itemId) == rejectingItemId && r.reason == reason
    ensures hasHandler && Truthy(rejectingItemId) && Trim(reason) != "" ==> r.Rejected?
    ensures !hasHandler && Truthy(rejectingItemId) && Trim(reason) != "" ==> r.HandlerMissing?
  {
    if Truthy(rejectingItemId) && Trim(reason) != "" then
      if hasHandler then Rejected(rejectingItemId.value, reason) else HandlerMissing
    else ReasonRequired
  }

  /** A reason made only of whitespace never reaches the handler. */
  lemma BlankReasonNeverRejects(rejectingItemId: Option<string>, reason: string, hasHandler: bool)
    requires AllWhitespace(reason)
    ensures DecideRejection(rejectingItemId, reason, hasHandler) == ReasonRequired
  {
  }

  /** The state of the editor: which pending row it is open on, and the reason typed so far. */
  class RejectionEditor {
    var rejectingItemId: Option<string>
    var rejectionReason: string

    constructor ()
      ensures rejectingItemId == None && rejectionReason == ""
    {
      rejectingItemId, rejectionReason := None, "";
    }

    /** A pending row shows the reason editor instead of its approve and reject buttons when the editor is open
        on it; at most one row does. */
    predicate ShowsEditor(row: Item)
      reads this
    {
      rejectingItemId == Some(row.id)
    }

    /** `handleRejectClick`: open the editor on the row with an empty reason. */
    method HandleRejectClick(itemId: string)
      modifies this
      ensures rejectingItemId == Some(itemId) && rejectionReason == ""
      ensures forall row: Item :: ShowsEditor(row) <==> row.id == itemId
    {
      rejectingItemId := Some(itemId);
      rejectionReason := "";
    }

    /** The reason input's `onChange`. */
    method EditReason(text: string)
      modifies this
      ensures rejectingItemId == old(rejectingItemId) && rejectionReason == text
    {
      rejectionReason := text;
    }

    /** `cancelRejection`: close the editor and clear the reason. */
    method CancelRejection()
      modifies this
      ensures rejectingItemId == None && rejectionReason == ""
      ensures forall row: Item :: !ShowsEditor(row)
    {
      rejectingItemId := None;
      rejectionReason := "";
    }

    /** `submitRejection`: on an accepted rejection the handler gets the untrimmed reason and the editor closes;
        otherwise nothing changes. `hasHandler` says whether the screen was given an `onRejectReturn`. */
    method SubmitRejection(hasHandler: bool) returns (outcome: RejectionOutcome)
      modifies this
      ensures outcome == DecideRejection(old(rejectingItemId), old(rejectionReason), hasHandler)
      ensures outcome.Rejected? ==> rejectingItemId == None && rejectionReason == ""
      ensures outcome.Rejected? ==> forall row: Item :: !ShowsEditor(row)
      ensures !outcome.Rejected? ==> rejectingItemId == old(rejectingItemId) && rejectionReason == old(rejectionReason)
    {
      outcome := DecideRejection(rejectingItemId, rejectionReason, hasHandler);
      if outcome.Rejected? {
        rejectingItemId := None;
        rejectionReason := "";
      }
    }
  }

  /** The screen is mounted without an `onRejectReturn`, so no rejection is ever carried out: a submit either
      asks for a reason or stops at the missing handler, and the editor stays as it was. */
  method SubmitWithoutHandler(editor: RejectionEditor) returns (outcome: RejectionOutcome)
    modifies editor
    ensures !outcome.Rejected?
    ensures editor.rejectingItemId == old(editor.rejectingItemId)
    ensures editor.rejectionReason == old(editor.rejectionReason)
  {
    outcome := editor.SubmitRejection(false);
  }
}
