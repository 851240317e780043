/** The instructor's own screen: login against the roster, the instructor's custody list and return requests,
    taking an available unit, the instant-issue form, and the password change. */
module InstructorPortal {
  import opened Types
  import opened Seqs
  import Custody
  import Checkout

  /** The login error ("the password is incorrect"). */
  const LoginErrorText: string := "كلمة المرور غير صحيحة"
  /** The password-change messages: wrong current password, mismatch, too short, success. */
  const WrongCurrentText: string := "كلمة المرور الحالية غير صحيحة"
  const MismatchText: string := "كلمة المرور الجديدة غير متطابقة"
  const TooShortText: string := "يجب أن تتكون كلمة المرور من 4 خانات على الأقل"
  const ChangedText: string := "تم تغيير كلمة المرور بنجاح"
  /** The shortest new password accepted. */
  const MinPasswordLength: nat := 4

  // ---------------------------------------------------------------------------------------------
  // Login

  /** The instructor `handleLogin` signs in: the first roster entry with the selected id, when its stored
      password equals the typed one. */
  function Authenticate(roster: seq<Instructor>, selectedId: string, password: string): (r: Option<Instructor>)
    ensures r.Some? <==> Custody.FindInstructor(roster, selectedId).Some?
                         && Custody.FindInstructor(roster, selectedId).value.password == password
    ensures r.Some? ==> r.value in roster && r.value.id == selectedId && r.value.password == password
    ensures (forall i :: i in roster ==> i.id != selectedId) ==> r.None?
  {
    var found := Custody.FindInstructor(roster, selectedId);
    if found.Some? && found.value.password == password then found else None
  }

  /** After a supervisor reset, the instructor signs in with the default password. */
  lemma {:induction false} ResetThenDefaultLogin(roster: seq<Instructor>, id: string)
    requires exists i :: i in roster && i.id == id
    ensures var r := Custody.ResetPasswordOf(roster, id);
      Authenticate(r, id, Custody.DefaultPassword).Some?
      && Authenticate(r, id, Custody.DefaultPassword).value.name
         == Custody.FindInstructor(roster, id).value.name
  {
    var r := Custody.ResetPasswordOf(roster, id);
    var k := FirstIndex(Custody.HasInstructorId(id), roster);
    FindInstructorAfterMap(roster, r, id);
    assert k < |roster|;
  }

  /** A roster transform that keeps every entry's id keeps the position of the first entry with a given id. */
  lemma {:induction false} FindInstructorAfterMap(roster: seq<Instructor>, r: seq<Instructor>, id: string)
    requires |r| == |roster|
    requires forall k :: 0 <= k < |roster| ==> r[k].id == roster[k].id
    ensures FirstIndex(Custody.HasInstructorId(id), r) == FirstIndex(Custody.HasInstructorId(id), roster)
  {
    if roster != [] {
      FindInstructorAfterMap(roster[1..], r[1..], id);
    }
  }

  /** After a successful password change the instructor signs in with the new password, and no longer with
      any other one. */
  lemma {:induction false} ChangedPasswordLogin(roster: seq<Instructor>, user: Instructor, newPassword: string, other: string)
    requires exists i :: i in roster && i.id == user.id
    requires other != newPassword
    ensures var r := Custody.ReplaceInstructor(roster, user.(password := newPassword));
      Authenticate(r, user.id, newPassword) == Some(user.(password := newPassword))
      && Authenticate(r, user.id, other).None?
  {
    var r := Custody.ReplaceInstructor(roster, user.(password := newPassword));
    FindInstructorAfterMap(roster, r, user.id);
  }

  // ---------------------------------------------------------------------------------------------
  // The instructor's own lists

  /** `myItems`: with nobody signed in, nothing; otherwise the units in custody whose holder is exactly the
      signed-in instructor's name, in inventory order. */
  function MyItems(items: seq<Item>, currentUser: Option<Instructor>): (r: seq<Item>)
    ensures IsSubseq(r, items)
    ensures currentUser.None? ==> r == []
    ensures forall it :: it in r <==>
      it in items && currentUser.Some? && it.currentHolder == Some(currentUser.value.name) && InCustody(it.status)
  {
    Filter((it: Item) => currentUser.Some? && it.currentHolder == Some(currentUser.value.name) && InCustody(it.status),
           items)
  }

  /** The rows of `myItems` that offer the return-request button: those still CheckedOut. */
  function ReturnRequestRows(items: seq<Item>, currentUser: Option<Instructor>): (r: seq<Item>)
    ensures IsSubseq(r, MyItems(items, currentUser))
    ensures forall it :: it in r <==> it in MyItems(items, currentUser) && it.status == CheckedOut
  {
    Filter((it: Item) => it.status == CheckedOut, MyItems(items, currentUser))
  }

  /** A request-return call: the unit's id and the signed-in instructor's name. */
  datatype ReturnCall = ReturnCall(itemId: string, instructorName: string)

  /** The return-request button calls `onRequestReturn` only with somebody signed in and the confirmation
      accepted. */
  function RequestReturnClick(currentUser: Option<Instructor>, row: Item, confirmed: bool): (r: Option<ReturnCall>)
    ensures r.Some? <==> currentUser.Some? && confirmed
    ensures r.Some? ==> r.value == ReturnCall(row.id, currentUser.value.name)
  {
    if currentUser.Some? && confirmed then Some(ReturnCall(row.id, currentUser.value.name)) else None
  }

  /** A return request raised from the portal is on a unit the instructor holds, so the holder invariant
      survives it, and the unit stays in the instructor's list, now awaiting approval. */
  lemma {:induction false} PortalRequestKeepsCustody(items: seq<Item>, user: Instructor, k: nat, now: string)
    requires Custody.UniqueIds(items) && Custody.AllHoldersConsistent(items)
    requires k < |items| && items[k] in ReturnRequestRows(items, Some(user))
    ensures var r := Custody.MarkPendingMatching(items, items[k].id, now);
      Custody.AllHoldersConsistent(r)
      && r[k] in MyItems(r, Some(user)) && r[k].status == PendingReturn
  {
    var r := Custody.MarkPendingMatching(items, items[k].id, now);
    assert forall it :: it in items && it.id == items[k].id ==> it == items[k];
    Custody.RequestReturnKeepsHolderInvariant(items, items[k].id, now);
    assert r[k] in r;
  }

  /** Taking an Available unit from the portal puts it in the instructor's list. */
  lemma {:induction false} PortalCheckoutShowsInMyItems(items: seq<Item>, user: Instructor, k: nat, now: string)
    requires Custody.UniqueIds(items)
    requires k < |items| && items[k] in Checkout.AvailableUnits(items)
    ensures var r := Custody.CheckOutMatching(items, items[k].id, user.name, now);
      r[k] in MyItems(r, Some(user)) && |MyItems(r, Some(user))| >= 1
  {
    var r := Custody.CheckOutMatching(items, items[k].id, user.name, now);
    assert r[k] in r;
  }

  // ---------------------------------------------------------------------------------------------
  // Password change

  datatype PasswordOutcome = NotSignedIn | WrongCurrent | Mismatch | TooShort | Changed(updated: Instructor)

  /** `handleChangePassword`'s checks, in order: signed in, current password right, new and confirmation
      equal, new password at least four characters. */
  function DecidePasswordChange(currentUser: Option<Instructor>, current: string, newPassword: string, confirm: string)
    : (r: PasswordOutcome)
    ensures r.NotSignedIn? <==> currentUser.None?
    ensures r.WrongCurrent? <==> currentUser.Some? && current != currentUser.value.password
    ensures r.Mismatch? <==> currentUser.Some? && current == currentUser.value.password && newPassword != confirm
    ensures r.TooShort? <==>
      currentUser.Some? && current == currentUser.value.password && newPassword == confirm
      && |newPassword| < MinPasswordLength
    ensures r.Changed? <==>
      currentUser.Some? && current == currentUser.value.password && newPassword == confirm
      && |newPassword| >= MinPasswordLength
    ensures r.Changed? ==> r.updated == currentUser.value.(password := newPassword)
  {
    match currentUser
    case None => NotSignedIn
    case Some(user) =>
      if current != user.password then WrongCurrent
      else if newPassword != confirm then Mismatch
      else if |newPassword| < MinPasswordLength then TooShort
      else Changed(user.(password := newPassword))
  }

  /** A password change never alters the instructor's id or name. */
  lemma ChangeKeepsIdentity(currentUser: Option<Instructor>, current: string, newPassword: string, confirm: string)
    requires DecidePasswordChange(currentUser, current, newPassword, confirm).Changed?
    ensures var u := DecidePasswordChange(currentUser, current, newPassword, confirm).updated;
      u.id == currentUser.value.id && u.name == currentUser.value.name && u.password == confirm
  {
  }

  /** The message each outcome shows, and whether it is an error. */
  function PasswordMessage(outcome: PasswordOutcome): (m: (string, bool))
    ensures m.1 <==> !outcome.Changed?
  {
    match outcome
    case NotSignedIn => ("", true)
    case WrongCurrent => (WrongCurrentText, true)
    case Mismatch => (MismatchText, true)
    case TooShort => (TooShortText, true)
    case Changed(_) => (ChangedText, false)
  }

  // ---------------------------------------------------------------------------------------------
  // Instant-issue form

  /** The guard of `handleManualCheckoutSubmit`: name and category non-empty, a positive quantity, somebody
      signed in. */
  predicate ManualCheckoutAllowed(name: string, category: string, quantity: int, currentUser: Option<Instructor>)
  {
    name != "" && category != "" && quantity > 0 && currentUser.Some?
  }

  /** What the instant-issue submit does. The portal is mounted without an `onManualCheckout`, so a submit
      that passes the guard calls a missing handler and throws before the form is reset. */
  datatype ManualOutcome = ManualSkipped | ManualIssued(name: string, category: string, quantity: int, instructorName: string)
                         | ManualHandlerMissing

  function DecideManualCheckout(name: string, category: string, quantity: int, currentUser: Option<Instructor>,
                                hasHandler: bool): (r: ManualOutcome)
    ensures r.ManualSkipped? <==> !ManualCheckoutAllowed(name, category, quantity, currentUser)
    ensures r.ManualIssued? ==>
      hasHandler && r == ManualIssued(name, category, quantity, currentUser.value.name) && quantity >= 1
    ensures !hasHandler ==> !r.ManualIssued?
    ensures hasHandler && ManualCheckoutAllowed(name, category, quantity, currentUser) ==> r.ManualIssued?
  {
    if ManualCheckoutAllowed(name, category, quantity, currentUser) then
      if hasHandler then ManualIssued(name, category, quantity, currentUser.value.name) else ManualHandlerMissing
    else ManualSkipped
  }

  /** A quantity typed as 0, as garbage or as a negative number never issues anything: the first two become 1
      and the third fails the guard. */
  lemma QuantityEntryNeverIssuesNonPositive(name: string, category: string, parsed: Option<int>,
                                            currentUser: Option<Instructor>, hasHandler: bool)
    ensures var q := ParsedOrOne(parsed);
      (parsed.None? || parsed.value == 0 ==> q == 1)
      && (DecideManualCheckout(name, category, q, currentUser, hasHandler).ManualIssued? ==> q >= 1)
      && (parsed.Some? && parsed.value < 0 ==> !DecideManualCheckout(name, category, q, currentUser, hasHandler).ManualIssued?)
  {
  }

  // ---------------------------------------------------------------------------------------------
  // The screen's state

  datatype Tab = MyItemsTab | RequestToolTab | SettingsTab

  /** A check-out call from the request-tool tab. */
  datatype CheckoutCall = CheckoutCall(itemId: string, instructorName: string)

  class PortalSession {
    var currentUser: Option<Instructor>
    var selectedInstructorId: string
    var passwordInput: string
    var loginError: string
    var activeTab: Tab
    var isManualEntry: bool
    var newItemName: string
    var newItemCategory: string
    var quantity: int
    var selectedCheckoutItemId: string
    var passCurrent: string
    var passNew: string
    var passConfirm: string
    var passMsg: (string, bool)

    /** The sign-in form: the selected instructor, the typed password and the error line. */
    function SignInForm(): (string, string, string)
      reads this
    {
      (selectedInstructorId, passwordInput, loginError)
    }

    /** The request-tool tab's fields: manual entry, the new item, the quantity and the selected group. */
    function ItemForm(): (bool, string, string, int, string)
      reads this
    {
      (isManualEntry, newItemName, newItemCategory, quantity, selectedCheckoutItemId)
    }

    /** The settings tab's password form and its message. */
    function PasswordForm(): (string, string, string, (string, bool))
      reads this
    {
      (passCurrent, passNew, passConfirm, passMsg)
    }

    constructor ()
      ensures currentUser.None? && selectedInstructorId == "" && passwordInput == "" && loginError == ""
      ensures activeTab == MyItemsTab && !isManualEntry && newItemName == "" && newItemCategory == ""
      ensures quantity == 1 && selectedCheckoutItemId == ""
      ensures passCurrent == "" && passNew == "" && passConfirm == "" && passMsg == ("", false)
    {
      currentUser, selectedInstructorId, passwordInput, loginError := None, "", "", "";
      activeTab, isManualEntry, newItemName, newItemCategory := MyItemsTab, false, "", "";
      quantity, selectedCheckoutItemId := 1, "";
      passCurrent, passNew, passConfirm, passMsg := "", "", "", ("", false);
    }

    /** The mount effect: a remembered, non-empty user id is looked up in a non-empty roster, and signs that
        instructor in when found. `savedUserId` is what local storage returns. */
    method RestoreSession(roster: seq<Instructor>, savedUserId: Option<string>)
      modifies this
      ensures Truthy(savedUserId) && |roster| > 0 && Custody.FindInstructor(roster, savedUserId.value).Some?
              ==> currentUser == Custody.FindInstructor(roster, savedUserId.value)
      ensures !(Truthy(savedUserId) && |roster| > 0 && Custody.FindInstructor(roster, savedUserId.value).Some?)
              ==> currentUser == old(currentUser)
      ensures SignInForm() == old(SignInForm()) && activeTab == old(activeTab)
      ensures ItemForm() == old(ItemForm()) && PasswordForm() == old(PasswordForm())
    {
      if Truthy(savedUserId) && |roster| > 0 {
        var user := Custody.FindInstructor(roster, savedUserId.value);
        if user.Some? {
          currentUser := user;
        }
      }
    }

    /** `handleLogin`: a correct password for the selected instructor signs them in and clears the error;
        otherwise the error is shown and the signed-in user is left as it was. */
    method HandleLogin(roster: seq<Instructor>)
      modifies this
      ensures var who := Authenticate(roster, old(selectedInstructorId), old(passwordInput));
        (who.Some? ==> currentUser == who && loginError == "")
        && (who.None? ==> currentUser == old(currentUser) && loginError == LoginErrorText)
      ensures selectedInstructorId == old(selectedInstructorId) && passwordInput == old(passwordInput)
      ensures activeTab == old(activeTab) && ItemForm() == old(ItemForm()) && PasswordForm() == old(PasswordForm())
    {
      loginError := "";
      var who := Authenticate(roster, selectedInstructorId, passwordInput);
      if who.Some? {
        currentUser := who;
      } else {
        loginError := LoginErrorText;
      }
    }

    /** `handleLogout`: signs out and clears the login form. */
    method HandleLogout()
      modifies this
      ensures currentUser.None? && passwordInput == "" && selectedInstructorId == "" && loginError == ""
      ensures activeTab == old(activeTab) && ItemForm() == old(ItemForm()) && PasswordForm() == old(PasswordForm())
    {
      currentUser := None;
      passwordInput := "";
      selectedInstructorId := "";
      loginError := "";
    }

    /** `handleChangePassword`: on success the updated instructor is returned for `onUpdateInstructor`, the
        session holds the new password and the form is cleared; a failed check only sets the message; with
        nobody signed in nothing happens. */
    method HandleChangePassword() returns (update: Option<Instructor>)
      modifies this
      ensures var outcome := DecidePasswordChange(old(currentUser), old(passCurrent), old(passNew), old(passConfirm));
        (outcome.Changed? ==>
           update == Some(outcome.updated) && currentUser == update
           && passCurrent == "" && passNew == "" && passConfirm == "" && passMsg == PasswordMessage(outcome))
        && (outcome.NotSignedIn? ==> update.None? && passMsg == old(passMsg))
        && (!outcome.Changed? && !outcome.NotSignedIn? ==> update.None? && passMsg == PasswordMessage(outcome))
        && (!outcome.Changed? ==>
           currentUser == old(currentUser)
           && passCurrent == old(passCurrent) && passNew == old(passNew) && passConfirm == old(passConfirm))
      ensures SignInForm() == old(SignInForm()) && activeTab == old(activeTab) && ItemForm() == old(ItemForm())
    {
      var outcome := DecidePasswordChange(currentUser, passCurrent, passNew, passConfirm);
      update := None;
      match outcome {
        case NotSignedIn =>
        case Changed(u) =>
          update := Some(u);
          currentUser := Some(u);
          passCurrent, passNew, passConfirm := "", "", "";
          passMsg := PasswordMessage(outcome);
        case _ =>
          passMsg := PasswordMessage(outcome);
      }
    }

    /** `handleCheckoutSubmit`: with a selection and somebody signed in, the check-out call is returned, the
        selection cleared and the custody tab shown; otherwise nothing happens. */
    method HandleCheckoutSubmit() returns (call: Option<CheckoutCall>)
      modifies this
      ensures call.Some? <==> old(selectedCheckoutItemId) != "" && old(currentUser).Some?
      ensures call.Some? ==>
        call.value == CheckoutCall(old(selectedCheckoutItemId), old(currentUser).value.name)
        && selectedCheckoutItemId == "" && activeTab == MyItemsTab
      ensures call.None? ==> selectedCheckoutItemId == old(selectedCheckoutItemId) && activeTab == old(activeTab)
      ensures currentUser == old(currentUser) && SignInForm() == old(SignInForm())
      ensures isManualEntry == old(isManualEntry) && newItemName == old(newItemName)
              && newItemCategory == old(newItemCategory) && quantity == old(quantity)
      ensures PasswordForm() == old(PasswordForm())
    {
      if selectedCheckoutItemId != "" && currentUser.Some? {
        call := Some(CheckoutCall(selectedCheckoutItemId, currentUser.value.name));
        selectedCheckoutItemId := "";
        activeTab := MyItemsTab;
      } else {
        call := None;
      }
    }

    /** The quantity input's `onChange`: `parseInt(value) || 1`. */
    method EditQuantity(parsed: Option<int>)
      modifies this
      ensures quantity == ParsedOrOne(parsed)
      ensures isManualEntry == old(isManualEntry) && newItemName == old(newItemName)
              && newItemCategory == old(newItemCategory) && selectedCheckoutItemId == old(selectedCheckoutItemId)
      ensures currentUser == old(currentUser) && SignInForm() == old(SignInForm()) && activeTab == old(activeTab)
      ensures PasswordForm() == old(PasswordForm())
    {
      quantity := ParsedOrOne(parsed);
    }

    /** `handleManualCheckoutSubmit`: an issued call resets the form, leaves manual entry and shows the
        custody tab; a skipped submit or a missing handler leaves everything as it was. */
    method HandleManualCheckoutSubmit(hasHandler: bool) returns (outcome: ManualOutcome)
      modifies this
      ensures outcome == DecideManualCheckout(old(newItemName), old(newItemCategory), old(quantity), old(currentUser), hasHandler)
      ensures outcome.ManualIssued? ==>
        newItemName == "" && newItemCategory == "" && quantity == 1 && !isManualEntry && activeTab == MyItemsTab
      ensures !outcome.ManualIssued? ==>
        newItemName == old(newItemName) && newItemCategory == old(newItemCategory) && quantity == old(quantity)
        && isManualEntry == old(isManualEntry) && activeTab == old(activeTab)
      ensures currentUser == old(currentUser) && SignInForm() == old(SignInForm())
      ensures selectedCheckoutItemId == old(selectedCheckoutItemId) && PasswordForm() == old(PasswordForm())
    {
      outcome := DecideManualCheckout(newItemName, newItemCategory, quantity, currentUser, hasHandler);
      if outcome.ManualIssued? {
        newItemName, newItemCategory := "", "";
        quantity := 1;
        isManualEntry := false;
        activeTab := MyItemsTab;
      }
    }
  }

  /** Changing the password and pushing it to the roster lets the instructor sign in again with the new one. */
  method ChangePasswordAndSignInAgain(session: PortalSession, w: Custody.Warehouse)
    requires session.currentUser.Some?
    requires exists i :: i in w.instructors && i.id == session.currentUser.value.id
    requires session.passCurrent == session.currentUser.value.password
    requires session.passNew == session.passConfirm && |session.passNew| >= MinPasswordLength
    modifies session, w
    ensures Authenticate(w.instructors, old(session.currentUser).value.id, old(session.passNew))
            == Some(old(session.currentUser).value.(password := old(session.passNew)))
  {
    var user := session.currentUser.value;
    var pw := session.passNew;
    var update := session.HandleChangePassword();
    w.HandleUpdateInstructor(update.value);
    ChangedPasswordLogin(old(w.instructors), user, pw, pw + "x");
  }
}
