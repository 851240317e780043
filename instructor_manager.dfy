/** The supervisor's roster screen: adding an instructor by name, the default-password badge, and the
    confirmation-gated reset and delete buttons. */
module InstructorManager {
  import opened Types
  import opened Seqs
  import opened Strings
  import Custody
  import InstructorPortal

  /** The name `handleSubmit` passes to `onAddInstructor`: the trimmed input, when anything is left of it. */
  function NameToAdd(typed: string): (r: Option<string>)
    ensures r.None? <==> AllWhitespace(typed)
    ensures r.Some? ==> r.value == Trim(typed) && r.value != ""
    ensures r.Some? ==> !IsWhitespace(r.value[0]) && !IsWhitespace(r.value[|r.value| - 1])
  {
    var t := Trim(typed);
    if t != "" then Some(t) else None
  }

  /** The add button is disabled exactly when a submit would add nobody. */
  predicate AddDisabled(typed: string)
  {
    Trim(typed) == ""
  }

  lemma DisabledIffNothingAdded(typed: string)
    ensures AddDisabled(typed) <==> NameToAdd(typed).None?
  {
  }

  /** Surrounding whitespace never reaches the roster: a name and the same name padded add the same entry. */
  lemma PaddingIgnored(typed: string)
    ensures NameToAdd(typed) == NameToAdd(Trim(typed))
  {
    TrimIdempotent(typed);
  }

  /** The badge on a roster row: the stored password is still the default. */
  predicate ShowsDefaultPassword(inst: Instructor)
  {
    inst.password == Custody.DefaultPassword
  }

  /** A newly added instructor carries the badge and, with a fresh id, signs in with the default password. */
  lemma {:induction false} AddedInstructorUsesDefault(roster: seq<Instructor>, name: string, newId: string)
    requires forall i :: i in roster ==> i.id != newId
    ensures var added := roster + [Instructor(newId, name, Custody.DefaultPassword)];
      ShowsDefaultPassword(added[|roster|])
      && InstructorPortal.Authenticate(added, newId, Custody.DefaultPassword)
         == Some(Instructor(newId, name, Custody.DefaultPassword))
  {
    var x := Instructor(newId, name, Custody.DefaultPassword);
    FirstIndexSnoc(Custody.HasInstructorId(newId), roster, x);
  }

  /** After a reset every row with that id carries the badge again; no other row changes. */
  lemma ResetRestoresBadge(roster: seq<Instructor>, id: string)
    ensures var r := Custody.ResetPasswordOf(roster, id);
      forall k :: 0 <= k < |roster| ==>
        (roster[k].id == id ==> ShowsDefaultPassword(r[k]))
        && (roster[k].id != id ==> r[k] == roster[k])
  {
  }

  /** The reset and delete buttons hand the row's id on through `IfConfirmed`. A confirmed delete removes
      every entry with the row's id, so nobody can sign in under it any more. */
  lemma {:induction false} DeletedCannotSignIn(roster: seq<Instructor>, inst: Instructor, password: string)
    ensures var r := Custody.RemoveInstructor(roster, IfConfirmed(true, inst.id).value);
      (forall i :: i in r ==> i.id != inst.id)
      && InstructorPortal.Authenticate(r, inst.id, password).None?
  {
  }

  /** The add form's state. */
  class AddForm {
    var newInstructorName: string

    constructor ()
      ensures newInstructorName == ""
    {
      newInstructorName := "";
    }

    /** `handleSubmit`: returns the name for `onAddInstructor` and clears the field, or does nothing. */
    method HandleSubmit() returns (call: Option<string>)
      modifies this
      ensures call == NameToAdd(old(newInstructorName))
      ensures call.Some? ==> newInstructorName == ""
      ensures call.None? ==> newInstructorName == old(newInstructorName)
    {
      var t := Trim(newInstructorName);
      if t != "" {
        call := Some(t);
        newInstructorName := "";
      } else {
        call := None;
      }
    }
  }

  /** Adding through the form then through the application handler appends one instructor with the trimmed
      name and the default password. */
  method AddThroughForm(form: AddForm, w: Custody.Warehouse, newId: string)
    modifies form, w
    ensures NameToAdd(old(form.newInstructorName)).Some? ==>
      w.instructors == old(w.instructors) + [Instructor(newId, Trim(old(form.newInstructorName)), Custody.DefaultPassword)]
    ensures NameToAdd(old(form.newInstructorName)).None? ==> w.instructors == old(w.instructors)
    ensures w.items == old(w.items) && w.transactions == old(w.transactions)
  {
    var call := form.HandleSubmit();
    if call.Some? {
      w.HandleAddInstructor(call.value, newId);
    }
  }
}
