/** The contact-list component's state and its event handlers. Each state
    cell of the component is a field, each handler a method; a handler frames
    exactly the cells it sets. The browser storage key is the ghost field
    `saved`, written with the whole list on every successful change. */
module Store {
  import opened Wrappers
  import opened Validation
  import opened Contacts
  import opened ContactView

  /** How a submit ended: the "fill in every field" alert, a silent refusal
      by a validator, or a stored contact. */
  datatype SubmitOutcome = MissingField | Rejected | Saved

  function Flip(d: Direction): Direction {
    if d == Asc then Desc else Asc
  }

  /** The sort selection after a click on the header of `clicked`: the same
      column flips the direction, another column is selected ascending. */
  function NextSort(col: Column, dir: Direction, clicked: Column): (next: (Column, Direction))
    ensures next.0 == clicked
    ensures clicked == col ==> next.1 != dir
    ensures clicked != col ==> next.1 == Asc
  {
    if clicked == col then (col, Flip(dir)) else (clicked, Asc)
  }

  /** Two clicks on the selected column give back the selection, and with it
      the same view. */
  lemma SortClickTwiceRestores(col: Column, dir: Direction)
    ensures var once := NextSort(col, dir, col);
            NextSort(once.0, once.1, col) == (col, dir)
  {
  }

  class ContactStore {
    var contacts: seq<Contact>
    var name: string
    var phone: string
    var email: string
    var editingIndex: Option<int>
    var searchTerm: string
    var sortColumn: Column
    var sortDirection: Direction
    var phoneError: string
    var emailError: string
    /** What the storage key holds. */
    ghost var saved: seq<Contact>

    /** Write-through: storage always holds the list on screen. */
    ghost predicate Valid()
      reads this
    {
      saved == contacts
    }

    /** The first render with the list loaded from storage (`stored` is the
        parsed value of the key, None when the key is absent or empty). */
    constructor (stored: Option<seq<Contact>>)
      ensures Valid()
      ensures contacts == stored.GetOr([])
      ensures name == [] && phone == [] && email == [] && editingIndex == None
      ensures searchTerm == [] && sortColumn == Name && sortDirection == Asc
      ensures phoneError == [] && emailError == []
    {
      contacts := stored.GetOr([]);
      saved := contacts;
      name, phone, email := [], [], [];
      editingIndex := None;
      searchTerm := [];
      sortColumn, sortDirection := Name, Asc;
      phoneError, emailError := [], [];
    }

    /** The rows of the table. */
    function View(): seq<Contact>
      reads this
    {
      DeriveView(contacts, searchTerm, sortColumn, sortDirection)
    }

    method ValidatePhone(value: string) returns (ok: bool)
      modifies this`phoneError
      ensures ok <==> IsPhone(value)
      ensures phoneError == if ok then [] else PhoneMessage
    {
      if !IsPhone(value) {
        phoneError := PhoneMessage;
        return false;
      }
      phoneError := [];
      return true;
    }

    method ValidateEmail(value: string) returns (ok: bool)
      modifies this`emailError
      ensures ok <==> IsEmail(value)
      ensures emailError == if ok then [] else EmailMessage
    {
      if !IsEmail(value) {
        emailError := EmailMessage;
        return false;
      }
      emailError := [];
      return true;
    }

    /** Typing in the name field. */
    method TypeName(value: string)
      modifies this`name
      ensures name == value
    {
      name := value;
    }

    /** Typing in the phone field sets it and validates it at once. */
    method TypePhone(value: string)
      modifies this`phone, this`phoneError
      ensures phone == value
      ensures phoneError == if IsPhone(value) then [] else PhoneMessage
    {
      phone := value;
      var _ := ValidatePhone(value);
    }

    /** Typing in the email field sets it and validates it at once. */
    method TypeEmail(value: string)
      modifies this`email, this`emailError
      ensures email == value
      ensures emailError == if IsEmail(value) then [] else EmailMessage
    {
      email := value;
      var _ := ValidateEmail(value);
    }

    /** Typing in the search box. */
    method TypeSearch(value: string)
      modifies this`searchTerm
      ensures searchTerm == value
    {
      searchTerm := value;
    }

    /** The form's submit: refuse with an alert when a field is empty; refuse
        when the phone or (only then checked) the email is invalid; otherwise
        append or overwrite, write the list through, and reset the draft. */
    method Submit() returns (outcome: SubmitOutcome)
      requires Valid()
      modifies this`contacts, this`saved, this`name, this`phone, this`email,
               this`editingIndex, this`phoneError, this`emailError
      ensures Valid()
      ensures outcome == MissingField <==> old(name) == [] || old(phone) == [] || old(email) == []
      ensures outcome == Saved <==> old(name) != [] && IsPhone(old(phone)) && IsEmail(old(email))
      // the validators ran only past the empty-field check, and the email
      // validator only past a valid phone
      ensures outcome == MissingField ==>
                phoneError == old(phoneError) && emailError == old(emailError)
      ensures outcome != MissingField ==>
                phoneError == if IsPhone(old(phone)) then [] else PhoneMessage
      ensures outcome != MissingField && !IsPhone(old(phone)) ==> emailError == old(emailError)
      ensures outcome != MissingField && IsPhone(old(phone)) ==>
                emailError == if IsEmail(old(email)) then [] else EmailMessage
      // a refused submit keeps the list, the storage and the draft
      ensures outcome != Saved ==>
                && contacts == old(contacts)
                && name == old(name) && phone == old(phone) && email == old(email)
                && editingIndex == old(editingIndex)
      // a successful one stores the draft and starts a fresh one
      ensures outcome == Saved ==>
                && contacts == Submitted(old(contacts), old(editingIndex),
                                         Contact(old(name), old(phone), old(email)))
                && WellFormed(Contact(old(name), old(phone), old(email)))
                && name == [] && phone == [] && email == [] && editingIndex == None
      ensures AllWellFormed(old(contacts)) ==> AllWellFormed(contacts)
    {
      if name == [] || phone == [] || email == [] {
        return MissingField;
      }
      var phoneOk := ValidatePhone(phone);
      if !phoneOk {
        return Rejected;
      }
      var emailOk := ValidateEmail(email);
      if !emailOk {
        return Rejected;
      }
      var entry := Contact(name, phone, email);
      if AllWellFormed(contacts) {
        SubmittedKeepsWellFormed(contacts, editingIndex, entry);
      }
      var next := Submitted(contacts, editingIndex, entry);
      contacts := next;
      saved := next;
      name, phone, email := [], [], [];
      editingIndex := None;
      return Saved;
    }

    /** Loads the contact at position `index` of the stored list into the
        draft and marks it as the one being edited. */
    method Edit(index: int)
      requires Valid() && 0 <= index < |contacts|
      modifies this`name, this`phone, this`email, this`editingIndex
      ensures Valid()
      ensures Contact(name, phone, email) == contacts[index]
      ensures editingIndex == Some(index)
    {
      var contact := contacts[index];
      name := contact.name;
      phone := contact.phone;
      email := contact.email;
      editingIndex := Some(index);
    }

    /** Drops position `index` of the stored list and writes the list through;
        an index that names no position leaves the list as it was. The
        editing index is not adjusted. */
    method Delete(index: int)
      requires Valid()
      modifies this`contacts, this`saved
      ensures Valid()
      ensures contacts == RemoveAt(old(contacts), index)
      ensures 0 <= index < |old(contacts)| ==>
                && |contacts| == |old(contacts)| - 1
                && multiset(contacts) + multiset{old(contacts)[index]} == multiset(old(contacts))
      ensures AllWellFormed(old(contacts)) ==> AllWellFormed(contacts)
    {
      if 0 <= index < |contacts| {
        RemoveAtMultiset(contacts, index);
      }
      if AllWellFormed(contacts) {
        RemoveAtKeepsWellFormed(contacts, index);
      }
      var next := RemoveAt(contacts, index);
      contacts := next;
      saved := next;
    }

    /** A click on a column header. */
    method Sort(column: Column)
      modifies this`sortColumn, this`sortDirection
      ensures (sortColumn, sortDirection) == NextSort(old(sortColumn), old(sortDirection), column)
    {
      if column == sortColumn {
        sortDirection := if sortDirection == Asc then Desc else Asc;
      } else {
        sortColumn := column;
        sortDirection := Asc;
      }
    }
  }

  /** Edit the contact at `i`, retype the three fields, submit: when the
      submit goes through, position `i` holds the new values, the list keeps
      its length and every other position is as it was. */
  method EditThenSubmit(store: ContactStore, i: int, n: string, p: string, e: string)
    returns (outcome: SubmitOutcome)
    requires store.Valid() && 0 <= i < |store.contacts|
    modifies store
    ensures store.Valid()
    ensures outcome == Saved <==> n != [] && IsPhone(p) && IsEmail(e)
    ensures outcome == Saved ==>
              && |store.contacts| == |old(store.contacts)|
              && store.contacts[i] == Contact(n, p, e)
              && forall k :: 0 <= k < |store.contacts| && k != i ==>
                   store.contacts[k] == old(store.contacts)[k]
    ensures outcome != Saved ==> store.contacts == old(store.contacts)
  {
    store.Edit(i);
    store.TypeName(n);
    store.TypePhone(p);
    store.TypeEmail(e);
    outcome := store.Submit();
  }
}
