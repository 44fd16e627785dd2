/** The contact record and the three edits the store makes to its ordered
    sequence of contacts: append, replace one position, remove one position. */
module Contacts {
  import opened Wrappers
  import opened Validation

  /** One contact; its position in the sequence is its only identity. */
  datatype Contact = Contact(name: string, phone: string, email: string)

  /** The column a table header click selects for sorting. */
  datatype Column = Name | Phone | Email

  datatype Direction = Asc | Desc

  /** `contact[column]`. */
  function Field(c: Contact, col: Column): string {
    match col
    case Name => c.name
    case Phone => c.phone
    case Email => c.email
  }

  /** A contact as a successful submit creates it: a name, a valid phone
      number and a valid email address. */
  predicate WellFormed(c: Contact) {
    c.name != [] && IsPhone(c.phone) && IsEmail(c.email)
  }

  predicate AllWellFormed(cs: seq<Contact>) {
    forall k :: 0 <= k < |cs| ==> WellFormed(cs[k])
  }

  /** `s.map((item, index) => index === i ? x : item)`: the item at position
      `i`, if there is one, becomes `x`. */
  function ReplaceAt<T>(s: seq<T>, i: int, x: T): (r: seq<T>)
    ensures 0 <= i < |s| ==> r == s[..i] + [x] + s[i + 1..]
    ensures !(0 <= i < |s|) ==> r == s
  {
    seq(|s|, k requires 0 <= k < |s| => if k == i then x else s[k])
  }

  /** `s.filter((_, j) => j !== i)`, walking `s` from the front. */
  function RemoveAt<T>(s: seq<T>, i: int): (r: seq<T>)
    ensures 0 <= i < |s| ==> r == s[..i] + s[i + 1..]
    ensures !(0 <= i < |s|) ==> r == s
  {
    if s == [] then []
    else (if i == 0 then [] else [s[0]]) + RemoveAt(s[1..], i - 1)
  }

  /** The sequence a successful submit produces from `cs`: the draft `entry`
      appended when no contact is being edited, or written over the contact at
      the editing index. An editing index that no longer names a position
      (the list shrank after the edit began) changes nothing. */
  function Submitted(cs: seq<Contact>, editing: Option<int>, entry: Contact): (r: seq<Contact>)
    ensures editing.None? ==> |r| == |cs| + 1 && r[..|cs|] == cs && r[|cs|] == entry
    ensures editing.Some? && 0 <= editing.value < |cs| ==>
              && |r| == |cs| && r[editing.value] == entry
              && forall k :: 0 <= k < |cs| && k != editing.value ==> r[k] == cs[k]
    ensures editing.Some? && !(0 <= editing.value < |cs|) ==> r == cs
  {
    match editing
    case None => cs + [entry]
    case Some(i) => ReplaceAt(cs, i, entry)
  }

  /** Removing one position takes exactly that contact out of the multiset
      of contacts; the others keep their order (RemoveAt's contract). */
  lemma {:induction false} RemoveAtMultiset<T>(s: seq<T>, i: int)
    requires 0 <= i < |s|
    ensures |RemoveAt(s, i)| == |s| - 1
    ensures multiset(RemoveAt(s, i)) + multiset{s[i]} == multiset(s)
  {
    var r := RemoveAt(s, i);
    var front, back := s[..i], s[i + 1..];
    assert r == front + back;
    assert s == front + ([s[i]] + back);
    assert multiset(s) == multiset(front) + multiset{s[i]} + multiset(back);
  }

  /** A successful submit of a well-formed draft keeps every stored contact
      well-formed. */
  lemma SubmittedKeepsWellFormed(cs: seq<Contact>, editing: Option<int>, entry: Contact)
    requires AllWellFormed(cs) && WellFormed(entry)
    ensures AllWellFormed(Submitted(cs, editing, entry))
  {
  }

  lemma RemoveAtKeepsWellFormed(cs: seq<Contact>, i: int)
    requires AllWellFormed(cs)
    ensures AllWellFormed(RemoveAt(cs, i))
  {
  }
}
