/** The table the user sees: the contacts that match the search box, sorted
    on the selected column in the selected direction. */
module ContactView {
  import opened Text
  import opened Contacts

  /** The search filter: the lower-cased term occurs in the lower-cased name
      or email, or the term as typed occurs in the phone number. */
  predicate Matches(c: Contact, term: string) {
    || Contains(Lower(c.name), Lower(term))
    || Contains(c.phone, term)
    || Contains(Lower(c.email), Lower(term))
  }

  /** `contacts.filter(contact => Matches(contact, term))`: keeps exactly the
      matching contacts, each as often as it occurs, in their original order. */
  function Filter(s: seq<Contact>, term: string): (r: seq<Contact>)
    ensures forall k :: 0 <= k < |r| ==> Matches(r[k], term)
    ensures forall c :: multiset(r)[c] == if Matches(c, term) then multiset(s)[c] else 0
  {
    if s == [] then []
    else
      assert s == [s[0]] + s[1..];
      (if Matches(s[0], term) then [s[0]] else []) + Filter(s[1..], term)
  }

  /** The comparator handed to `sort`: -1, 1 or 0 according as `a` sorts
      before, after, or level with `b` on the column in the direction. */
  function Compare(a: Contact, b: Contact, col: Column, dir: Direction): int {
    var x, y := Field(a, col), Field(b, col);
    if LexLess(x, y) then (if dir == Asc then -1 else 1)
    else if LexLess(y, x) then (if dir == Asc then 1 else -1)
    else 0
  }

  /** `a` may stand before `b`: the column's values are non-decreasing for
      `Asc` and non-increasing for `Desc`. */
  predicate InOrder(a: Contact, b: Contact, col: Column, dir: Direction) {
    if dir == Asc then LexLe(Field(a, col), Field(b, col))
    else LexLe(Field(b, col), Field(a, col))
  }

  /** The comparator does not put `a` after `b` exactly when the two are in
      order; and it is antisymmetric, so it never puts both after each other. */
  lemma CompareMeaning(a: Contact, b: Contact, col: Column, dir: Direction)
    ensures Compare(a, b, col, dir) <= 0 <==> InOrder(a, b, col, dir)
    ensures Compare(a, b, col, dir) > 0 ==> Compare(b, a, col, dir) < 0
  {
    var x, y := Field(a, col), Field(b, col);
    LexTrichotomy(x, y);
    LexLessAsymmetric(x, y);
    LexLessIrreflexive(x);
  }

  /** Each neighbouring pair is in the comparator's order. */
  predicate Sorted(s: seq<Contact>, col: Column, dir: Direction) {
    forall k :: 0 <= k < |s| - 1 ==> Compare(s[k], s[k + 1], col, dir) <= 0
  }

  /** Puts `x` in front of the first element it does not sort after. */
  function Insert(x: Contact, s: seq<Contact>, col: Column, dir: Direction): (r: seq<Contact>)
    ensures multiset(r) == multiset(s) + multiset{x}
    ensures |r| == |s| + 1
  {
    if s == [] then [x]
    else if Compare(x, s[0], col, dir) <= 0 then [x] + s
    else
      assert s == [s[0]] + s[1..];
      [s[0]] + Insert(x, s[1..], col, dir)
  }

  /** An insertion sort, standing for the host's `Array.prototype.sort`; only
      what the comparator fixes is promised of it: a permutation of its input
      whose neighbours are in order (SortSorted). */
  function Sort(s: seq<Contact>, col: Column, dir: Direction): (r: seq<Contact>)
    ensures multiset(r) == multiset(s)
    ensures |r| == |s|
  {
    if s == [] then []
    else
      assert s == [s[0]] + s[1..];
      Insert(s[0], Sort(s[1..], col, dir), col, dir)
  }

  lemma {:induction false} InsertSorted(x: Contact, s: seq<Contact>, col: Column, dir: Direction)
    requires Sorted(s, col, dir)
    ensures Sorted(Insert(x, s, col, dir), col, dir)
    ensures s != [] ==> Insert(x, s, col, dir)[0] in {x, s[0]}
  {
    if s != [] && Compare(x, s[0], col, dir) > 0 {
      CompareMeaning(x, s[0], col, dir);
      InsertSorted(x, s[1..], col, dir);
      var r := Insert(x, s, col, dir);
      assert r == [s[0]] + Insert(x, s[1..], col, dir);
      if |s| > 1 {
        assert r[1] in {x, s[1]};
      }
    }
  }

  lemma {:induction false} SortSorted(s: seq<Contact>, col: Column, dir: Direction)
    ensures Sorted(Sort(s, col, dir), col, dir)
  {
    if s != [] {
      SortSorted(s[1..], col, dir);
      InsertSorted(s[0], Sort(s[1..], col, dir), col, dir);
    }
  }

  /** `filteredAndSortedContacts`. */
  function DeriveView(cs: seq<Contact>, term: string, col: Column, dir: Direction): seq<Contact> {
    Sort(Filter(cs, term), col, dir)
  }

  /** The view holds exactly the matching contacts, each as many times as it
      is stored, and neighbouring rows are ordered on the chosen column. */
  lemma ViewIsSortedSelection(cs: seq<Contact>, term: string, col: Column, dir: Direction)
    ensures var v := DeriveView(cs, term, col, dir);
      && (forall c :: multiset(v)[c] == if Matches(c, term) then multiset(cs)[c] else 0)
      && (forall k :: 0 <= k < |v| - 1 ==> InOrder(v[k], v[k + 1], col, dir))
  {
    var v := DeriveView(cs, term, col, dir);
    SortSorted(Filter(cs, term), col, dir);
    forall k | 0 <= k < |v| - 1 ensures InOrder(v[k], v[k + 1], col, dir) {
      CompareMeaning(v[k], v[k + 1], col, dir);
    }
  }

  /** An empty search box hides nothing: the view is a reordering of all
      the contacts. */
  lemma EmptySearchShowsAll(cs: seq<Contact>, col: Column, dir: Direction)
    ensures multiset(DeriveView(cs, "", col, dir)) == multiset(cs)
  {
  }

  /** Searching "JOH" finds a contact named "John": name and email are
      compared without regard to case. */
  lemma SearchIgnoresCase()
    ensures Matches(Contact("John", "0612345678", "john@example.fr"), "JOH")
  {
    assert Lower("JOH") == "joh";
    assert Lower("John") == "john";
    assert "joh" <= "john";
  }

  /** The row buttons pass the row's position in the view, but edit and
      delete index the stored sequence: with two contacts stored out of name
      order, the first row shows one contact while position 0 holds the other. */
  lemma RowIndexIsNotStoreIndex()
    ensures var cs := [Contact("Zo\U{00E9}", "1", "z@b.fr"), Contact("Anna", "2", "a@b.fr")];
            DeriveView(cs, "", Name, Asc)[0] != cs[0]
  {
  }
}
