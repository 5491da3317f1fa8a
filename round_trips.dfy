/** Searches after an insertion or a deletion: what each operation does as the
    caller of `searchNumber` observes it. */
module RoundTrips {
  import opened CString
  import opened Phonebook
  import opened TreeFacts
  import opened SearchProofs
  import opened InsertProofs
  import opened DeleteProofs

  /** A search tree's searches agree everywhere except at `name` when the two trees
      hold the same contacts apart from those named `name`. */
  lemma SearchesAgreeAway(t: Tree, u: Tree, name: Name, other: Name)
    requires Bst(t) && Bst(u) && other != name
    requires forall e: Entry :: e.name != name ==> (e in Entries(t) <==> e in Entries(u))
    ensures Search(u, other) == Search(t, other)
  {
    SearchFindsEntries(t, other);
    SearchFindsEntries(u, other);
    KeysAreEntryNames(t);
    KeysAreEntryNames(u);
    if Search(t, other).Some? {
      assert Entry(other, Search(t, other).value) in Entries(u);
    }
  }

  /** After inserting a new name, searching for it gives its number; searches for
      every other name are unchanged. */
  lemma SearchAfterInsert(t: Tree, name: Name, number: Number, other: Name)
    requires IsAvl(t) && Bst(t) && name !in Keys(t)
    ensures Search(Insert(t, name, number), name) == Some(number)
    ensures other != name ==> Search(Insert(t, name, number), other) == Search(t, other)
  {
    InsertCorrect(t, name, number);
    SearchFindsEntries(Insert(t, name, number), name);
    if other != name {
      SearchesAgreeAway(t, Insert(t, name, number), name, other);
    }
  }

  /** Inserting a name that is already present keeps the number stored first. */
  lemma SearchAfterDuplicateInsert(t: Tree, name: Name, number: Number)
    requires IsAvl(t) && Bst(t) && Search(t, name).Some?
    ensures Search(Insert(t, name, number), name) == Search(t, name)
  {
    SearchFindsEntries(t, name);
    InsertDuplicate(t, name, number);
  }

  /** After deleting a name, searching for it finds nothing; searches for every
      other name are unchanged. */
  lemma SearchAfterDelete(t: Tree, name: Name, other: Name)
    requires Bst(t)
    ensures Search(Delete(t, name), name) == None
    ensures other != name ==> Search(Delete(t, name), other) == Search(t, other)
  {
    DeleteKeys(t, name);
    DeleteEntries(t, name);
    SearchFindsEntries(Delete(t, name), name);
    if other != name {
      SearchesAgreeAway(t, Delete(t, name), name, other);
    }
  }
}
