/** What `searchNumber` and `findMin` find. */
module SearchProofs {
  import opened CString
  import opened Phonebook
  import opened TreeFacts

  /** In a search tree, the search returns the number stored under the name, and
      reports the name missing exactly when no contact has it. */
  lemma {:induction false} SearchFindsEntries(t: Tree, name: Name)
    requires Bst(t)
    ensures forall v :: Search(t, name) == Some(v) <==> Entry(name, v) in Entries(t)
    ensures Search(t, name) == None <==> name !in Keys(t)
  {
    match t
    case Leaf =>
    case Node(l, k, _, _, rt) =>
      var cmp := StrCmp(name, k);
      StrCmpAntisymmetric(name, k);
      KeysAreEntryNames(l);
      KeysAreEntryNames(rt);
      if cmp < 0 {
        SearchFindsEntries(l, name);
      } else if cmp > 0 {
        SearchFindsEntries(rt, name);
      }
  }

  /** A search tree holds at most one number per name. */
  lemma NamesAreUnique(t: Tree, name: Name, v: Number, w: Number)
    requires Bst(t) && Entry(name, v) in Entries(t) && Entry(name, w) in Entries(t)
    ensures v == w
  {
    SearchFindsEntries(t, name);
  }

  /** As written, every unsuccessful search ends by reading through a NULL pointer,
      whatever the shape of the tree. */
  lemma SearchAsWrittenMissDereferencesNull(t: Tree, name: Name)
    requires name !in Keys(t)
    ensures SearchAsWritten(t, name) == NotFoundThenNullDereference
  {
    KeysAreEntryNames(t);
  }

  /** The contact `findMin` reaches is the first one the listing shows. */
  lemma {:induction false} MinEntryIsFirstListed(t: Tree)
    requires t.Node?
    ensures |InOrder(t)| > 0 && MinEntry(t) == InOrder(t)[0]
  {
    if t.left.Node? {
      MinEntryIsFirstListed(t.left);
    }
  }

  /** In a search tree, the leftmost name sorts before every other name. */
  lemma {:induction false} MinEntryIsLeast(t: Tree)
    requires Bst(t) && t.Node?
    ensures forall x :: x in Keys(t) ==> x == MinEntry(t).name || Less(MinEntry(t).name, x)
  {
    var m := MinEntry(t).name;
    if t.left.Node? {
      MinEntryIsLeast(t.left);
      KeysAreEntryNames(t.left);
      forall x | x in Keys(t.right) ensures Less(m, x) {
        LessTransitive(m, t.name, x);
      }
    }
  }
}
