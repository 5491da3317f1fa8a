/** What `deleteNodeByName` does to the contents and the order of the phone book,
    and what it does not keep. */
module DeleteProofs {
  import opened CString
  import opened Phonebook
  import opened TreeFacts
  import opened SearchProofs

  /** Deleting from a search tree removes the name (if present) and nothing else,
      keeps search-tree order, and shrinks the book by exactly one contact when the
      name was there. */
  lemma {:induction false} DeleteKeys(t: Tree, name: Name)
    requires Bst(t)
    ensures Bst(Delete(t, name))
    ensures Keys(Delete(t, name)) == Keys(t) - {name}
    ensures Size(Delete(t, name)) == if name in Keys(t) then Size(t) - 1 else Size(t)
  {
    match t
    case Leaf =>
    case Node(l, k, v, h, rt) =>
      var compare := StrCmp(name, k);
      StrCmpAntisymmetric(name, k);
      if compare < 0 {
        DeleteKeys(l, name);
        assert Delete(t, name) == Node(Delete(l, name), k, v, h, rt);
        assert name !in Keys(rt) && name != k;
        ReplacedLeft(l, k, v, h, rt, Delete(l, name), name);
      } else if compare > 0 {
        DeleteKeys(rt, name);
        assert Delete(t, name) == Node(l, k, v, h, Delete(rt, name));
        assert name !in Keys(l) && name != k;
        ReplacedRight(l, k, v, h, rt, Delete(rt, name), name);
      } else if l.Node? && rt.Node? {
        var succ := MinEntry(rt);
        DeleteKeys(rt, succ.name);
        SuccessorKeepsOrder(t);
      } else {
        assert name == k && name !in Keys(l) && name !in Keys(rt);
      }
  }

  /** A search-tree node whose left subtree `l` became `d`, losing exactly `name`
      (which is neither the node's nor on its right), is in order and lost `name`. */
  lemma ReplacedLeft(l: Tree, k: Name, v: Number, h: nat, rt: Tree, d: Tree, name: Name)
    requires Bst(Node(l, k, v, h, rt)) && Bst(d) && Keys(d) == Keys(l) - {name}
    requires Size(d) == if name in Keys(l) then Size(l) - 1 else Size(l)
    requires name != k && name !in Keys(rt)
    ensures Bst(Node(d, k, v, h, rt)) && Keys(Node(d, k, v, h, rt)) == Keys(Node(l, k, v, h, rt)) - {name}
    ensures Size(Node(d, k, v, h, rt)) == if name in Keys(l) then Size(Node(l, k, v, h, rt)) - 1 else Size(Node(l, k, v, h, rt))
  {
  }

  /** The mirror image of `ReplacedLeft`. */
  lemma ReplacedRight(l: Tree, k: Name, v: Number, h: nat, rt: Tree, d: Tree, name: Name)
    requires Bst(Node(l, k, v, h, rt)) && Bst(d) && Keys(d) == Keys(rt) - {name}
    requires Size(d) == if name in Keys(rt) then Size(rt) - 1 else Size(rt)
    requires name != k && name !in Keys(l)
    ensures Bst(Node(l, k, v, h, d)) && Keys(Node(l, k, v, h, d)) == Keys(Node(l, k, v, h, rt)) - {name}
    ensures Size(Node(l, k, v, h, d)) == if name in Keys(rt) then Size(Node(l, k, v, h, rt)) - 1 else Size(Node(l, k, v, h, rt))
  {
  }

  /** Overwriting a two-child node with its successor and deleting the successor
      from the right subtree keeps search-tree order and removes just the name. */
  lemma SuccessorKeepsOrder(t: Tree)
    requires Bst(t) && t.Node? && t.left.Node? && t.right.Node?
    requires var m := MinEntry(t.right).name;
      && Bst(Delete(t.right, m)) && Keys(Delete(t.right, m)) == Keys(t.right) - {m}
      && Size(Delete(t.right, m)) == if m in Keys(t.right) then Size(t.right) - 1 else Size(t.right)
    ensures Bst(Delete(t, t.name))
    ensures Keys(Delete(t, t.name)) == Keys(t) - {t.name}
    ensures Size(Delete(t, t.name)) == Size(t) - 1
  {
    var l, k, rt := t.left, t.name, t.right;
    var succ := MinEntry(rt);
    var d := Delete(rt, succ.name);
    assert Delete(t, k) == Node(l, succ.name, succ.number, t.height, d);
    KeysAreEntryNames(rt);
    SuccessorBounds(t);
    RebuiltNode(l, k, rt, succ, t.height, d);
  }

  /** The node rebuilt around the successor `succ` of `k`, over the left subtree `l`
      and what is left of the right subtree `rt`, is in order and lacks `k`. */
  lemma RebuiltNode(l: Tree, k: Name, rt: Tree, succ: Entry, h: nat, d: Tree)
    requires Bst(l) && Bst(d) && succ.name in Keys(rt) && Keys(d) == Keys(rt) - {succ.name}
    requires Size(d) == Size(rt) - 1
    requires forall x :: x in Keys(l) ==> Less(x, succ.name)
    requires forall x :: x in Keys(rt) - {succ.name} ==> Less(succ.name, x)
    requires k !in Keys(l) && k !in Keys(rt)
    ensures Bst(Node(l, succ.name, succ.number, h, d))
    ensures Keys(Node(l, succ.name, succ.number, h, d)) == Keys(l) + {k} + Keys(rt) - {k}
    ensures Size(Node(l, succ.name, succ.number, h, d)) == Size(l) + 1 + Size(rt) - 1
  {
  }

  /** The successor sorts after every name on the left and before every other name
      on the right. */
  lemma SuccessorBounds(t: Tree)
    requires Bst(t) && t.Node? && t.right.Node?
    ensures forall x :: x in Keys(t.left) ==> Less(x, MinEntry(t.right).name)
    ensures forall x :: x in Keys(t.right) - {MinEntry(t.right).name} ==> Less(MinEntry(t.right).name, x)
  {
    var m := MinEntry(t.right).name;
    KeysAreEntryNames(t.right);
    assert m in Keys(t.right);
    MinEntryIsLeast(t.right);
    forall x | x in Keys(t.left) ensures Less(x, m) {
      LessTransitive(x, t.name, m);
    }
  }

  /** Deleting from a search tree keeps every contact whose name differs and drops
      the one whose name matches. */
  lemma {:induction false} DeleteEntries(t: Tree, name: Name)
    requires Bst(t)
    ensures forall e :: e in Entries(Delete(t, name)) <==> e in Entries(t) && e.name != name
  {
    match t
    case Leaf =>
    case Node(l, k, _, _, rt) =>
      var compare := StrCmp(name, k);
      StrCmpAntisymmetric(name, k);
      KeysAreEntryNames(l);
      KeysAreEntryNames(rt);
      if compare < 0 {
        DeleteEntries(l, name);
      } else if compare > 0 {
        DeleteEntries(rt, name);
      } else if l.Node? && rt.Node? {
        var succ := MinEntry(rt);
        DeleteEntries(rt, succ.name);
        forall e | e in Entries(rt) && e.name == succ.name ensures e == succ {
          NamesAreUnique(rt, succ.name, e.number, succ.number);
        }
      }
  }

  /** A node with two children takes over its in-order successor: the smallest name
      of the tree that sorts after the deleted one, with that contact's number, and
      the successor leaves the right subtree. */
  lemma DeleteTwoChildren(t: Tree)
    requires Bst(t) && t.Node? && t.left.Node? && t.right.Node?
    ensures var r := Delete(t, t.name);
      && r.Node? && r.left == t.left
      && Entry(r.name, r.number) in Entries(t)
      && Less(t.name, r.name)
      && (forall x :: x in Keys(t) && Less(t.name, x) ==> x == r.name || Less(r.name, x))
      && Keys(r.right) == Keys(t.right) - {r.name}
  {
    var k := t.name;
    var succ := MinEntry(t.right);
    KeysAreEntryNames(t.right);
    MinEntryIsLeast(t.right);
    DeleteKeys(t.right, succ.name);
    forall x | x in Keys(t) && Less(k, x) ensures x == succ.name || Less(succ.name, x) {
      StrCmpAntisymmetric(x, k);
      if x in Keys(t.left) {
        assert false;
      }
      assert x in Keys(t.right);
    }
  }
}
