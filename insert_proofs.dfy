/** What `insert` does to the contents and the order of the phone book. */
module InsertProofs {
  import opened CString
  import opened Phonebook
  import opened TreeFacts

  /** Inserting adds the name to the tree's names; inserting an absent name adds
      exactly one entry, the new contact, and every other contact keeps its number. */
  lemma {:induction false} InsertContents(t: Tree, name: Name, number: Number)
    requires IsAvl(t)
    ensures Keys(Insert(t, name, number)) == Keys(t) + {name}
    ensures name !in Keys(t) ==> Entries(Insert(t, name, number)) == Entries(t) + {Entry(name, number)}
    ensures name !in Keys(t) ==> Size(Insert(t, name, number)) == Size(t) + 1
  {
    match t
    case Leaf =>
    case Node(l, k, v, h, rt) =>
      var cmp := StrCmp(name, k);
      if cmp < 0 {
        InsertContents(l, name, number);
        var n := Node(Insert(l, name, number), k, v, h, rt);
        assert InOrder(Insert(t, name, number)) == InOrder(n);
        SameContents(Insert(t, name, number), n);
        GainedLeft(l, k, v, h, rt, Insert(l, name, number), name, number);
      } else if cmp > 0 {
        InsertContents(rt, name, number);
        var n := Node(l, k, v, h, Insert(rt, name, number));
        assert InOrder(Insert(t, name, number)) == InOrder(n);
        SameContents(Insert(t, name, number), n);
        GainedRight(l, k, v, h, rt, Insert(rt, name, number), name, number);
      }
  }

  /** A node whose left subtree `l` became `l'`, gaining `name` and, for an absent
      name, exactly the one new contact, gained the same. */
  lemma GainedLeft(l: Tree, k: Name, v: Number, h: nat, rt: Tree, l': Tree, name: Name, number: Number)
    requires Keys(l') == Keys(l) + {name}
    requires name !in Keys(l) ==> Entries(l') == Entries(l) + {Entry(name, number)} && Size(l') == Size(l) + 1
    ensures Keys(Node(l', k, v, h, rt)) == Keys(Node(l, k, v, h, rt)) + {name}
    ensures name !in Keys(Node(l, k, v, h, rt)) ==>
      && Entries(Node(l', k, v, h, rt)) == Entries(Node(l, k, v, h, rt)) + {Entry(name, number)}
      && Size(Node(l', k, v, h, rt)) == Size(Node(l, k, v, h, rt)) + 1
  {
  }

  /** The mirror image of `GainedLeft`. */
  lemma GainedRight(l: Tree, k: Name, v: Number, h: nat, rt: Tree, rt': Tree, name: Name, number: Number)
    requires Keys(rt') == Keys(rt) + {name}
    requires name !in Keys(rt) ==> Entries(rt') == Entries(rt) + {Entry(name, number)} && Size(rt') == Size(rt) + 1
    ensures Keys(Node(l, k, v, h, rt')) == Keys(Node(l, k, v, h, rt)) + {name}
    ensures name !in Keys(Node(l, k, v, h, rt)) ==>
      && Entries(Node(l, k, v, h, rt')) == Entries(Node(l, k, v, h, rt)) + {Entry(name, number)}
      && Size(Node(l, k, v, h, rt')) == Size(Node(l, k, v, h, rt)) + 1
  {
  }

  /** Inserting into a search tree gives a search tree. */
  lemma {:induction false} InsertKeepsBst(t: Tree, name: Name, number: Number)
    requires IsAvl(t) && Bst(t)
    ensures Bst(Insert(t, name, number))
  {
    match t
    case Leaf =>
    case Node(l, k, _, _, rt) =>
      var cmp := StrCmp(name, k);
      if cmp < 0 {
        var l' := Insert(l, name, number);
        InsertKeepsBst(l, name, number);
        InsertContents(l, name, number);
        var n := t.(left := l');
        assert Bst(n);
        assert InOrder(Insert(t, name, number)) == InOrder(n);
        SameOrder(Insert(t, name, number), n);
      } else if cmp > 0 {
        var rt' := Insert(rt, name, number);
        InsertKeepsBst(rt, name, number);
        InsertContents(rt, name, number);
        StrCmpAntisymmetric(name, k);
        var n := t.(right := rt');
        assert Bst(n);
        assert InOrder(Insert(t, name, number)) == InOrder(n);
        SameOrder(Insert(t, name, number), n);
      }
  }

  /** A name already in the book leaves the tree as it was: the first number stays. */
  lemma {:induction false} InsertDuplicate(t: Tree, name: Name, number: Number)
    requires IsAvl(t) && Bst(t) && name in Keys(t)
    ensures Insert(t, name, number) == t
  {
    match t
    case Node(l, k, _, _, rt) =>
      var cmp := StrCmp(name, k);
      StrCmpAntisymmetric(name, k);
      if cmp < 0 {
        InsertDuplicate(l, name, number);
      } else if cmp > 0 {
        InsertDuplicate(rt, name, number);
      }
  }

  /** On an AVL tree, `insert` as written never hands a NULL grandchild to a rotation:
      it gives exactly `Insert`. */
  lemma {:induction false} InsertAsWrittenAgrees(t: Tree, name: Name, number: Number)
    requires IsAvl(t)
    ensures InsertAsWritten(t, name, number) == Inserted(Insert(t, name, number))
  {
    match t
    case Leaf =>
    case Node(l, k, _, _, rt) =>
      var cmp := StrCmp(name, k);
      if cmp < 0 {
        InsertAsWrittenAgrees(l, name, number);
        var l' := Insert(l, name, number);
        InsertedLeft(t, l', name);
        RebalanceAgrees(t.(left := l'), name);
      } else if cmp > 0 {
        InsertAsWrittenAgrees(rt, name, number);
        var rt' := Insert(rt, name, number);
        InsertedRight(t, rt', name);
        RebalanceAgrees(t.(right := rt'), name);
      }
  }

  /** On any search tree, including one that deletions have left with stale heights,
      an insertion as written that does not stop at a NULL rotation keeps search-tree
      order, adds the name, and for an absent name adds exactly the new contact. */
  lemma {:induction false} InsertAsWrittenKeepsOrder(t: Tree, name: Name, number: Number)
    requires Bst(t)
    ensures InsertAsWritten(t, name, number).Inserted? ==> Grew(t, InsertAsWritten(t, name, number).tree, name, number)
  {
    match t
    case Leaf =>
    case Node(l, k, v, h, rt) =>
      var cmp := StrCmp(name, k);
      StrCmpAntisymmetric(name, k);
      if cmp < 0 {
        match InsertAsWritten(l, name, number)
        case NullRotation =>
        case Inserted(l') =>
          InsertAsWrittenKeepsOrder(l, name, number);
          var n := Node(l', k, v, h, rt);
          GrewChild(t, n, name, number);
          var r := RebalanceAsWritten(n, name);
          assert InsertAsWritten(t, name, number) == r;
          if r.Inserted? {
            SameContents(r.tree, n);
            SameOrder(r.tree, n);
          }
      } else if cmp > 0 {
        match InsertAsWritten(rt, name, number)
        case NullRotation =>
        case Inserted(rt') =>
          InsertAsWrittenKeepsOrder(rt, name, number);
          var n := Node(l, k, v, h, rt');
          GrewChild(t, n, name, number);
          var r := RebalanceAsWritten(n, name);
          assert InsertAsWritten(t, name, number) == r;
          if r.Inserted? {
            SameContents(r.tree, n);
            SameOrder(r.tree, n);
          }
      }
  }

  /** A search-tree node one of whose children took in `name` on the side the name
      sorts to, keeping order, is still in order and took in the same. */
  lemma GrewChild(t: Tree, n: Tree, name: Name, number: Number)
    requires Bst(t) && t.Node? && n.Node? && (n.name, n.number, n.height) == (t.name, t.number, t.height)
    requires Less(name, t.name) ==> n.right == t.right && Grew(t.left, n.left, name, number)
    requires Less(t.name, name) ==> n.left == t.left && Grew(t.right, n.right, name, number)
    requires Less(name, t.name) || Less(t.name, name)
    ensures Grew(t, n, name, number)
  {
    StrCmpAntisymmetric(name, t.name);
    if Less(name, t.name) {
      assert name !in Keys(t.right);
    } else {
      assert name !in Keys(t.left);
    }
  }

  /** `b` is `a` in search-tree order with `name` taken in: a new contact for an
      absent name, nothing new for a present one. */
  ghost predicate Grew(a: Tree, b: Tree, name: Name, number: Number) {
    && Bst(b) && Keys(b) == Keys(a) + {name}
    && (name !in Keys(a) ==> Entries(b) == Entries(a) + {Entry(name, number)} && Size(b) == Size(a) + 1)
    && (name in Keys(a) ==> Entries(b) == Entries(a))
  }

  /** Where `Rebalance` applies, the left-right and right-left cases find their
      grandchild, so the tail of `insert` as written is `Rebalance`. */
  lemma RebalanceAgrees(n: Tree, name: Name)
    requires n.Node? && IsAvl(n.left) && IsAvl(n.right)
    requires -2 <= Height(n.left) - Height(n.right) <= 2
    requires Height(n.left) - Height(n.right) == 2 ==> LeansTowards(n.left, name)
    requires Height(n.left) - Height(n.right) == -2 ==> LeansTowards(n.right, name)
    ensures RebalanceAsWritten(n, name) == Inserted(Rebalance(n, name))
  {
    var node := n.(height := 1 + Max(Height(n.left), Height(n.right)));
    if Height(n.left) - Height(n.right) == 2 && StrCmp(name, n.left.name) > 0 {
      LeftRightFix(node);
    }
    if Height(n.left) - Height(n.right) == -2 && StrCmp(name, n.right.name) < 0 {
      RightLeftFix(node);
    }
  }

  /** The whole promise of `insert` for a new name: the result is again an AVL search
      tree, it holds the old contacts plus the new one, and it lists them in strictly
      ascending order of name. */
  lemma InsertCorrect(t: Tree, name: Name, number: Number)
    requires IsAvl(t) && Bst(t) && name !in Keys(t)
    ensures var r := Insert(t, name, number);
      && IsAvl(r) && Bst(r)
      && Keys(r) == Keys(t) + {name}
      && Entries(r) == Entries(t) + {Entry(name, number)}
      && Size(r) == Size(t) + 1
      && Ascending(InOrder(r))
  {
    InsertContents(t, name, number);
    InsertKeepsBst(t, name, number);
    BstIffAscending(Insert(t, name, number));
  }
}
