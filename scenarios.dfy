/** Concrete runs of the phone book on small inputs. */
module Scenarios {
  import opened CString
  import opened Phonebook
  import opened TreeFacts

  const A: Name := [65]
  const B: Name := [66]
  const C: Name := [67]
  const D: Name := [68]
  const E: Name := [69]
  const F: Name := [70]
  const G: Name := [71]
  const H: Name := [72]

  /** Inserting "A", "B", "C" in that order: the third insertion leaves the root
      with balance -2 and the new name right of the right child, the right-right
      case, and a single left rotation makes "B" the root. */
  lemma AscendingInsertsRotateLeft(na: Number, nb: Number, nc: Number)
    ensures Insert(Insert(Insert(Leaf, A, na), B, nb), C, nc)
         == Node(Node(Leaf, A, na, 1, Leaf), B, nb, 2, Node(Leaf, C, nc, 1, Leaf))
  {
    var a, b, c := NewNode(A, na), NewNode(B, nb), NewNode(C, nc);
    assert Insert(Leaf, A, na) == a;
    assert StrCmp(B, A) > 0 && StrCmp(C, A) > 0 && StrCmp(C, B) > 0;
    assert Insert(a, B, nb) == Rebalance(a.(right := b), B);
    var t2 := Node(Leaf, A, na, 2, b);
    assert Insert(a, B, nb) == t2;
    assert Insert(b, C, nc) == Rebalance(b.(right := c), C) == Node(Leaf, B, nb, 2, c);
    var n := t2.(right := Node(Leaf, B, nb, 2, c));
    assert Insert(t2, C, nc) == Rebalance(n, C);
    assert GetBalance(n.(height := 3)) == -2;
  }

  const Bob: Name := [66, 111, 98]
  const Alice: Name := [65, 108, 105, 99, 101]
  const Carl: Name := [67, 97, 114, 108]

  /** Insert "Bob", "Alice", "Carl"; the listing is alphabetical; after deleting
      "Bob" the listing drops him and a search for him finds nothing. */
  lemma ListingAfterInsertsAndDelete(nb: Number, na: Number, nc: Number)
    ensures var t := Insert(Insert(Insert(Leaf, Bob, nb), Alice, na), Carl, nc);
      && InOrder(t) == [Entry(Alice, na), Entry(Bob, nb), Entry(Carl, nc)]
      && InOrder(Delete(t, Bob)) == [Entry(Alice, na), Entry(Carl, nc)]
      && Search(Delete(t, Bob), Bob) == None
  {
    assert StrCmp(Alice, Bob) < 0 && StrCmp(Carl, Bob) > 0 && StrCmp(Bob, Carl) < 0;
    var b, a, c := NewNode(Bob, nb), NewNode(Alice, na), NewNode(Carl, nc);
    assert Insert(Leaf, Bob, nb) == b;
    assert Insert(b, Alice, na) == Rebalance(b.(left := a), Alice);
    var t2 := Node(a, Bob, nb, 2, Leaf);
    assert Insert(b, Alice, na) == t2;
    var t := Node(a, Bob, nb, 2, c);
    assert Insert(t2, Carl, nc) == Rebalance(t2.(right := c), Carl) == t;
    assert InOrder(t) == [Entry(Alice, na), Entry(Bob, nb), Entry(Carl, nc)];
    assert MinEntry(c) == Entry(Carl, nc);
    var d := Node(a, Carl, nc, 2, Leaf);
    assert Delete(t, Bob) == d;
    assert StrCmp(Bob, Alice) > 0;
  }

  /** A search for "A" in a book holding only "B" reaches the empty left subtree of
      the root; as written it then reads through NULL, the guarded search reports
      the name missing. */
  lemma MissInOneContactBook(nb: Number)
    ensures SearchAsWritten(NewNode(B, nb), A) == NotFoundThenNullDereference
    ensures Search(NewNode(B, nb), A) == None
  {
    assert StrCmp(A, B) < 0;
  }

  /** Deleting never rebalances: removing "A" from the AVL search tree B(A, C(-, D))
      leaves a root whose right side is two levels deeper than its left. */
  lemma DeleteMayUnbalance(n: Number)
    ensures var t := Node(NewNode(A, n), B, n, 3, Node(Leaf, C, n, 2, NewNode(D, n)));
      && IsAvl(t) && Bst(t) && !Balanced(Delete(t, A))
  {
    assert StrCmp(A, B) < 0;
    assert Less(A, B) && Less(B, C) && Less(B, D) && Less(C, D);
  }

  /** Inserting E, C, G, B, all with number `n`, needs no rotation and gives
      E(C(B, -), G). */
  lemma FourInserts(n: Number)
    ensures Insert(Insert(Insert(Insert(Leaf, E, n), C, n), G, n), B, n)
         == Node(Node(NewNode(B, n), C, n, 2, Leaf), E, n, 3, NewNode(G, n))
  {
    assert Less(B, C) && Less(C, E) && Less(B, E) && StrCmp(G, E) > 0;
    var b, c, e, g := NewNode(B, n), NewNode(C, n), NewNode(E, n), NewNode(G, n);
    assert Insert(Leaf, E, n) == e;
    var t2 := Node(c, E, n, 2, Leaf);
    assert Insert(e, C, n) == t2;
    var t3 := Node(c, E, n, 2, g);
    assert Insert(t2, G, n) == t3;
    var cb := Node(b, C, n, 2, Leaf);
    assert Insert(c, B, n) == cb;
    assert Insert(t3, B, n) == Node(cb, E, n, 3, g);
  }

  /** Then D and H, again without rotation: E(C(B, D), G(-, H)). */
  lemma InsertsDH(n: Number)
    ensures var t4 := Node(Node(NewNode(B, n), C, n, 2, Leaf), E, n, 3, NewNode(G, n));
      Insert(Insert(t4, D, n), H, n)
        == Node(Node(NewNode(B, n), C, n, 2, NewNode(D, n)), E, n, 3, Node(Leaf, G, n, 2, NewNode(H, n)))
  {
    assert Less(D, E) && StrCmp(D, C) > 0 && StrCmp(H, E) > 0 && StrCmp(H, G) > 0;
    var b, d, g, h := NewNode(B, n), NewNode(D, n), NewNode(G, n), NewNode(H, n);
    var cb := Node(b, C, n, 2, Leaf);
    var t4 := Node(cb, E, n, 3, g);
    var cbd := Node(b, C, n, 2, d);
    assert Insert(cb, D, n) == cbd;
    var t5 := Node(cbd, E, n, 3, g);
    assert Insert(t4, D, n) == t5;
    var gh := Node(Leaf, G, n, 2, h);
    assert Insert(g, H, n) == gh;
    assert Insert(t5, H, n) == Node(cbd, E, n, 3, gh);
  }

  /** Then A, still without rotation: E(C(B(A, -), D), G(-, H)). */
  lemma InsertA(n: Number)
    ensures var t6 := Node(Node(NewNode(B, n), C, n, 2, NewNode(D, n)), E, n, 3, Node(Leaf, G, n, 2, NewNode(H, n)));
      Insert(t6, A, n) == Node(Node(Node(NewNode(A, n), B, n, 2, Leaf), C, n, 3, NewNode(D, n)), E, n, 4, Node(Leaf, G, n, 2, NewNode(H, n)))
  {
    assert Less(A, B) && Less(A, C) && Less(A, E);
    var a, b, d := NewNode(A, n), NewNode(B, n), NewNode(D, n);
    var ba := Node(a, B, n, 2, Leaf);
    assert Insert(b, A, n) == ba;
    var cbd := Node(b, C, n, 2, d);
    assert Insert(cbd, A, n) == Node(ba, C, n, 3, d);
  }

  /** Inserting E, C, G, B, D, H, A, all with number `n`, needs no rotation and
      gives E(C(B(A, -), D), G(-, H)). */
  lemma SevenInserts(n: Number)
    ensures Insert(Insert(Insert(Insert(Insert(Insert(Insert(Leaf, E, n), C, n), G, n), B, n), D, n), H, n), A, n)
         == Node(Node(Node(NewNode(A, n), B, n, 2, Leaf), C, n, 3, NewNode(D, n)), E, n, 4, Node(Leaf, G, n, 2, NewNode(H, n)))
  {
    FourInserts(n);
    InsertsDH(n);
    InsertA(n);
  }

  /** Deleting D, G and H from that tree leaves E(C(B(A, -), -), -) with every cached
      height as it was. */
  lemma ThreeDeletes(n: Number)
    ensures var t := Node(Node(Node(NewNode(A, n), B, n, 2, Leaf), C, n, 3, NewNode(D, n)), E, n, 4, Node(Leaf, G, n, 2, NewNode(H, n)));
      Delete(Delete(Delete(t, D), G), H) == Node(Node(Node(NewNode(A, n), B, n, 2, Leaf), C, n, 3, Leaf), E, n, 4, Leaf)
  {
    assert Less(D, E) && StrCmp(D, C) > 0 && StrCmp(G, E) > 0 && StrCmp(H, E) > 0;
    var t := Node(Node(Node(NewNode(A, n), B, n, 2, Leaf), C, n, 3, NewNode(D, n)), E, n, 4, Node(Leaf, G, n, 2, NewNode(H, n)));
    var cba := Node(NewNode(A, n), B, n, 2, Leaf);
    assert Delete(NewNode(D, n), D) == Leaf;
    assert Delete(t.left, D) == Node(cba, C, n, 3, Leaf);
    var u1 := Node(Node(cba, C, n, 3, Leaf), E, n, 4, Node(Leaf, G, n, 2, NewNode(H, n)));
    assert Delete(t, D) == u1;
    var u2 := Node(Node(cba, C, n, 3, Leaf), E, n, 4, NewNode(H, n));
    assert Delete(u1, G) == u2;
  }

  /** The AVL tree that the seven insertions build loses D, G and H, and is then no
      AVL tree. Inserting F goes right of E, finds E's balance 2 and F after C, takes
      the left-right case, and hands C's NULL right child to `leftRotate`. */
  lemma InsertAfterDeletesRotatesNull(n: Number)
    ensures var t := Node(Node(Node(NewNode(A, n), B, n, 2, Leaf), C, n, 3, NewNode(D, n)), E, n, 4, Node(Leaf, G, n, 2, NewNode(H, n)));
      var u := Delete(Delete(Delete(t, D), G), H);
      && IsAvl(t)
      && u == Node(Node(Node(NewNode(A, n), B, n, 2, Leaf), C, n, 3, Leaf), E, n, 4, Leaf)
      && !IsAvl(u)
      && InsertAsWritten(u, F, n) == NullRotation
  {
    ThreeDeletes(n);
    assert StrCmp(F, E) > 0 && StrCmp(F, C) > 0;
    var u := Node(Node(Node(NewNode(A, n), B, n, 2, Leaf), C, n, 3, Leaf), E, n, 4, Leaf);
    assert InsertAsWritten(Leaf, F, n) == Inserted(NewNode(F, n));
    assert InsertAsWritten(u, F, n) == RebalanceAsWritten(u.(right := NewNode(F, n)), F);
  }

  /** Re-inserting "A" below C(B(A, -), -) with its stale height 3: C rotates right. */
  lemma ReinsertUnderC(n: Number)
    ensures InsertAsWritten(Node(Node(NewNode(A, n), B, n, 2, Leaf), C, n, 3, Leaf), A, n)
         == Inserted(Node(NewNode(A, n), B, n, 2, NewNode(C, n)))
  {
    assert Less(A, B) && Less(A, C);
    var a := NewNode(A, n);
    var ba := Node(a, B, n, 2, Leaf);
    assert InsertAsWritten(a, A, n) == Inserted(a);
    assert InsertAsWritten(ba, A, n) == Inserted(ba);
    var c := Node(ba, C, n, 3, Leaf);
    assert RightRotate(c) == Node(a, B, n, 2, NewNode(C, n));
    assert RebalanceAsWritten(c, A) == Inserted(Node(a, B, n, 2, NewNode(C, n)));
  }

  /** A name already present is not always a no-op. In the tree the three deletions
      leave, re-inserting "A" returns at "A" unchanged, but C and then E recompute
      their heights, find balance 2 with "A" on the left of their left child, and
      each rotates right: the result is B(A, E(C, -)), with the same contacts. */
  lemma DuplicateAfterDeletesRotates(n: Number)
    ensures var u := Node(Node(Node(NewNode(A, n), B, n, 2, Leaf), C, n, 3, Leaf), E, n, 4, Leaf);
      && InsertAsWritten(u, A, n) == Inserted(Node(NewNode(A, n), B, n, 3, Node(NewNode(C, n), E, n, 2, Leaf)))
      && Entries(InsertAsWritten(u, A, n).tree) == Entries(u)
  {
    ReinsertUnderC(n);
    assert Less(A, B) && Less(A, E);
    var a := NewNode(A, n);
    var c := Node(Node(a, B, n, 2, Leaf), C, n, 3, Leaf);
    var bac := Node(a, B, n, 2, NewNode(C, n));
    var u := Node(c, E, n, 4, Leaf);
    var r := Node(a, B, n, 3, Node(NewNode(C, n), E, n, 2, Leaf));
    assert RightRotate(u.(left := bac, height := 3)) == r;
    assert RebalanceAsWritten(u.(left := bac), A) == Inserted(r);
  }
}
