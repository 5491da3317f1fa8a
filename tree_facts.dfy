/** Facts about the tree abstractions themselves: the cached heights are the true
    heights, search-tree order is exactly an ascending in-order listing, rotations
    keep that order, and an AVL tree is shallow. */
module TreeFacts {
  import opened CString
  import opened Phonebook

  /** Names strictly increase along the listing (which also makes them distinct). */
  ghost predicate Ascending(s: seq<Entry>) {
    forall i, j :: 0 <= i < j < |s| ==> Less(s[i].name, s[j].name)
  }

  /** The names in the tree are exactly the names of its entries. */
  lemma {:induction false} KeysAreEntryNames(t: Tree)
    ensures forall e :: e in Entries(t) ==> e.name in Keys(t)
    ensures forall k :: k in Keys(t) ==> exists v :: Entry(k, v) in Entries(t)
  {
    match t
    case Leaf =>
    case Node(l, k, v, _, r) =>
      KeysAreEntryNames(l);
      KeysAreEntryNames(r);
      assert Entry(k, v) in Entries(t);
  }

  /** With consistent cached heights, `height` is the true height (0 for an empty
      subtree). */
  lemma {:induction false} HeightIsDepth(t: Tree)
    requires HeightsOK(t)
    ensures Height(t) == Depth(t)
  {
    match t
    case Leaf =>
    case Node(l, _, _, _, r) =>
      HeightIsDepth(l);
      HeightIsDepth(r);
  }

  /** With consistent cached heights, `getBalance` is 0 for an empty subtree and
      otherwise the true height of the left child minus that of the right child. */
  lemma BalanceIsDepthDifference(t: Tree)
    requires HeightsOK(t)
    ensures GetBalance(t) == if t.Leaf? then 0 else Depth(t.left) - Depth(t.right)
  {
    if t.Node? {
      HeightIsDepth(t.left);
      HeightIsDepth(t.right);
    }
  }

  /** Search-tree order holds exactly when the in-order listing is strictly ascending. */
  lemma BstIffAscending(t: Tree)
    ensures Bst(t) <==> Ascending(InOrder(t))
  {
    if Bst(t) {
      BstListsAscending(t);
    }
    if Ascending(InOrder(t)) {
      AscendingListIsBst(t);
    }
  }

  lemma {:induction false} BstListsAscending(t: Tree)
    requires Bst(t)
    ensures Ascending(InOrder(t))
  {
    match t
    case Leaf =>
    case Node(l, k, v, _, r) =>
      BstListsAscending(l);
      BstListsAscending(r);
      KeysAreEntryNames(l);
      KeysAreEntryNames(r);
      AscendingJoin(InOrder(l), Entry(k, v), InOrder(r));
  }

  /** Two ascending listings joined around an entry whose name lies between them. */
  lemma AscendingJoin(sl: seq<Entry>, e: Entry, sr: seq<Entry>)
    requires Ascending(sl) && Ascending(sr)
    requires forall x :: x in sl ==> Less(x.name, e.name)
    requires forall y :: y in sr ==> Less(e.name, y.name)
    ensures Ascending(sl + [e] + sr)
  {
    var s, n := sl + [e] + sr, |sl|;
    forall i, j | 0 <= i < j < |s| ensures Less(s[i].name, s[j].name) {
      if j < n {
        assert s[i] == sl[i] && s[j] == sl[j];
      } else if i > n {
        assert s[i] == sr[i - n - 1] && s[j] == sr[j - n - 1];
      } else if i < n && j > n {
        assert s[i] == sl[i] && s[j] == sr[j - n - 1];
        LessTransitive(s[i].name, e.name, s[j].name);
      } else if i < n {
        assert s[i] == sl[i] && s[j] == e;
      } else {
        assert s[j] == sr[j - n - 1] && s[i] == e;
      }
    }
  }

  lemma {:induction false} AscendingListIsBst(t: Tree)
    requires Ascending(InOrder(t))
    ensures Bst(t)
  {
    match t
    case Leaf =>
    case Node(l, k, v, _, r) =>
      var sl, sr, s := InOrder(l), InOrder(r), InOrder(t);
      var n := |sl|;
      assert s == sl + [Entry(k, v)] + sr;
      assert sl == s[..n] && sr == s[n + 1..];
      AscendingSlice(s, 0, n);
      AscendingSlice(s, n + 1, |s|);
      AscendingListIsBst(l);
      AscendingListIsBst(r);
      forall x | x in Keys(l) ensures Less(x, k) {
        var i := KeyListed(l, x);
        assert s[i] == sl[i] && s[n] == Entry(k, v);
      }
      forall x | x in Keys(r) ensures Less(k, x) {
        var i := KeyListed(r, x);
        assert s[i + n + 1] == sr[i] && s[n] == Entry(k, v);
      }
  }

  lemma AscendingSlice(s: seq<Entry>, a: nat, b: nat)
    requires Ascending(s) && a <= b <= |s|
    ensures Ascending(s[a..b])
  {
    forall i, j | 0 <= i < j < b - a ensures Less(s[a..b][i].name, s[a..b][j].name) {
      assert s[a..b][i] == s[a + i] && s[a..b][j] == s[a + j];
    }
  }

  /** Every name in the tree has a position in its listing. */
  lemma {:induction false} KeyListed(t: Tree, x: Name) returns (i: nat)
    requires x in Keys(t)
    ensures i < |InOrder(t)| && InOrder(t)[i].name == x
  {
    match t
    case Node(l, k, v, _, r) =>
      assert InOrder(t) == InOrder(l) + [Entry(k, v)] + InOrder(r);
      if x in Keys(l) {
        i := KeyListed(l, x);
      } else if x == k {
        i := |InOrder(l)|;
      } else {
        var j := KeyListed(r, x);
        i := |InOrder(l)| + 1 + j;
      }
  }

  /** Two trees with the same listing hold the same entries, names and number of
      contacts. */
  lemma SameContents(a: Tree, b: Tree)
    requires InOrder(a) == InOrder(b)
    ensures Entries(a) == Entries(b) && Keys(a) == Keys(b) && Size(a) == Size(b)
  {
    KeysAreEntryNames(a);
    KeysAreEntryNames(b);
    assert forall e :: e in Entries(a) <==> e in InOrder(a);
  }

  /** Two trees with the same listing are search trees together or not at all. */
  lemma SameOrder(a: Tree, b: Tree)
    requires InOrder(a) == InOrder(b)
    ensures Bst(a) <==> Bst(b)
  {
    BstIffAscending(a);
    BstIffAscending(b);
  }

  /** `rightRotate` and `leftRotate` keep the entries, the names and the search-tree order. */
  lemma RotationsPreserveOrder(t: Tree)
    ensures t.Node? && t.left.Node? ==>
      Entries(RightRotate(t)) == Entries(t) && Keys(RightRotate(t)) == Keys(t) && (Bst(RightRotate(t)) <==> Bst(t))
    ensures t.Node? && t.right.Node? ==>
      Entries(LeftRotate(t)) == Entries(t) && Keys(LeftRotate(t)) == Keys(t) && (Bst(LeftRotate(t)) <==> Bst(t))
  {
    if t.Node? && t.left.Node? {
      SameContents(RightRotate(t), t);
      SameOrder(RightRotate(t), t);
    }
    if t.Node? && t.right.Node? {
      SameContents(LeftRotate(t), t);
      SameOrder(LeftRotate(t), t);
    }
  }

  function Pow2(n: nat): nat {
    if n == 0 then 1 else 2 * Pow2(n - 1)
  }

  lemma {:induction false} Pow2Monotone(a: nat, b: nat)
    requires a <= b
    ensures Pow2(a) <= Pow2(b)
    decreases b
  {
    if a < b {
      Pow2Monotone(a, b - 1);
    }
  }

  /** An AVL tree of height h holds at least 2^(h/2) - 1 contacts, so its height is
      logarithmic in its size. */
  lemma {:induction false} AvlSizeBound(t: Tree)
    requires IsAvl(t)
    ensures Pow2(Height(t) / 2) <= Size(t) + 1
  {
    match t
    case Leaf =>
    case Node(l, _, _, h, r) =>
      AvlSizeBound(l);
      AvlSizeBound(r);
      if h >= 2 {
        var m := (h - 2) / 2;
        assert Height(l) >= h - 2 && Height(r) >= h - 2;
        Pow2Monotone(m, Height(l) / 2);
        Pow2Monotone(m, Height(r) / 2);
        assert h / 2 == m + 1;
      }
  }

  function Fib(n: nat): nat {
    if n < 2 then n else Fib(n - 1) + Fib(n - 2)
  }

  lemma {:induction false} FibMonotone(a: nat, b: nat)
    requires a <= b
    ensures Fib(a) <= Fib(b)
    decreases b
  {
    if a < b {
      FibMonotone(a, b - 1);
    }
  }

  /** The sharper form of `AvlSizeBound`: an AVL tree of height h holds at least
      Fib(h + 2) - 1 contacts, the size of the sparsest AVL tree of that height, so
      its height is at most about 1.44 log2(size + 2). */
  lemma {:induction false} AvlFibonacciBound(t: Tree)
    requires IsAvl(t)
    ensures Fib(Height(t) + 2) <= Size(t) + 1
  {
    match t
    case Leaf =>
    case Node(l, _, _, h, r) =>
      AvlFibonacciBound(l);
      AvlFibonacciBound(r);
      var m := Max(Height(l), Height(r));
      assert h == m + 1 && Height(l) <= m <= Height(l) + 1 && Height(r) <= m <= Height(r) + 1;
      assert Fib(h + 2) == Fib(m + 2) + Fib(m + 1);
      if Height(l) == m {
        FibMonotone(m + 1, Height(r) + 2);
      } else {
        FibMonotone(m + 1, Height(l) + 2);
      }
  }
}
