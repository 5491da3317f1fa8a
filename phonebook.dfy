/** The phone book's AVL tree: contacts ordered by name with `strcmp`, each node
    caching the height of its subtree. Every routine of the C code that rewires
    nodes returns the new root of the subtree it was given, so each is modelled
    as a function from the old subtree to the new one. */
module Phonebook {
  import opened CString

  type Name = CStr
  type Number = CStr

  /** One contact, as the in-order listing shows it. */
  datatype Entry = Entry(name: Name, number: Number)

  datatype Option<T> = None | Some(value: T)

  /** `Leaf` is the NULL pointer; `height` is the cached height of the node's subtree. */
  datatype Tree = Leaf | Node(left: Tree, name: Name, number: Number, height: nat, right: Tree)

  // ---------------------------------------------------------------------------
  // Abstractions used by the contracts

  /** The true height of a tree (as opposed to the cached `height` fields). */
  ghost function Depth(t: Tree): nat {
    match t
    case Leaf => 0
    case Node(l, _, _, _, r) => 1 + Max(Depth(l), Depth(r))
  }

  /** Number of contacts in the tree. */
  ghost function Size(t: Tree): nat {
    match t
    case Leaf => 0
    case Node(l, _, _, _, r) => Size(l) + 1 + Size(r)
  }

  ghost function Keys(t: Tree): set<Name> {
    match t
    case Leaf => {}
    case Node(l, k, _, _, r) => Keys(l) + {k} + Keys(r)
  }

  ghost function Entries(t: Tree): set<Entry> {
    match t
    case Leaf => {}
    case Node(l, k, v, _, r) => Entries(l) + {Entry(k, v)} + Entries(r)
  }

  /** Search-tree order: every name on the left sorts before the node's, every name
      on the right after it. */
  ghost predicate Bst(t: Tree) {
    match t
    case Leaf => true
    case Node(l, k, _, _, r) =>
      && Bst(l) && Bst(r)
      && (forall x :: x in Keys(l) ==> Less(x, k))
      && (forall x :: x in Keys(r) ==> Less(k, x))
  }

  /** Every cached height is one more than the larger cached height of its children. */
  ghost predicate HeightsOK(t: Tree) {
    match t
    case Leaf => true
    case Node(l, _, _, h, r) => h == 1 + Max(Height(l), Height(r)) && HeightsOK(l) && HeightsOK(r)
  }

  /** Every node's balance factor lies in -1..1. */
  ghost predicate Balanced(t: Tree) {
    match t
    case Leaf => true
    case Node(l, _, _, _, r) => -1 <= GetBalance(t) <= 1 && Balanced(l) && Balanced(r)
  }

  ghost predicate IsAvl(t: Tree) {
    HeightsOK(t) && Balanced(t)
  }

  // ---------------------------------------------------------------------------
  // The C routines

  /** `height`: the cached height, 0 for an empty subtree. */
  function Height(t: Tree): nat {
    if t.Leaf? then 0 else t.height
  }

  /** `Max` */
  function Max(a: int, b: int): (m: int)
    ensures m >= a && m >= b
    ensures m == a || m == b
  {
    if a > b then a else b
  }

  /** `newNode`: a childless node of height 1. */
  function NewNode(name: Name, number: Number): (r: Tree)
    ensures r.Node? && r.left.Leaf? && r.right.Leaf? && Height(r) == 1
    ensures IsAvl(r) && Bst(r)
    ensures InOrder(r) == [Entry(name, number)]
  {
    Node(Leaf, name, number, 1, Leaf)
  }

  /** `rightRotate`: the left child `x` of `y` becomes the root, `x`'s right subtree
      becomes `y`'s left subtree; `y`'s height is recomputed, then `x`'s. */
  function RightRotate(y: Tree): (x: Tree)
    requires y.Node? && y.left.Node?
    ensures x.Node? && x.right.Node?
    ensures x.left == y.left.left && x.right.left == y.left.right && x.right.right == y.right
    ensures (x.name, x.number) == (y.left.name, y.left.number) && (x.right.name, x.right.number) == (y.name, y.number)
    ensures InOrder(x) == InOrder(y)
    ensures x.right.height == 1 + Max(Height(x.right.left), Height(x.right.right))
    ensures x.height == 1 + Max(Height(x.left), Height(x.right))
  {
    var x := y.left;
    var t2 := x.right;
    var y' := y.(left := t2);
    var y'' := y'.(height := Max(Height(y'.left), Height(y'.right)) + 1);
    var x' := x.(right := y'');
    x'.(height := Max(Height(x'.left), Height(x'.right)) + 1)
  }

  /** `leftRotate`: the mirror image of `rightRotate`. */
  function LeftRotate(x: Tree): (y: Tree)
    requires x.Node? && x.right.Node?
    ensures y.Node? && y.left.Node?
    ensures y.right == x.right.right && y.left.right == x.right.left && y.left.left == x.left
    ensures (y.name, y.number) == (x.right.name, x.right.number) && (y.left.name, y.left.number) == (x.name, x.number)
    ensures InOrder(y) == InOrder(x)
    ensures y.left.height == 1 + Max(Height(y.left.left), Height(y.left.right))
    ensures y.height == 1 + Max(Height(y.left), Height(y.right))
  {
    var y := x.right;
    var t2 := y.left;
    var x' := x.(right := t2);
    var x'' := x'.(height := Max(Height(x'.left), Height(x'.right)) + 1);
    var y' := y.(left := x'');
    y'.(height := Max(Height(y'.left), Height(y'.right)) + 1)
  }

  /** `getBalance`: height of the left subtree minus height of the right one. */
  function GetBalance(t: Tree): int {
    if t.Leaf? then 0 else Height(t.left) - Height(t.right)
  }

  /** After an insertion that made a non-empty subtree taller, the root is still the
      old root and leans towards the side the new name went to. */
  ghost predicate GrewTowards(t: Tree, r: Tree, name: Name) {
    t.Node? && Height(r) == Height(t) + 1 ==>
      && r.Node? && r.name == t.name
      && (StrCmp(name, t.name) < 0 ==> GetBalance(r) == 1)
      && (StrCmp(name, t.name) > 0 ==> GetBalance(r) == -1)
  }

  /** `insert`: descend by `strcmp`, add a new node at the empty position, leave the
      subtree alone on a duplicate name, and rebalance every node on the way back up. */
  function Insert(t: Tree, name: Name, number: Number): (r: Tree)
    requires IsAvl(t)
    ensures IsAvl(r) && r.Node?
    ensures Height(t) <= Height(r) <= Height(t) + 1
    ensures GrewTowards(t, r, name)
    ensures t.Node? && name == t.name ==> r == t
    decreases t
  {
    match t
    case Leaf => NewNode(name, number)
    case Node(l, k, _, _, rt) =>
      var cmp := StrCmp(name, k);
      if cmp < 0 then
        var l' := Insert(l, name, number);
        InsertedLeft(t, l', name);
        Rebalance(t.(left := l'), name)
      else if cmp > 0 then
        var rt' := Insert(rt, name, number);
        InsertedRight(t, rt', name);
        Rebalance(t.(right := rt'), name)
      else t
  }

  /** After the left child of an AVL node `t` grew by insertion into `l'`, the node
      meets the demands of `Rebalance`, and rebalancing keeps what `insert` promises. */
  lemma InsertedLeft(t: Tree, l': Tree, name: Name)
    requires IsAvl(t) && t.Node? && StrCmp(name, t.name) < 0
    requires IsAvl(l') && l'.Node? && Height(t.left) <= Height(l') <= Height(t.left) + 1
    requires GrewTowards(t.left, l', name) && (t.left.Node? && name == t.left.name ==> l' == t.left)
    ensures -2 <= Height(l') - Height(t.right) <= 2
    ensures Height(l') - Height(t.right) == 2 ==> LeansTowards(l', name)
    ensures Height(l') - Height(t.right) != -2
    ensures var r := Rebalance(t.(left := l'), name);
      Height(t) <= Height(r) <= Height(t) + 1 && GrewTowards(t, r, name)
  {
    var n := t.(left := l');
    assert Height(t) == 1 + Max(Height(t.left), Height(t.right));
    assert -1 <= Height(t.left) - Height(t.right) <= 1;
    if Height(l') - Height(t.right) == 2 {
      assert Height(Rebalance(n, name)) == Height(n.left);
    } else {
      assert Rebalance(n, name) == n.(height := 1 + Max(Height(n.left), Height(n.right)));
    }
  }

  /** The mirror image of `InsertedLeft`. */
  lemma InsertedRight(t: Tree, rt': Tree, name: Name)
    requires IsAvl(t) && t.Node? && StrCmp(name, t.name) > 0
    requires IsAvl(rt') && rt'.Node? && Height(t.right) <= Height(rt') <= Height(t.right) + 1
    requires GrewTowards(t.right, rt', name) && (t.right.Node? && name == t.right.name ==> rt' == t.right)
    ensures -2 <= Height(t.left) - Height(rt') <= 2
    ensures Height(t.left) - Height(rt') == -2 ==> LeansTowards(rt', name)
    ensures Height(t.left) - Height(rt') != 2
    ensures var r := Rebalance(t.(right := rt'), name);
      Height(t) <= Height(r) <= Height(t) + 1 && GrewTowards(t, r, name)
  {
    var n := t.(right := rt');
    assert Height(t) == 1 + Max(Height(t.left), Height(t.right));
    assert -1 <= Height(t.left) - Height(t.right) <= 1;
    if Height(t.left) - Height(rt') == -2 {
      assert Height(Rebalance(n, name)) == Height(n.right);
    } else {
      assert Rebalance(n, name) == n.(height := 1 + Max(Height(n.left), Height(n.right)));
    }
  }

  /** The tail of `insert` for a node one of whose children was just replaced:
      recompute the height, then apply the LL, RR, LR or RL rotation the balance
      factor and the inserted name call for. Out of balance by two, the taller child
      leans towards the side the name went to (which is what insertion into an AVL
      tree leaves behind); the LR and RL cases follow a grandchild pointer that is
      non-NULL only because of that. */
  function Rebalance(n: Tree, name: Name): (r: Tree)
    requires n.Node? && IsAvl(n.left) && IsAvl(n.right)
    requires -2 <= Height(n.left) - Height(n.right) <= 2
    requires Height(n.left) - Height(n.right) == 2 ==> LeansTowards(n.left, name)
    requires Height(n.left) - Height(n.right) == -2 ==> LeansTowards(n.right, name)
    ensures IsAvl(r) && r.Node?
    ensures InOrder(r) == InOrder(n)
    ensures -1 <= Height(n.left) - Height(n.right) <= 1 ==>
      r == n.(height := 1 + Max(Height(n.left), Height(n.right)))
    ensures Height(n.left) - Height(n.right) == 2 ==> Height(r) == Height(n.left)
    ensures Height(n.left) - Height(n.right) == -2 ==> Height(r) == Height(n.right)
  {
    var node := n.(height := 1 + Max(Height(n.left), Height(n.right)));
    var balance := GetBalance(node);
    if balance > 1 && StrCmp(name, node.left.name) < 0 then
      LeftLeftFix(node);
      RightRotate(node)
    else if balance < -1 && StrCmp(name, node.right.name) > 0 then
      RightRightFix(node);
      LeftRotate(node)
    else if balance > 1 && StrCmp(name, node.left.name) > 0 then
      LeftRightFix(node);
      RightRotate(node.(left := LeftRotate(node.left)))
    else if balance < -1 && StrCmp(name, node.right.name) < 0 then
      RightLeftFix(node);
      LeftRotate(node.(right := RightRotate(node.right)))
    else
      node
  }

  /** The end of an insertion as written: the new subtree root, or a rotation that
      was handed a NULL child and read through it. */
  datatype InsertOutcome = Inserted(tree: Tree) | NullRotation

  /** What `insert` does as written on any tree, including one whose heights are
      stale or whose balance a deletion has broken: the left-right and right-left
      cases hand a NULL grandchild to `leftRotate` or `rightRotate`, which then reads
      through it. */
  function InsertAsWritten(t: Tree, name: Name, number: Number): (r: InsertOutcome)
    ensures r.Inserted? ==> r.tree.Node? && Entries(t) <= Entries(r.tree) <= Entries(t) + {Entry(name, number)}
    decreases t
  {
    match t
    case Leaf => Inserted(NewNode(name, number))
    case Node(l, k, _, _, rt) =>
      var cmp := StrCmp(name, k);
      if cmp < 0 then
        match InsertAsWritten(l, name, number)
        case NullRotation => NullRotation
        case Inserted(l') => RebalanceAsWritten(t.(left := l'), name)
      else if cmp > 0 then
        match InsertAsWritten(rt, name, number)
        case NullRotation => NullRotation
        case Inserted(rt') => RebalanceAsWritten(t.(right := rt'), name)
      else Inserted(t)
  }

  /** The tail of `insert` as written: the same guards as `Rebalance`, with no
      assumption about the shape of the tree. */
  function RebalanceAsWritten(n: Tree, name: Name): (r: InsertOutcome)
    requires n.Node?
    ensures r.Inserted? ==> r.tree.Node? && InOrder(r.tree) == InOrder(n)
    ensures r.NullRotation? <==>
      || (Height(n.left) - Height(n.right) > 1 && StrCmp(name, n.left.name) > 0 && n.left.right.Leaf?)
      || (Height(n.left) - Height(n.right) < -1 && StrCmp(name, n.right.name) < 0 && n.right.left.Leaf?)
  {
    var node := n.(height := 1 + Max(Height(n.left), Height(n.right)));
    var balance := GetBalance(node);
    if balance > 1 && StrCmp(name, node.left.name) < 0 then
      Inserted(RightRotate(node))
    else if balance < -1 && StrCmp(name, node.right.name) > 0 then
      Inserted(LeftRotate(node))
    else if balance > 1 && StrCmp(name, node.left.name) > 0 then
      if node.left.right.Leaf? then NullRotation
      else Inserted(RightRotate(node.(left := LeftRotate(node.left))))
    else if balance < -1 && StrCmp(name, node.right.name) < 0 then
      if node.right.left.Leaf? then NullRotation
      else Inserted(LeftRotate(node.(right := RightRotate(node.right))))
    else
      Inserted(node)
  }

  /** `t` is a non-empty subtree that leans left if `name` sorts before its root and
      right if after, and `name` is not its root's. */
  ghost predicate LeansTowards(t: Tree, name: Name) {
    && t.Node? && StrCmp(name, t.name) != 0
    && (StrCmp(name, t.name) < 0 ==> GetBalance(t) == 1)
    && (StrCmp(name, t.name) > 0 ==> GetBalance(t) == -1)
  }

  /** `inorder`: the contacts in the order the listing prints them. */
  function InOrder(t: Tree): (s: seq<Entry>)
    ensures forall e :: e in s <==> e in Entries(t)
    ensures |s| == Size(t)
  {
    match t
    case Leaf => []
    case Node(l, k, v, _, r) => InOrder(l) + [Entry(k, v)] + InOrder(r)
  }

  /** `searchNumber`, with the empty subtree reported as not found. */
  function Search(t: Tree, name: Name): (r: Option<Number>)
    ensures r.Some? ==> Entry(name, r.value) in Entries(t)
  {
    match t
    case Leaf => None
    case Node(l, k, v, _, rt) =>
      var cmp := StrCmp(name, k);
      if cmp < 0 then Search(l, name)
      else if cmp > 0 then Search(rt, name)
      else Some(v)
  }

  /** The end of a search as written: the number printed, or the read through NULL
      that follows the not-found message. */
  datatype SearchOutcome = PrintedNumber(number: Number) | NotFoundThenNullDereference

  /** What `searchNumber` does as written: on an empty subtree it reports the
      contact missing and then reads the name of the NULL node. */
  function SearchAsWritten(t: Tree, name: Name): (r: SearchOutcome)
    ensures r.PrintedNumber? <==> Search(t, name).Some?
    ensures r.PrintedNumber? ==> Search(t, name) == Some(r.number)
  {
    match t
    case Leaf => NotFoundThenNullDereference
    case Node(l, k, v, _, rt) =>
      var cmp := StrCmp(name, k);
      if cmp < 0 then SearchAsWritten(l, name)
      else if cmp > 0 then SearchAsWritten(rt, name)
      else PrintedNumber(v)
  }

  /** The contact stored in the leftmost node, the one `findMin` reaches. */
  function MinEntry(t: Tree): (e: Entry)
    requires t.Node?
    ensures e in Entries(t)
  {
    if t.left.Leaf? then Entry(t.name, t.number) else MinEntry(t.left)
  }

  /** The node at the end of the chain of left links from the root. */
  ghost function Leftmost(t: Tree): (m: Tree)
    requires t.Node?
    ensures m.Node? && m.left.Leaf? && Entry(m.name, m.number) == MinEntry(t)
  {
    if t.left.Leaf? then t else Leftmost(t.left)
  }

  /** `findMin`: NULL for an empty subtree, otherwise follow left links to the end. */
  method FindMin(t: Tree) returns (m: Tree)
    ensures t.Leaf? <==> m.Leaf?
    ensures t.Node? ==> m == Leftmost(t) && m.left.Leaf? && Entry(m.name, m.number) == MinEntry(t)
  {
    if t.Leaf? {
      return Leaf;
    }
    m := t;
    while m.left.Node?
      invariant m.Node? && Leftmost(m) == Leftmost(t)
      decreases m
    {
      m := m.left;
    }
  }

  /** `deleteNodeByName`: descend by `strcmp`; unlink a matched node with at most one
      child; overwrite a matched node with two children by its in-order successor
      and delete the successor from the right subtree. No height is recomputed and
      nothing is rebalanced. */
  function Delete(t: Tree, name: Name): (r: Tree)
    ensures Entries(r) <= Entries(t)
    ensures name !in Keys(t) ==> r == t
  {
    match t
    case Leaf => Leaf
    case Node(l, k, v, h, rt) =>
      var compare := StrCmp(name, k);
      if compare < 0 then Node(Delete(l, name), k, v, h, rt)
      else if compare > 0 then Node(l, k, v, h, Delete(rt, name))
      else if l.Leaf? && rt.Leaf? then Leaf
      else if l.Leaf? then rt
      else if rt.Leaf? then l
      else
        var succ := MinEntry(rt);
        Node(l, succ.name, succ.number, h, Delete(rt, succ.name))
  }

  // ---------------------------------------------------------------------------
  // The four rotation cases of `insert` restore the AVL shape

  /** The subtree `node` is a height-consistent node whose two children are AVL trees. */
  ghost predicate AvlChildren(node: Tree) {
    node.Node? && IsAvl(node.left) && IsAvl(node.right)
    && node.height == 1 + Max(Height(node.left), Height(node.right))
  }

  /** Left-left case: a single right rotation. */
  lemma LeftLeftFix(node: Tree)
    requires AvlChildren(node) && node.left.Node?
    requires Height(node.left) == Height(node.right) + 2 && GetBalance(node.left) == 1
    ensures IsAvl(RightRotate(node)) && Height(RightRotate(node)) == Height(node.right) + 2
  {
  }

  /** Right-right case: a single left rotation. */
  lemma RightRightFix(node: Tree)
    requires AvlChildren(node) && node.right.Node?
    requires Height(node.right) == Height(node.left) + 2 && GetBalance(node.right) == -1
    ensures IsAvl(LeftRotate(node)) && Height(LeftRotate(node)) == Height(node.left) + 2
  {
  }

  /** Left-right case: a left rotation of the left child, then a right rotation;
      the left child's right child ends up as the root. */
  lemma LeftRightFix(node: Tree)
    requires AvlChildren(node) && node.left.Node?
    requires Height(node.left) == Height(node.right) + 2 && GetBalance(node.left) == -1
    ensures node.left.right.Node?
    ensures IsAvl(RightRotate(node.(left := LeftRotate(node.left))))
    ensures Height(RightRotate(node.(left := LeftRotate(node.left)))) == Height(node.right) + 2
  {
    var x, z := node.left, node.right;
    var a, c := x.left, x.right;
    assert IsAvl(a) && IsAvl(c) && Height(c) == Height(z) + 1 && Height(a) == Height(z);
    assert IsAvl(c.left) && IsAvl(c.right);
    assert Height(z) - 1 <= Height(c.left) <= Height(z) && Height(z) - 1 <= Height(c.right) <= Height(z);
    var lo := Node(a, x.name, x.number, 1 + Max(Height(a), Height(c.left)), c.left);
    var hi := Node(c.right, node.name, node.number, 1 + Max(Height(c.right), Height(z)), z);
    assert RightRotate(node.(left := LeftRotate(x))) == Node(lo, c.name, c.number, 1 + Max(Height(lo), Height(hi)), hi);
    assert IsAvl(lo) && IsAvl(hi);
  }

  /** Right-left case: the mirror image of the left-right case. */
  lemma RightLeftFix(node: Tree)
    requires AvlChildren(node) && node.right.Node?
    requires Height(node.right) == Height(node.left) + 2 && GetBalance(node.right) == 1
    ensures node.right.left.Node?
    ensures IsAvl(LeftRotate(node.(right := RightRotate(node.right))))
    ensures Height(LeftRotate(node.(right := RightRotate(node.right)))) == Height(node.left) + 2
  {
    var x, z := node.right, node.left;
    var a, c := x.right, x.left;
    assert IsAvl(a) && IsAvl(c) && Height(c) == Height(z) + 1 && Height(a) == Height(z);
    assert IsAvl(c.left) && IsAvl(c.right);
    assert Height(z) - 1 <= Height(c.left) <= Height(z) && Height(z) - 1 <= Height(c.right) <= Height(z);
    var lo := Node(z, node.name, node.number, 1 + Max(Height(z), Height(c.left)), c.left);
    var hi := Node(c.right, x.name, x.number, 1 + Max(Height(c.right), Height(a)), a);
    assert LeftRotate(node.(right := RightRotate(x))) == Node(lo, c.name, c.number, 1 + Max(Height(lo), Height(hi)), hi);
    assert IsAvl(lo) && IsAvl(hi);
  }
}
