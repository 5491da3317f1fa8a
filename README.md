# Phone book AVL tree in Dafny

This project models the phone book's index: an AVL tree of contacts ordered by
name. Each node holds a name, a phone-number string, two child links and the
cached height of its subtree. The model covers the tree's operations as the C
code writes them:

- `height`, `Max` and `getBalance`.
- `newNode`, and the two rotations.
- `insert`: a recursive descent, then on the way back up a height update and the
  LL, RR, LR and RL rotation cases. It is modelled twice. `Insert` covers AVL
  trees. `InsertAsWritten` covers any tree, including the ones deletion leaves
  behind, on which a rotation can meet a NULL child.
- `inorder`, as the list of contacts it prints.
- `searchNumber`, as a lookup that returns a number or nothing.
- `findMin`.
- `deleteNodeByName`, which neither rebalances nor updates heights.

Names and numbers are C strings, modelled as sequences of non-NUL bytes. The
tree is ordered by `strcmp`, modelled as a comparison of unsigned bytes in which
the end of the shorter string reads as 0 (`CString.StrCmp`). The C routines
rewire heap nodes and return the new root of the subtree they were given. Here
each is a function from the old subtree value to the new one
(`Phonebook.Tree`). `findMin` walks a loop, so it is a method with a loop
invariant, proved against the function `Phonebook.MinEntry` that `Delete` uses.

Files:

- `cstring.dfy` (`CString`): C strings and `strcmp`.
- `phonebook.dfy` (`Phonebook`): the tree, its routines, and the four rotation
  cases.
- `tree_facts.dfy` (`TreeFacts`):
  - the cached heights are the true heights;
  - search-tree order is the same thing as a strictly ascending listing;
  - rotations keep the order;
  - an AVL tree's height is logarithmic in its size, with the Fibonacci bound.
- `insert_proofs.dfy`, `search_proofs.dfy`, `delete_proofs.dfy`: what each
  operation does to the contents and the order.
- `round_trips.dfy` (`RoundTrips`): searches after an insertion or a deletion.
- `scenarios.dfy` (`Scenarios`): concrete runs on small inputs.

## Model

| member | source | states |
|---|---|---|
| `CString.StrCmp` | phonebook.c:82-86 | The result is 0 exactly when the two strings are equal. When the first bytes differ, they decide the sign. The empty string sorts before every other string. |
| `CString.StrCmpLexicographic` | phonebook.c:82-86 | The order is lexicographic: at the first index where the strings differ, the smaller byte sorts first. A proper prefix sorts before the longer string. |
| `CString.StrCmpAntisymmetric` | phonebook.c:82-86 | Swapping the arguments negates the result, so a positive `strcmp(name, key)` means `key` sorts before `name`. |
| `CString.LessTransitive` | phonebook.c:82-86 | The order given by `strcmp(a, b) < 0` is transitive. |
| `CString.LessTotal` | phonebook.c:82-88 | Two distinct names are always ordered one way or the other, so the descent never meets a third case. |
| `Phonebook.Max` | phonebook.c:22-24 | The result is at least both arguments and is one of them. |
| `TreeFacts.HeightIsDepth` | phonebook.c:15-19 | When every cached height is consistent, `height` returns the true height of the subtree, which is 0 for an empty one. |
| `TreeFacts.BalanceIsDepthDifference` | phonebook.c:70-74 | When the cached heights are consistent, `getBalance` is 0 on an empty subtree. Otherwise it is the left child's true height minus the right child's. |
| `Phonebook.NewNode` | phonebook.c:27-35 | The new node has no children and height 1. It is an AVL search tree whose listing is exactly the one new contact. |
| `Phonebook.RightRotate` | phonebook.c:38-51 | The left child becomes the root and the old root its right child. The left child's right subtree moves across to become the old root's left subtree, and the other two subtrees stay in place. The in-order listing is unchanged. The demoted node's height is recomputed from its new children, then the promoted node's height from its own. |
| `Phonebook.LeftRotate` | phonebook.c:54-67 | The mirror image of the right rotation. The right child becomes the root, and its left subtree moves across to the old root. The listing is unchanged, and both heights are recomputed, lower node first. |
| `TreeFacts.RotationsPreserveOrder` | phonebook.c:38-67 | A rotation keeps the set of entries and the set of names. The rotated tree is a search tree exactly when the original is. |
| `Phonebook.Insert` | phonebook.c:77-117 | An AVL tree stays an AVL tree, with consistent heights and every balance factor in -1..1. The height grows by at most one. When it grows, the old root stays the root and leans toward the side the name went to. A name equal to the root's returns the subtree unchanged. |
| `Phonebook.Rebalance` | phonebook.c:90-116 | The tail of `insert` on a node whose children are AVL trees and whose balance factor lies in -2..2, the taller side leaning towards the new name when it is 2. The result is a non-empty AVL tree with the same listing. A node in balance only gets its height recomputed. A node out of balance by two gets back the height of its shorter side plus two. Which rotation each case applies is not restated here. `InsertProofs.RebalanceAgrees` ties it to the branches as written. |
| `Phonebook.InsertedLeft` | phonebook.c:83-84 | After an insertion into the left child of an AVL node, the node is out of balance by at most two. When it is out by two, the grown child leans toward the new name. Rebalancing then keeps the height promise of `insert`. |
| `Phonebook.InsertedRight` | phonebook.c:85-86 | The mirror image of `InsertedLeft`, for an insertion into the right child. |
| `Phonebook.LeftLeftFix` | phonebook.c:96-98 | In the left-left case, a right rotation gives an AVL tree two levels taller than the right child. |
| `Phonebook.RightRightFix` | phonebook.c:100-102 | In the right-right case, a left rotation gives an AVL tree two levels taller than the left child. |
| `Phonebook.LeftRightFix` | phonebook.c:104-108 | In the left-right case, the left child's right child exists. Rotating the left child left, then the node right, gives an AVL tree two levels taller than the right child. |
| `Phonebook.RightLeftFix` | phonebook.c:110-114 | In the right-left case, the right child's left child exists. Rotating the right child right, then the node left, gives an AVL tree two levels taller than the left child. |
| `InsertProofs.InsertContents` | phonebook.c:77-117 | The names afterwards are the old names plus `name`. For an absent name, the entries are the old entries plus the new contact, so every other contact keeps its number, and the size grows by one. |
| `InsertProofs.InsertKeepsBst` | phonebook.c:77-117 | Inserting into a search tree gives a search tree. |
| `InsertProofs.InsertDuplicate` | phonebook.c:82-88 | Inserting a name already in an AVL search tree returns the tree unchanged, so the first number is kept. |
| `InsertProofs.InsertCorrect` | phonebook.c:77-117 | For an absent name in an AVL search tree, the result is an AVL search tree. It holds the old contacts plus the new one, and its listing is strictly ascending by name. |
| `Phonebook.InsertAsWritten` | phonebook.c:77-117 | `insert` on any tree, including one with stale heights. It either yields a tree or stops at a rotation handed a NULL grandchild. A tree it yields holds the old contacts and at most the one new contact. |
| `Phonebook.RebalanceAsWritten` | phonebook.c:90-116 | The tail of `insert` on any node, with the same guards. It stops exactly when the left-right or right-left case is chosen and the grandchild that rotation reads is NULL. Otherwise the listing is unchanged. |
| `InsertProofs.InsertAsWrittenKeepsOrder` | phonebook.c:77-117 | On any search tree, including one with stale heights, a tree that `insert` as written yields is a search tree. Its names are the old names plus the new one. An absent name adds exactly its contact and one to the size. A present name leaves the contacts as they were. |
| `InsertProofs.InsertAsWrittenAgrees` | phonebook.c:77-117 | On an AVL tree, `insert` as written never meets a NULL grandchild and gives exactly `Insert`. |
| `InsertProofs.RebalanceAgrees` | phonebook.c:104-114 | Wherever `Rebalance` applies, the double-rotation cases find their grandchild, so the tail as written equals `Rebalance`. |
| `Scenarios.FourInserts` | phonebook.c:77-117 | Inserting "E", "C", "G", "B" needs no rotation and gives E(C(B, -), G) with heights 3, 2, 1 and 1. |
| `Scenarios.InsertsDH` | phonebook.c:77-117 | Then inserting "D" and "H" gives E(C(B, D), G(-, H)), still without a rotation. |
| `Scenarios.InsertA` | phonebook.c:77-117 | Then inserting "A" gives E(C(B(A, -), D), G(-, H)) with root height 4. |
| `Scenarios.SevenInserts` | phonebook.c:77-117 | The seven insertions "E", "C", "G", "B", "D", "H", "A" together give E(C(B(A, -), D), G(-, H)). |
| `Scenarios.ThreeDeletes` | phonebook.c:155-195 | Deleting "D", "G" and "H" from that tree leaves E(C(B(A, -), -), -) with every cached height unchanged. |
| `Scenarios.InsertAfterDeletesRotatesNull` | phonebook.c:104-106 | That tree is AVL before the deletions and not after them. Inserting "F" into the result takes the left-right case at "E" and hands the NULL right child of "C" to `leftRotate`. |
| `Scenarios.ReinsertUnderC` | phonebook.c:77-117 | Re-inserting "A" into C(B(A, -), -) with stale heights 3 and 2 takes the left-left case at "C" and gives B(A, C). |
| `Scenarios.DuplicateAfterDeletesRotates` | phonebook.c:77-117 | After the three deletions, re-inserting "A" into E(C(B(A, -), -), -) rotates twice on the way up. It gives B(A, E(C, -)) with heights 3 and 2 and the same contacts. A duplicate insert leaves the tree unchanged only on AVL trees. |
| `Scenarios.AscendingInsertsRotateLeft` | phonebook.c:100-102 | Inserting "A", "B", "C" in that order gives root "B" with "A" on the left and "C" on the right, with heights 2, 1 and 1. |
| `TreeFacts.AvlSizeBound` | phonebook.c:93-116 | An AVL tree of height h holds at least 2^(h/2) - 1 contacts (h/2 rounded down), so h is at most 2 log2(size + 1) + 1. |
| `TreeFacts.AvlFibonacciBound` | phonebook.c:93-116 | An AVL tree of height h holds at least Fib(h + 2) - 1 contacts, the size of the sparsest AVL tree of that height. So h is at most about 1.44 log2(size + 2). |
| `Phonebook.InOrder` | phonebook.c:120-127 | The listing holds exactly the tree's entries, one per node. |
| `TreeFacts.BstIffAscending` | phonebook.c:120-127 | A tree is in search-tree order if and only if its in-order listing is strictly ascending by name. |
| `Phonebook.Search` | phonebook.c:129-140 | A number found is one stored under exactly that name. |
| `SearchProofs.SearchFindsEntries` | phonebook.c:129-140 | In a search tree, the search returns `v` exactly when the contact (name, v) is stored. It reports not-found exactly when the name is absent. |
| `SearchProofs.NamesAreUnique` | phonebook.c:87-88 | A search tree holds at most one number per name. |
| `Phonebook.SearchAsWritten` | phonebook.c:129-140 | The unguarded search prints a number exactly when the guarded search finds one, and it is the same number. In every other case it reads through NULL after reporting not-found. |
| `SearchProofs.SearchAsWrittenMissDereferencesNull` | phonebook.c:130-133 | For any tree without the name, as written, the search ends by dereferencing NULL. |
| `Scenarios.MissInOneContactBook` | phonebook.c:130-133 | In a book holding only "B", a search for "A" dereferences NULL as written. The guarded search returns not-found. |
| `Phonebook.MinEntry` | phonebook.c:142-152 | The leftmost contact of a non-empty tree is one of its entries. |
| `Phonebook.Leftmost` | phonebook.c:142-152 | For a non-empty subtree, the node reached by following left links: it has no left child and holds the least contact, `MinEntry`. |
| `Phonebook.FindMin` | phonebook.c:142-152 | Returns empty exactly for an empty subtree. Otherwise it returns exactly `Leftmost` of its argument, the node with no left child that holds the least contact. |
| `SearchProofs.MinEntryIsFirstListed` | phonebook.c:142-152 | The leftmost contact is the first one in the in-order listing. |
| `SearchProofs.MinEntryIsLeast` | phonebook.c:147-149 | In a search tree, the leftmost name sorts before every other name in the tree. |
| `Phonebook.Delete` | phonebook.c:155-195 | Deletion never adds an entry. Deleting a name that is not in the tree, including from an empty tree, returns it unchanged. |
| `DeleteProofs.DeleteKeys` | phonebook.c:155-195 | In a search tree, deletion keeps search-tree order and removes exactly `name` from the names. The size drops by one if the name was present and is unchanged otherwise. |
| `DeleteProofs.DeleteEntries` | phonebook.c:155-195 | In a search tree, the entries left are exactly the old entries whose name differs from `name`. |
| `DeleteProofs.SuccessorKeepsOrder` | phonebook.c:186-191 | Overwriting a two-child node with its successor, then deleting the successor from the right subtree, keeps search-tree order. It removes just the deleted name and one contact. |
| `DeleteProofs.DeleteTwoChildren` | phonebook.c:186-191 | A deleted two-child node keeps its left subtree. It takes the name and number of the in-order successor, which is the smallest name in the tree that sorts after the deleted one. The successor leaves the right subtree. |
| `Scenarios.DeleteMayUnbalance` | phonebook.c:155-195 | Deleting "A" from the AVL search tree B(A, C(-, D)) leaves the root out of balance. Deletion does not keep the AVL property. |
| `Scenarios.ListingAfterInsertsAndDelete` | phonebook.c:77-195 | After inserting "Bob", "Alice" and "Carl", the listing is Alice, Bob, Carl. After deleting "Bob", it is Alice, Carl, and a search for "Bob" finds nothing. |
| `RoundTrips.SearchAfterInsert` | phonebook.c:77-140 | After inserting an absent name, a search for it returns its number. Searches for every other name are unchanged. |
| `RoundTrips.SearchAfterDuplicateInsert` | phonebook.c:82-88 | Re-inserting a name that is present in an AVL search tree leaves its search result as it was: the first write wins. |
| `RoundTrips.SearchAfterDelete` | phonebook.c:155-195 | After deleting a name from a search tree, a search for it finds nothing. Searches for every other name are unchanged. |

## Left out

- The interactive loop `main` (phonebook.c:210-267) is not modelled. It covers the menu, line input, newline stripping, terminal escapes and `exit`, which are console I/O.
- The text that `inorder` and `searchNumber` print is not modelled. `InOrder` returns the listing, and `Search` returns the number or nothing.
- `deleteAVLTree`, `malloc` and `free` are not modelled. This includes the unchecked `malloc` result. A value model has nothing to allocate or release.
- The fixed buffers `name[100]` and `number[13]` are not modelled, nor the `strcpy` overflow past them. Names and numbers are unbounded sequences of non-NUL bytes.
- The loop's call `deleteNodeByName(root, name)` discards the new root. That caller bug is not modelled.
- In-place update is not modelled. The C routines overwrite the `left`, `right` and `height` fields of heap nodes, and `name` and `number` in the two-child delete. The model builds new tree values instead. No node has two parents, and every routine returns its new subtree root, so the resulting trees are the same. Aliasing is not represented.
- `height` is a C `int`. The model makes it a natural number, since no height the code computes is negative or near the `int` limit.
- `strcmp` only promises the sign of its result. `CString.StrCmp` fixes the magnitude to the difference of the first differing bytes, and the code only tests the sign.
- `Phonebook.Insert` requires an AVL tree: consistent cached heights and every balance factor in -1..1. The left-right and right-left cases follow a grandchild pointer that is non-NULL only under that invariant. `deleteNodeByName` does not keep it (`Scenarios.DeleteMayUnbalance`). On the other trees, `insert` is modelled only as written, by `Phonebook.InsertAsWritten`; the second row under "Findings" shows where that fails.
- `InsertProofs.InsertDuplicate` holds on AVL trees only. After deletions, re-inserting a present name keeps the contacts but can rotate the tree (`Scenarios.DuplicateAfterDeletesRotates`).
- A rebalancing `deleteNodeByName` is not modelled. It would be the fix for the second finding, but the code has none, and the model follows the code.
- `Phonebook.Delete` and its lemmas claim nothing about heights or balance, because the code neither recomputes heights nor rebalances after a removal.

## Findings

| source | as written | input that shows it | evidently intended | confidence | as-written member | corrected member |
|---|---|---|---|---|---|---|
| phonebook.c:130-133 | On an empty subtree, `searchNumber` prints "Contact does not exist". It then falls through and reads `node->name` through the NULL pointer. | A book holding only "B", searched for "A": the descent reaches the root's empty left subtree. | Return right after reporting not-found. | High: the missing `return` is plain in the code. Not executed. | `Phonebook.SearchAsWritten` | `Phonebook.Search` |
| phonebook.c:104-106 | Deletion neither rebalances nor updates heights. A later `insert` still picks its rotation from the stale heights and the new name. The left-right case calls `leftRotate` on a left child whose right child is NULL, and line 56 reads through that NULL. | Insert "E", "C", "G", "B", "D", "H", "A", delete "D", "G" and "H", then insert "F". | `insert` never rotates a missing child. The usual way to get that is a `deleteNodeByName` that rebalances on the way up, as `insert` does, so the tree stays AVL. On every AVL tree, `insert` meets no NULL rotation and equals `Phonebook.Insert`. The rebalancing delete itself is not modelled. | High: the state is derived step by step. Not executed. | `Scenarios.InsertAfterDeletesRotatesNull` | `InsertProofs.InsertAsWrittenAgrees` |
