# Sayings database: a verified model of its AVL tree

The sayings database stores Hawaiian sayings. Each saying has Hawaiian words, an English
translation and an explanation. Sayings are kept in an AVL tree keyed by their Hawaiian
words, compared ignoring case. A second saying with the same words (ignoring case) is
silently dropped, so the first write wins. The database answers these queries:

- membership;
- the full listing in key order;
- the first and last saying;
- the predecessor and successor of any word, stored or not;
- substring searches over the Hawaiian words or the translations.

The Dafny model has six modules, one per file:

- `CaseFold` (`case_fold.dfy`): `toLowerCase`, `compareToIgnoreCase`, `equalsIgnoreCase`
  and `contains` on strings, restricted to ASCII case mapping. `LexLess` is the strict
  lexicographic order they induce.
- `Sayings` (`saying.dfy`): the immutable `Saying` value, its two constructors, its
  getters and its `toString` rendering.
- `SortedListing` (`sorted_listing.dfy`): the abstract view of the store. `Key` is a
  saying's lower-cased Hawaiian words. `StrictlySorted` says keys strictly increase along
  the listing. `SortedInsert` is the reference definition of insertion: put the saying
  before the first larger key, or change nothing at an equal key.
- `AvlTree` (`avl_tree.dfy`): tree nodes, stored heights, balance factors, the two
  rotations, `balance`, and recursive `insert`. `insert` is proved against
  `SortedInsert`, and against the AVL invariants `HeightsOk` and `Balanced`.
- `TreeQueries` (`tree_queries.dfy`):
  - search, proved against the listing;
  - the leftmost/rightmost walks, as `while` loops;
  - the predecessor/successor walks, each proved to return the greatest key strictly
    below (least key strictly above) the query;
  - the list-appending traversals, as recursive methods proved against `InOrder`,
    `PreOrder` and the filter `Mentioning`.
- `Database` (`database.dfy`): the `SayingsDatabase` class. Its `root` field holds the
  tree. Its invariant `Valid` is `IsAvl(root)`. It has one method per public operation.

A subtree is modelled as a value of the datatype `Tree`, and `Nil` stands for `null`. In
the Java code every node has exactly one parent, and nothing outside the tree refers to
a node. So a method that rewrites a node's links in place and returns the subtree's new
root has the same effect as a function that builds and returns the rewritten subtree.

Three behaviours of the code worth knowing:

- **Word search order.** `searchByWord` and `searchMeHua` visit the node first, then the
  left subtree, then the right one. Matches therefore come in pre-order, not in
  ascending key order. `TreeQueries.SearchResultsInPreOrder` exhibits a two-saying AVL
  tree whose search result is not sorted.
- **Rendering labels.** `toString` uses the labels `Hawaiian: `, `\nTranslation: ` and
  `\nExplanation: `.
- **`first()` and `last()` on an empty database.** The code dereferences a null root
  there. The model returns `None` instead.

## Model

| member | source | states |
|---|---|---|
| CaseFold.ToLowerFoldsCasePair | SayingsDatabase.java:263 | an upper-case ASCII letter and its lower-case partner lower-case to the same letter |
| CaseFold.AlohaMatchesUpperCase | SayingsDatabase.java:160 | "Aloha" and "ALOHA" are equal ignoring case and compare as 0, so `member("ALOHA")` finds a stored "Aloha" |
| CaseFold.ToLower | SayingsDatabase.java:263 | the result is never an upper-case ASCII letter; only 'A'..'Z' are changed |
| CaseFold.Lower | SayingsDatabase.java:150 | `toLowerCase` keeps the length and lower-cases every character in place |
| CaseFold.LowerIdempotent | SayingsDatabase.java:150 | lower-casing an already lower-cased query changes nothing, so `member`'s extra `toLowerCase` is harmless |
| CaseFold.LexLessIrreflexive | SayingsDatabase.java:45 | no key is below itself |
| CaseFold.LexLessAsymmetric | SayingsDatabase.java:44-46 | two keys are never each below the other |
| CaseFold.LexLessTransitive | SayingsDatabase.java:44-46 | the key order is transitive |
| CaseFold.LexLessTotal | SayingsDatabase.java:44-52 | any two keys are equal or one is below the other, so the three branches of `insert` cover every case |
| CaseFold.CompareIgnoreCase | SayingsDatabase.java:45-48 | `compareToIgnoreCase` is negative, zero or positive exactly when the lower-cased first string is below, equal to or above the lower-cased second |
| CaseFold.EqualsIgnoreCase | SayingsDatabase.java:160 | `equalsIgnoreCase` holds exactly when the lower-cased strings are equal |
| CaseFold.ContainsIffOccurs | SayingsDatabase.java:263 | `contains` holds exactly when the word occurs at some index of the text |
| CaseFold.Contains | SayingsDatabase.java:263 | `contains`: its meaning is fixed by ContainsIffOccurs, which proves it holds exactly when the word occurs at some index of the text |
| Sayings.NewSaying | Saying.java:17-21 | the three-argument constructor stores each field as given; the getters return them |
| Sayings.NewSayingWithoutExplanation | Saying.java:25-27 | the two-argument constructor is the three-argument one with an empty explanation |
| Sayings.Saying.GetHawaiianWords | Saying.java:30-32 | reads back the Hawaiian words a constructor stored, as NewSaying and NewSayingWithoutExplanation prove |
| Sayings.Saying.GetEnglishTranslation | Saying.java:35-37 | reads back the translation a constructor stored, as NewSaying and NewSayingWithoutExplanation prove |
| Sayings.Saying.GetExplanation | Saying.java:40-42 | reads back the explanation a constructor stored (empty for the two-argument constructor), as NewSaying and NewSayingWithoutExplanation prove |
| Sayings.GettersDetermineSaying | Saying.java:30-42 | as modelled values, two sayings are the same exactly when their three getters agree (Java identity is not modelled) |
| Sayings.ToStringLayout | Saying.java:46-49 | the rendering is the three labels, each followed by its field, in the order Hawaiian words, translation, explanation, with the lengths that implies |
| Sayings.ToStringInjective | Saying.java:46-49 | when the Hawaiian words and the translation have no line break, the rendering determines the saying |
| Sayings.Saying.ToString | Saying.java:46-49 | `toString`: its meaning is fixed by ToStringLayout (labels and fields in order, with their lengths) and ToStringInjective (the rendering determines the saying when the first two fields have no line break) |
| SortedListing.SortedInsert | SayingsDatabase.java:38-59 | reference insertion on the listing: every saying of the result was already listed or is the new one |
| SortedListing.SortedInsertKeepsSorted | SayingsDatabase.java:38-59 | inserting into a strictly sorted listing keeps it strictly sorted |
| SortedListing.SortedInsertPresent | SayingsDatabase.java:52-53 | when a saying with the same key (ignoring case) is listed, the listing is unchanged |
| SortedListing.SortedInsertAbsent | SayingsDatabase.java:38-59 | when the key is new, exactly the new saying is added and the length grows by one |
| SortedListing.SortedInsertBefore | SayingsDatabase.java:44-46 | inserting a key below a block's first key leaves that block after the insertion point |
| SortedListing.SortedInsertAfter | SayingsDatabase.java:47-49 | inserting a key above every key of a block leaves that block in front |
| AvlTree.HeightsOk | SayingsDatabase.java:62-64 | with every stored height equal to 1 + the larger child height, `height(node)` is the true height, and 0 exactly for a missing node |
| AvlTree.Height | SayingsDatabase.java:62-64 | `height(node)`: HeightsOk's contract proves it is the true height of the subtree, and 0 exactly for a missing node, whenever the heights are kept correct |
| AvlTree.GetBalance | SayingsDatabase.java:67-69 | with correct heights, the balance factor of a node is the true height of its left subtree minus that of its right subtree |
| AvlTree.WithLeft | SayingsDatabase.java:44-46 | `node.left = insert(...)` followed by the height update at line 56: with correct child heights the rebuilt node's heights are correct and its height is one more than its taller child's |
| AvlTree.WithRight | SayingsDatabase.java:47-49 | `node.right = insert(...)` followed by the height update at line 56: the mirror of WithLeft |
| AvlTree.Leaf | SayingsDatabase.java:24-27 | a new node is an AVL tree of height 1 holding just its saying |
| AvlTree.RotateRight | SayingsDatabase.java:99-113 | the left child becomes the root; the in-order listing is unchanged; heights are correct when the demoted node's height is computed before the new root's |
| AvlTree.RotateLeft | SayingsDatabase.java:116-130 | the mirror of RotateRight |
| AvlTree.Balance | SayingsDatabase.java:72-96 | balancing keeps the in-order listing and correct heights, and leaves a missing node missing |
| AvlTree.SearchTreeSplit | SayingsDatabase.java:44-49 | in a search tree, the left subtree's keys are below the node's key and the right subtree's above it |
| AvlTree.RotateRightRebalances | SayingsDatabase.java:75-82 | left-left case: one right rotation restores balance, with height 2 or 3 above the right subtree |
| AvlTree.RotateLeftRebalances | SayingsDatabase.java:86-92 | right-right case: one left rotation restores balance |
| AvlTree.LeftRightRebalances | SayingsDatabase.java:75-82 | left-right case: rotating the left child left, then the node right, restores balance, with height exactly 2 above the right subtree |
| AvlTree.RightLeftRebalances | SayingsDatabase.java:86-92 | right-left case: the mirror of LeftRightRebalances |
| AvlTree.BalanceRestores | SayingsDatabase.java:72-96 | for a node with balanced children and a balance factor within two, the result is balanced and at most one lower; a node already in balance is returned unchanged |
| AvlTree.InsertLeftOrder | SayingsDatabase.java:44-46 | after an insert into the left subtree, the rebuilt node lists SortedInsert of its old listing |
| AvlTree.InsertRightOrder | SayingsDatabase.java:47-49 | after an insert into the right subtree, the rebuilt node lists SortedInsert of its old listing |
| AvlTree.KeyBelowIsLeft | SayingsDatabase.java:44-46 | a stored key below the node's key is stored in the left subtree |
| AvlTree.KeyAboveIsRight | SayingsDatabase.java:47-49 | a stored key above the node's key is stored in the right subtree |
| AvlTree.InsertEqualOrder | SayingsDatabase.java:50-52 | stopping at an equal key agrees with SortedInsert |
| AvlTree.InsertLeftBalance | SayingsDatabase.java:44-58 | after the left subtree grew by at most one, recomputing the height and balancing gives a balanced node that grew by at most one |
| AvlTree.InsertRightBalance | SayingsDatabase.java:47-58 | the mirror of InsertLeftBalance |
| AvlTree.UnchangedLeft | SayingsDatabase.java:56-58 | an AVL node whose left subtree comes back unchanged is returned unchanged by the height update and balance |
| AvlTree.UnchangedRight | SayingsDatabase.java:56-58 | the mirror of UnchangedLeft |
| AvlTree.InsertLeftStep | SayingsDatabase.java:44-58 | one left step of insert: the rebalanced node lists SortedInsert of the old listing, stays balanced and grows by at most one, and equals the old node when the key was stored |
| AvlTree.InsertRightStep | SayingsDatabase.java:47-58 | the mirror of InsertLeftStep for a right step |
| AvlTree.Insert | SayingsDatabase.java:38-59 | insert yields a node with correct heights; in a search tree the listing becomes SortedInsert of the old one; a balanced tree stays balanced and grows by at most one level; an AVL tree that already holds the key (ignoring case) is returned unchanged |
| AvlTree.InsertKeepsAvl | SayingsDatabase.java:38-59 | insert keeps every AVL invariant: search order, heights, balance factors in [-1, 1] |
| AvlTree.InsertContents | SayingsDatabase.java:38-59 | a stored key leaves the contents as they were; otherwise exactly the new saying is added |
| AvlTree.InsertIdempotent | SayingsDatabase.java:50-52 | inserting the same saying twice is the same as inserting it once |
| AvlTree.PreOrderPermutesInOrder | SayingsDatabase.java:255-270 | the node-first walk visits the same sayings as the in-order walk |
| AvlTree.BalancedHeightLogarithmic | SayingsDatabase.java:72-96 | a balanced tree of height h has at least 2^(h/2) - 1 nodes, so its height is logarithmic in its size |
| TreeQueries.Search | SayingsDatabase.java:154-170 | a found node holds a stored saying whose words equal the query ignoring case |
| TreeQueries.SearchFindsStoredKey | SayingsDatabase.java:154-170 | in a search tree, search finds a node exactly when a stored key equals the lower-cased query |
| TreeQueries.SortedHeadLeast | SayingsDatabase.java:173-175 | the first saying of a sorted listing has the least key |
| TreeQueries.SortedLastGreatest | SayingsDatabase.java:178-180 | the last saying of a sorted listing has the greatest key |
| TreeQueries.MinValueNode | SayingsDatabase.java:183-189 | the loop stops at a node without a left child, holding the first saying of the listing, which has the least key of a search tree |
| TreeQueries.MaxValueNode | SayingsDatabase.java:192-198 | the loop stops at a node without a right child, holding the last saying of the listing, which has the greatest key |
| TreeQueries.PredecessorFrom | SayingsDatabase.java:207-218 | the walk answers its starting candidate or a saying stored in the subtree |
| TreeQueries.SuccessorFrom | SayingsDatabase.java:227-238 | the walk answers its starting candidate or a saying stored in the subtree |
| TreeQueries.PredecessorFromCorrect | SayingsDatabase.java:207-218 | with a candidate below the query and below the subtree, the walk answers nothing exactly when there is no candidate and no key below the query; otherwise it answers the greatest key below the query |
| TreeQueries.SuccessorFromCorrect | SayingsDatabase.java:227-238 | the mirror of PredecessorFromCorrect |
| TreeQueries.PredecessorCorrect | SayingsDatabase.java:201-218 | from the root without a candidate: nothing exactly when no stored key is below the query; otherwise the stored saying with the greatest key strictly below it |
| TreeQueries.SuccessorCorrect | SayingsDatabase.java:221-238 | from the root without a candidate: nothing exactly when no stored key is above the query; otherwise the stored saying with the least key strictly above it |
| TreeQueries.InOrderTraversal | SayingsDatabase.java:140-146 | the list gains the subtree's sayings in left-node-right order |
| TreeQueries.TextToSearch | SayingsDatabase.java:261 | the Hawaiian words when searching in Hawaiian, else the translation; MentioningMembers states which sayings a search keeps through it |
| TreeQueries.MentioningMembers | SayingsDatabase.java:261-265 | the filter keeps exactly the sayings whose searched text, lower-cased, contains the word |
| TreeQueries.MentioningPreOrder | SayingsDatabase.java:263-269 | the matches of a node's walk are its own, then the left subtree's, then the right subtree's |
| TreeQueries.SearchStep | SayingsDatabase.java:263-269 | appending the node's match, then the left subtree's matches, then the right subtree's, appends the node's pre-order matches |
| TreeQueries.SearchByWord | SayingsDatabase.java:255-270 | the list gains, in pre-order, the sayings whose chosen field, lower-cased, contains the lower-cased word |
| TreeQueries.SearchMeHua | SayingsDatabase.java:280-291 | the list gains, in pre-order, the sayings whose lower-cased Hawaiian words contain the word as given |
| TreeQueries.MentioningStored | SayingsDatabase.java:255-270 | a word search returns exactly the stored sayings that match |
| TreeQueries.SearchResultsInPreOrder | SayingsDatabase.java:255-270 | a two-saying AVL tree whose root holds the larger key returns its matches larger-key first, so results are not in key order |
| Database.SayingsDatabase.constructor | SayingsDatabase.java:30 | a new database is empty and valid |
| Database.SayingsDatabase.Insert | SayingsDatabase.java:33-35 | the root becomes insert's result; the contents become SortedInsert of the old ones (unchanged for a stored key, else plus exactly the saying); the tree stays AVL and grows by at most one level |
| Database.SayingsDatabase.GetAllSayings | SayingsDatabase.java:133-137 | the listing is the in-order walk and is strictly increasing by key |
| Database.SayingsDatabase.Member | SayingsDatabase.java:149-151 | true exactly when some stored saying's Hawaiian words equal the query ignoring case |
| Database.SayingsDatabase.First | SayingsDatabase.java:173-175 | nothing exactly for an empty database; otherwise a stored saying whose key is below every other stored key |
| Database.SayingsDatabase.Last | SayingsDatabase.java:178-180 | nothing exactly for an empty database; otherwise a stored saying whose key is above every other stored key |
| Database.SayingsDatabase.Predecessor | SayingsDatabase.java:201-204 | nothing exactly when no stored key is below the lower-cased words; otherwise the saying with the greatest key strictly below them |
| Database.SayingsDatabase.Successor | SayingsDatabase.java:221-224 | nothing exactly when no stored key is above the lower-cased words; otherwise the saying with the least key strictly above them |
| Database.SayingsDatabase.WithWord | SayingsDatabase.java:241-245 | exactly the stored sayings whose lower-cased Hawaiian words contain the lower-cased word, in pre-order |
| Database.SayingsDatabase.WithWordInEnglish | SayingsDatabase.java:248-252 | exactly the stored sayings whose lower-cased translation contains the lower-cased word, in pre-order |
| Database.SayingsDatabase.MeHua | SayingsDatabase.java:273-277 | the same list as WithWord: exactly the stored sayings whose lower-cased Hawaiian words contain the lower-cased word, in pre-order |

## Left out

- Case mapping covers the ASCII letters only. Java's full Unicode `toLowerCase` and
  `compareToIgnoreCase` (which also folds through upper case) are not modelled. Strings
  are sequences of characters, not UTF-16 code units.
- `String.toLowerCase()` at SayingsDatabase.java:263, 275 and 283 uses the default
  locale. The model assumes a locale with the plain ASCII mapping; under a Turkish
  locale 'I' lower-cases to a dotless 'ı', so `withWord`, `withWordInEnglish` and `MeHua`
  can differ from the model even on ASCII input. `member` also lower-cases its query
  (line 150), but is unaffected: `search` uses the query only through `equalsIgnoreCase`
  and `compareToIgnoreCase`, which fold each character through upper case, and 'ı' and
  'i' both upper-case to 'I'.
- Java's 32-bit `int` is not modelled, neither for stored heights nor for the value
  `compareToIgnoreCase` returns. Heights stay logarithmic in the size, so they never
  come near overflow.
- Rewriting `node.left`, `node.right` and `node.height` in place inside
  `insert`/`balance`/`rotateLeft`/`rotateRight` is modelled as building the rewritten
  subtree. This captures the same result because every node has exactly one parent. The
  object identity of nodes is not modelled.
- `Saying` objects are modelled as values with structural equality. Java's `Saying`
  has no `equals`, so two objects with the same fields are distinct there. The store
  never compares sayings, only their Hawaiian words, so no operation depends on this.
- `ArrayList` is modelled as `seq<Saying>`. The helper methods return the extended list
  rather than appending to a shared list object.
- Null arguments are not modelled: Dafny strings and `Saying` values cannot be null. In
  the code, `insert(null)`, `member(null)`, `withWord(null)`, `predecessor(null)` and the
  other queries given a null word, and any operation on a `Saying` whose Hawaiian words
  are null, throw a NullPointerException; `toString` renders a null field as "null".
- The null result of `search` is `Nil`. A null predecessor or successor is `None`.
- Database.SayingsDatabase.First: returns `None` on an empty database, where the code
  throws a NullPointerException because it dereferences a null root.
- Database.SayingsDatabase.Last: returns `None` on an empty database, where the code
  throws a NullPointerException because it dereferences a null root.
- AvlTree.BalancedHeightLogarithmic: proves height at most about 2·log2(n+1), not the
  sharper 1.44·log2(n+2) bound of AVL trees.
- Deletion is not modelled; the code has no deletion operation.
- Concurrency is not modelled; the code has none.
- The demo program `SayingsMain.java` is not part of this model. It only fills the
  database and prints results.
