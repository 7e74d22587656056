/**
 * The AVL tree behind the sayings store: nodes, stored heights, the four
 * rotation cases of rebalancing, and insertion with first-write-wins
 * duplicate suppression. A subtree is a value; `Nil` stands for a missing
 * child. Each node owns its children, so rewriting a node's links in place
 * is the same as building the rewritten node.
 */
module AvlTree {
  import opened CaseFold
  import opened Sayings
  import opened SortedListing

  datatype Tree = Nil | Node(saying: Saying, left: Tree, right: Tree, height: int)

  /** Math.max */
  function Max(a: int, b: int): int
  {
    if a < b then b else a
  }

  /** height(node): the stored height, 0 for a missing node. */
  function Height(t: Tree): int
  {
    if t.Nil? then 0 else t.height
  }

  /** getBalance(node): left height minus right height, 0 for a missing node. */
  function GetBalance(t: Tree): (r: int)
    ensures HeightsOk(t) && t.Node? ==> r == Depth(t.left) - Depth(t.right)
  {
    if t.Nil? then 0 else Height(t.left) - Height(t.right)
  }

  /** The height counted node by node along the longest path. */
  function Depth(t: Tree): nat
  {
    match t
    case Nil => 0
    case Node(_, l, r, _) => 1 + Max(Depth(l), Depth(r))
  }

  /**
   * Height bookkeeping: every stored height is 1 + the larger stored
   * height of its children. Then every stored height is the true height.
   */
  predicate HeightsOk(t: Tree)
    ensures HeightsOk(t) ==> Height(t) == Depth(t) && (t.Nil? <==> Height(t) == 0)
  {
    match t
    case Nil => true
    case Node(_, l, r, h) => HeightsOk(l) && HeightsOk(r) && h == 1 + Max(Height(l), Height(r))
  }

  /** Every balance factor lies in [-1, 1]. */
  predicate Balanced(t: Tree)
  {
    t.Nil? || (-1 <= GetBalance(t) <= 1 && Balanced(t.left) && Balanced(t.right))
  }

  /** The sayings in left-node-right order. */
  function InOrder(t: Tree): seq<Saying>
  {
    match t
    case Nil => []
    case Node(s, l, r, _) => InOrder(l) + [s] + InOrder(r)
  }

  /** The sayings in node-left-right order. */
  function PreOrder(t: Tree): seq<Saying>
  {
    match t
    case Nil => []
    case Node(s, l, r, _) => [s] + PreOrder(l) + PreOrder(r)
  }

  /** The search-tree order: the in-order keys strictly increase. */
  predicate IsSearchTree(t: Tree)
  {
    StrictlySorted(InOrder(t))
  }

  /** The invariant the store keeps after every insertion. */
  predicate IsAvl(t: Tree)
  {
    IsSearchTree(t) && HeightsOk(t) && Balanced(t)
  }

  /** new Node(saying): a leaf of height 1. */
  function Leaf(saying: Saying): (n: Tree)
    ensures IsAvl(n) && Height(n) == 1
    ensures InOrder(n) == [saying] && PreOrder(n) == [saying]
  {
    Node(saying, Nil, Nil, 1)
  }

  /**
   * rotateRight(y): the left child x becomes the root, x's right subtree
   * moves under y. The demoted y gets its height first, x then uses it.
   */
  function RotateRight(y: Tree): (x: Tree)
    requires y.Node? && y.left.Node?
    ensures x.Node? && x.saying == y.left.saying
    ensures InOrder(x) == InOrder(y)
    ensures HeightsOk(y.left.left) && HeightsOk(y.left.right) && HeightsOk(y.right) ==> HeightsOk(x)
  {
    var x := y.left;
    var t2 := x.right;
    var y' := y.(left := t2, height := Max(Height(t2), Height(y.right)) + 1);
    x.(right := y', height := Max(Height(x.left), Height(y')) + 1)
  }

  /**
   * rotateLeft(x): the right child y becomes the root, y's left subtree
   * moves under x. The demoted x gets its height first, y then uses it.
   */
  function RotateLeft(x: Tree): (y: Tree)
    requires x.Node? && x.right.Node?
    ensures y.Node? && y.saying == x.right.saying
    ensures InOrder(y) == InOrder(x)
    ensures HeightsOk(x.left) && HeightsOk(x.right.left) && HeightsOk(x.right.right) ==> HeightsOk(y)
  {
    var y := x.right;
    var t2 := y.left;
    var x' := x.(right := t2, height := Max(Height(x.left), Height(t2)) + 1);
    y.(left := x', height := Max(Height(x'), Height(y.right)) + 1)
  }

  /**
   * balance(node): left-heavy by more than one rotates right, first rotating
   * a right-heavy left child left; right-heavy symmetrically; else unchanged.
   */
  function Balance(node: Tree): (r: Tree)
    requires HeightsOk(node)
    ensures r.Node? <==> node.Node?
    ensures InOrder(r) == InOrder(node)
    ensures HeightsOk(r)
  {
    var balance := GetBalance(node);
    assert node.Node? ==> HeightsOk(node.left) && HeightsOk(node.right);
    if balance > 1 then
      var left :=
        if GetBalance(node.left) < 0 then
          assert HeightsOk(node.left.left) && HeightsOk(node.left.right);
          RotateLeft(node.left)
        else node.left;
      assert HeightsOk(left) && HeightsOk(left.left) && HeightsOk(left.right);
      RotateRight(node.(left := left))
    else if balance < -1 then
      var right :=
        if GetBalance(node.right) > 0 then
          assert HeightsOk(node.right.left) && HeightsOk(node.right.right);
          RotateRight(node.right)
        else node.right;
      assert HeightsOk(right) && HeightsOk(right.left) && HeightsOk(right.right);
      RotateLeft(node.(right := right))
    else
      node
  }


  /**
   * The node-local form of the search-tree order: the left subtree's keys
   * are below the node's key, the right subtree's above, and both
   * subtrees are search trees.
   */
  lemma SearchTreeSplit(t: Tree)
    requires t.Node? && IsSearchTree(t)
    ensures IsSearchTree(t.left) && IsSearchTree(t.right)
    ensures forall x :: x in InOrder(t.left) ==> LexLess(Key(x), Key(t.saying))
    ensures forall x :: x in InOrder(t.right) ==> LexLess(Key(t.saying), Key(x))
  {
    var l, r := InOrder(t.left), InOrder(t.right);
    var all := InOrder(t);
    assert all == l + [t.saying] + r;
    forall i, j | 0 <= i < j < |l| ensures LexLess(Key(l[i]), Key(l[j])) {
      assert all[i] == l[i] && all[j] == l[j];
    }
    forall i, j | 0 <= i < j < |r| ensures LexLess(Key(r[i]), Key(r[j])) {
      assert all[|l| + 1 + i] == r[i] && all[|l| + 1 + j] == r[j];
    }
    forall x | x in l ensures LexLess(Key(x), Key(t.saying)) {
      var i :| 0 <= i < |l| && l[i] == x;
      assert all[i] == x && all[|l|] == t.saying;
    }
    forall x | x in r ensures LexLess(Key(t.saying), Key(x)) {
      var i :| 0 <= i < |r| && r[i] == x;
      assert all[|l| + 1 + i] == x && all[|l|] == t.saying;
    }
  }

  /** Left-left case: one right rotation balances the node. */
  lemma RotateRightRebalances(y: Tree)
    requires y.Node? && y.left.Node?
    requires HeightsOk(y.left) && HeightsOk(y.right) && Balanced(y.left) && Balanced(y.right)
    requires Height(y.left) == Height(y.right) + 2 && GetBalance(y.left) >= 0
    ensures Balanced(RotateRight(y))
    ensures Height(y.right) + 2 <= Height(RotateRight(y)) <= Height(y.right) + 3
  {
    var x := y.left;
    assert HeightsOk(x.left) && HeightsOk(x.right) && Balanced(x.left) && Balanced(x.right);
  }

  /** Right-right case: one left rotation balances the node. */
  lemma RotateLeftRebalances(x: Tree)
    requires x.Node? && x.right.Node?
    requires HeightsOk(x.left) && HeightsOk(x.right) && Balanced(x.left) && Balanced(x.right)
    requires Height(x.right) == Height(x.left) + 2 && GetBalance(x.right) <= 0
    ensures Balanced(RotateLeft(x))
    ensures Height(x.left) + 2 <= Height(RotateLeft(x)) <= Height(x.left) + 3
  {
    var y := x.right;
    assert HeightsOk(y.left) && HeightsOk(y.right) && Balanced(y.left) && Balanced(y.right);
  }

  /** Left-right case: rotating the left child left, then the node right. */
  lemma LeftRightRebalances(y: Tree)
    requires y.Node? && y.left.Node? && y.left.right.Node?
    requires HeightsOk(y.left) && HeightsOk(y.right) && Balanced(y.left) && Balanced(y.right)
    requires Height(y.left) == Height(y.right) + 2 && GetBalance(y.left) < 0
    ensures Balanced(RotateRight(y.(left := RotateLeft(y.left))))
    ensures Height(RotateRight(y.(left := RotateLeft(y.left)))) == Height(y.right) + 2
  {
    var x := y.left;
    var z := x.right;
    var h := Height(y.right);
    assert HeightsOk(x.left) && HeightsOk(z) && Balanced(x.left) && Balanced(z);
    assert HeightsOk(z.left) && HeightsOk(z.right) && Balanced(z.left) && Balanced(z.right);
    assert Height(z) == h + 1 && Height(x.left) == h;
    assert h - 1 <= Height(z.left) <= h && h - 1 <= Height(z.right) <= h;
    var demoted := Node(x.saying, x.left, z.left, 1 + Max(Height(x.left), Height(z.left)));
    var inner := RotateLeft(x);
    assert inner == Node(z.saying, demoted, z.right, 1 + Max(Height(demoted), Height(z.right)));
    var top := RotateRight(y.(left := inner));
    var other := Node(y.saying, z.right, y.right, 1 + Max(Height(z.right), Height(y.right)));
    assert top == Node(z.saying, demoted, other, 1 + Max(Height(demoted), Height(other)));
    assert Balanced(demoted) && Balanced(other);
  }

  /** Right-left case: rotating the right child right, then the node left. */
  lemma RightLeftRebalances(x: Tree)
    requires x.Node? && x.right.Node? && x.right.left.Node?
    requires HeightsOk(x.left) && HeightsOk(x.right) && Balanced(x.left) && Balanced(x.right)
    requires Height(x.right) == Height(x.left) + 2 && GetBalance(x.right) > 0
    ensures Balanced(RotateLeft(x.(right := RotateRight(x.right))))
    ensures Height(RotateLeft(x.(right := RotateRight(x.right)))) == Height(x.left) + 2
  {
    var y := x.right;
    var z := y.left;
    var h := Height(x.left);
    assert HeightsOk(y.right) && HeightsOk(z) && Balanced(y.right) && Balanced(z);
    assert HeightsOk(z.left) && HeightsOk(z.right) && Balanced(z.left) && Balanced(z.right);
    assert Height(z) == h + 1 && Height(y.right) == h;
    assert h - 1 <= Height(z.left) <= h && h - 1 <= Height(z.right) <= h;
    var demoted := Node(y.saying, z.right, y.right, 1 + Max(Height(z.right), Height(y.right)));
    var inner := RotateRight(y);
    assert inner == Node(z.saying, z.left, demoted, 1 + Max(Height(z.left), Height(demoted)));
    var top := RotateLeft(x.(right := inner));
    var other := Node(x.saying, x.left, z.left, 1 + Max(Height(x.left), Height(z.left)));
    assert top == Node(z.saying, other, demoted, 1 + Max(Height(other), Height(demoted)));
    assert Balanced(demoted) && Balanced(other);
  }

  /**
   * balance(node) on a node whose children are AVL-balanced and whose
   * balance factor is within two: the result is balanced, its height is the
   * node's or one less, and a node already in balance is left as it is.
   */
  lemma BalanceRestores(node: Tree)
    requires node.Node? && HeightsOk(node)
    requires Balanced(node.left) && Balanced(node.right)
    requires -2 <= GetBalance(node) <= 2
    ensures Balanced(Balance(node))
    ensures Height(node) - 1 <= Height(Balance(node)) <= Height(node)
    ensures -1 <= GetBalance(node) <= 1 ==> Balance(node) == node
  {
    var l, r := node.left, node.right;
    assert HeightsOk(l) && HeightsOk(r);
    if GetBalance(node) > 1 {
      if GetBalance(l) < 0 {
        assert HeightsOk(l.left) && HeightsOk(l.right);
        LeftRightRebalances(node);
      } else {
        RotateRightRebalances(node);
      }
    } else if GetBalance(node) < -1 {
      if GetBalance(r) > 0 {
        assert HeightsOk(r.left) && HeightsOk(r.right);
        RightLeftRebalances(node);
      } else {
        RotateLeftRebalances(node);
      }
    }
  }

  /**
   * The node with its left link replaced and its height recomputed: the
   * recomputation keeps the height bookkeeping correct.
   */
  function WithLeft(node: Tree, left: Tree): (r: Tree)
    requires node.Node?
    ensures HeightsOk(left) && HeightsOk(node.right) ==> HeightsOk(r) && Depth(r) == 1 + Max(Depth(left), Depth(node.right))
  {
    Node(node.saying, left, node.right, 1 + Max(Height(left), Height(node.right)))
  }

  /** The mirror of WithLeft for the right link. */
  function WithRight(node: Tree, right: Tree): (r: Tree)
    requires node.Node?
    ensures HeightsOk(node.left) && HeightsOk(right) ==> HeightsOk(r) && Depth(r) == 1 + Max(Depth(node.left), Depth(right))
  {
    Node(node.saying, node.left, right, 1 + Max(Height(node.left), Height(right)))
  }

  /** Descending left: the listing of the rebuilt node is SortedInsert of the old one. */
  lemma InsertLeftOrder(node: Tree, saying: Saying, left: Tree)
    requires node.Node?
    requires LexLess(Key(saying), Key(node.saying))
    requires InOrder(left) == SortedInsert(InOrder(node.left), saying)
    ensures InOrder(WithLeft(node, left)) == SortedInsert(InOrder(node), saying)
  {
    var l, rest := InOrder(node.left), [node.saying] + InOrder(node.right);
    assert InOrder(node) == l + rest;
    assert InOrder(WithLeft(node, left)) == SortedInsert(l, saying) + rest;
    SortedInsertBefore(l, rest, saying);
  }

  /** Descending right: the listing of the rebuilt node is SortedInsert of the old one. */
  lemma InsertRightOrder(node: Tree, saying: Saying, right: Tree)
    requires node.Node? && IsSearchTree(node)
    requires LexLess(Key(node.saying), Key(saying))
    requires InOrder(right) == SortedInsert(InOrder(node.right), saying)
    ensures InOrder(WithRight(node, right)) == SortedInsert(InOrder(node), saying)
  {
    SearchTreeSplit(node);
    var n, front, rs := node.saying, InOrder(node.left) + [node.saying], InOrder(node.right);
    forall x | x in front ensures LexLess(Key(x), Key(saying)) {
      if x != n {
        LexLessTransitive(Key(x), Key(n), Key(saying));
      }
    }
    assert InOrder(node) == front + rs;
    assert InOrder(WithRight(node, right)) == front + SortedInsert(rs, saying);
    SortedInsertAfter(front, rs, saying);
  }

  /**
   * A key below the node's that is stored in the node's search tree is
   * stored in its left subtree.
   */
  lemma KeyBelowIsLeft(node: Tree, k: string)
    requires node.Node? && IsSearchTree(node)
    requires LexLess(k, Key(node.saying)) && HasKey(InOrder(node), k)
    ensures HasKey(InOrder(node.left), k)
  {
    SearchTreeSplit(node);
    var x :| x in InOrder(node) && Key(x) == k;
    LexLessIrreflexive(k);
    if x in InOrder(node.right) {
      LexLessAsymmetric(k, Key(node.saying));
    }
  }

  /** A key above the node's that is stored in its search tree is in its right subtree. */
  lemma KeyAboveIsRight(node: Tree, k: string)
    requires node.Node? && IsSearchTree(node)
    requires LexLess(Key(node.saying), k) && HasKey(InOrder(node), k)
    ensures HasKey(InOrder(node.right), k)
  {
    SearchTreeSplit(node);
    var x :| x in InOrder(node) && Key(x) == k;
    LexLessIrreflexive(k);
    if x in InOrder(node.left) {
      LexLessAsymmetric(Key(node.saying), k);
    }
  }

  /** An equal key stops insert at the node, as SortedInsert stops at the key. */
  lemma InsertEqualOrder(node: Tree, saying: Saying)
    requires node.Node? && Key(saying) == Key(node.saying)
    ensures IsSearchTree(node) ==> SortedInsert(InOrder(node), saying) == InOrder(node)
  {
    if !IsSearchTree(node) {
      return;
    }
    SearchTreeSplit(node);
    var l, n, rs := InOrder(node.left), node.saying, InOrder(node.right);
    assert InOrder(node) == l + ([n] + rs);
    LexLessIrreflexive(Key(saying));
    SortedInsertAfter(l, [n] + rs, saying);
  }

  /** Descending left keeps the balance invariant and grows the node by at most one. */
  lemma InsertLeftBalance(node: Tree, left: Tree)
    requires node.Node? && HeightsOk(node) && HeightsOk(left) && Balanced(node)
    requires Balanced(left) && Height(node.left) <= Height(left) <= Height(node.left) + 1
    ensures Balanced(Balance(WithLeft(node, left)))
    ensures Height(node) <= Height(Balance(WithLeft(node, left))) <= Height(node) + 1
  {
    assert HeightsOk(node.left) && HeightsOk(node.right);
    BalanceRestores(WithLeft(node, left));
  }

  /** Descending right keeps the balance invariant and grows the node by at most one. */
  lemma InsertRightBalance(node: Tree, right: Tree)
    requires node.Node? && HeightsOk(node) && HeightsOk(right) && Balanced(node)
    requires Balanced(right) && Height(node.right) <= Height(right) <= Height(node.right) + 1
    ensures Balanced(Balance(WithRight(node, right)))
    ensures Height(node) <= Height(Balance(WithRight(node, right))) <= Height(node) + 1
  {
    assert HeightsOk(node.left) && HeightsOk(node.right);
    BalanceRestores(WithRight(node, right));
  }

  /** A left subtree returned unchanged leaves an AVL node unchanged. */
  lemma UnchangedLeft(node: Tree)
    requires node.Node? && IsAvl(node)
    ensures Balance(WithLeft(node, node.left)) == node
  {
    assert WithLeft(node, node.left) == node;
    assert HeightsOk(node.left) && HeightsOk(node.right);
    BalanceRestores(node);
  }

  /** A right subtree returned unchanged leaves an AVL node unchanged. */
  lemma UnchangedRight(node: Tree)
    requires node.Node? && IsAvl(node)
    ensures Balance(WithRight(node, node.right)) == node
  {
    assert WithRight(node, node.right) == node;
    assert HeightsOk(node.left) && HeightsOk(node.right);
    BalanceRestores(node);
  }

  /**
   * One step of insert that went left: given what the recursive call did
   * to the left subtree, the rebuilt and rebalanced node lists SortedInsert
   * of the node's listing, stays balanced with its height grown by at most
   * one, and is the node itself when the key was already stored.
   */
  lemma InsertLeftStep(node: Tree, saying: Saying, left: Tree)
    requires node.Node? && HeightsOk(node) && HeightsOk(left)
    requires LexLess(Key(saying), Key(node.saying))
    requires IsSearchTree(node.left) ==> InOrder(left) == SortedInsert(InOrder(node.left), saying)
    requires Balanced(node.left) ==> Balanced(left) && Height(node.left) <= Height(left) <= Height(node.left) + 1
    requires IsAvl(node.left) && HasKey(InOrder(node.left), Key(saying)) ==> left == node.left
    ensures IsSearchTree(node) ==> InOrder(Balance(WithLeft(node, left))) == SortedInsert(InOrder(node), saying)
    ensures Balanced(node) ==>
      Balanced(Balance(WithLeft(node, left))) &&
      Height(node) <= Height(Balance(WithLeft(node, left))) <= Height(node) + 1
    ensures IsAvl(node) && HasKey(InOrder(node), Key(saying)) ==> Balance(WithLeft(node, left)) == node
  {
    if IsSearchTree(node) {
      SearchTreeSplit(node);
      InsertLeftOrder(node, saying, left);
    }
    if Balanced(node) {
      InsertLeftBalance(node, left);
    }
    if IsAvl(node) && HasKey(InOrder(node), Key(saying)) {
      KeyBelowIsLeft(node, Key(saying));
      SearchTreeSplit(node);
      UnchangedLeft(node);
    }
  }

  /** One step of insert that went right; the mirror of InsertLeftStep. */
  lemma InsertRightStep(node: Tree, saying: Saying, right: Tree)
    requires node.Node? && HeightsOk(node) && HeightsOk(right)
    requires LexLess(Key(node.saying), Key(saying))
    requires IsSearchTree(node.right) ==> InOrder(right) == SortedInsert(InOrder(node.right), saying)
    requires Balanced(node.right) ==> Balanced(right) && Height(node.right) <= Height(right) <= Height(node.right) + 1
    requires IsAvl(node.right) && HasKey(InOrder(node.right), Key(saying)) ==> right == node.right
    ensures IsSearchTree(node) ==> InOrder(Balance(WithRight(node, right))) == SortedInsert(InOrder(node), saying)
    ensures Balanced(node) ==>
      Balanced(Balance(WithRight(node, right))) &&
      Height(node) <= Height(Balance(WithRight(node, right))) <= Height(node) + 1
    ensures IsAvl(node) && HasKey(InOrder(node), Key(saying)) ==> Balance(WithRight(node, right)) == node
  {
    if IsSearchTree(node) {
      SearchTreeSplit(node);
      InsertRightOrder(node, saying, right);
    }
    if Balanced(node) {
      InsertRightBalance(node, right);
    }
    if IsAvl(node) && HasKey(InOrder(node), Key(saying)) {
      KeyAboveIsRight(node, Key(saying));
      SearchTreeSplit(node);
      UnchangedRight(node);
    }
  }

  /**
   * insert(node, saying): descend by case-insensitive comparison; an equal
   * key keeps the stored saying (first write wins); otherwise a fresh leaf
   * of height 1 goes at the bottom and every node on the way back up has
   * its height recomputed and is rebalanced. The in-order listing becomes
   * SortedInsert of the old one, the balance factors stay in [-1, 1], the
   * height grows by at most one, and a stored key leaves the tree as it is.
   */
  function Insert(node: Tree, saying: Saying): (r: Tree)
    requires HeightsOk(node)
    ensures r.Node? && HeightsOk(r)
    ensures IsSearchTree(node) ==> InOrder(r) == SortedInsert(InOrder(node), saying)
    ensures Balanced(node) ==> Balanced(r) && Height(node) <= Height(r) <= Height(node) + 1
    ensures IsAvl(node) && HasKey(InOrder(node), Key(saying)) ==> r == node
  {
    if node.Nil? then
      Leaf(saying)
    else if CompareIgnoreCase(saying.GetHawaiianWords(), node.saying.GetHawaiianWords()) < 0 then
      assert HeightsOk(node.left);
      var left := Insert(node.left, saying);
      InsertLeftStep(node, saying, left);
      Balance(WithLeft(node, left))
    else if CompareIgnoreCase(saying.GetHawaiianWords(), node.saying.GetHawaiianWords()) > 0 then
      assert HeightsOk(node.right);
      var right := Insert(node.right, saying);
      InsertRightStep(node, saying, right);
      Balance(WithRight(node, right))
    else
      InsertEqualOrder(node, saying);
      node
  }

  /** Insertion keeps every AVL invariant and grows the height by at most one. */
  lemma InsertKeepsAvl(t: Tree, saying: Saying)
    requires IsAvl(t)
    ensures IsAvl(Insert(t, saying))
    ensures Height(t) <= Height(Insert(t, saying)) <= Height(t) + 1
  {
    SortedInsertKeepsSorted(InOrder(t), saying);
  }

  /**
   * What insertion does to the contents: a stored key leaves them as they
   * were; otherwise exactly the new saying is added.
   */
  lemma InsertContents(t: Tree, saying: Saying)
    requires IsAvl(t)
    ensures HasKey(InOrder(t), Key(saying)) ==> InOrder(Insert(t, saying)) == InOrder(t)
    ensures !HasKey(InOrder(t), Key(saying)) ==>
      multiset(InOrder(Insert(t, saying))) == multiset(InOrder(t)) + multiset{saying} &&
      |InOrder(Insert(t, saying))| == |InOrder(t)| + 1
  {
    if !HasKey(InOrder(t), Key(saying)) {
      SortedInsertAbsent(InOrder(t), saying);
    }
  }

  /** Inserting the same saying twice is the same as inserting it once. */
  lemma InsertIdempotent(t: Tree, saying: Saying)
    requires IsAvl(t)
    ensures Insert(Insert(t, saying), saying) == Insert(t, saying)
  {
    var once := Insert(t, saying);
    InsertKeepsAvl(t, saying);
    if !HasKey(InOrder(t), Key(saying)) {
      InsertContents(t, saying);
      assert saying in multiset(InOrder(once));
      assert saying in InOrder(once);
      assert HasKey(InOrder(once), Key(saying));
    }
  }

  /** Pre-order and in-order visit the same sayings, each as often. */
  lemma {:induction false} PreOrderPermutesInOrder(t: Tree)
    ensures multiset(PreOrder(t)) == multiset(InOrder(t))
  {
    if t.Node? {
      PreOrderPermutesInOrder(t.left);
      PreOrderPermutesInOrder(t.right);
    }
  }

  /** The number of nodes. */
  function Size(t: Tree): nat
  {
    match t
    case Nil => 0
    case Node(_, l, r, _) => Size(l) + 1 + Size(r)
  }

  function Pow2(n: nat): nat
  {
    if n == 0 then 1 else 2 * Pow2(n - 1)
  }

  lemma {:induction false} Pow2Monotone(a: nat, b: nat)
    requires a <= b
    ensures 1 <= Pow2(a) <= Pow2(b)
    decreases b
  {
    if a < b {
      Pow2Monotone(a, b - 1);
    } else if a > 0 {
      Pow2Monotone(a - 1, a - 1);
    }
  }

  /**
   * The point of keeping balance factors in [-1, 1]: a balanced tree of
   * height h holds at least 2^(h/2) - 1 sayings, so its height is at most
   * about twice the binary logarithm of its size.
   */
  lemma {:induction false} BalancedHeightLogarithmic(t: Tree)
    requires HeightsOk(t) && Balanced(t)
    ensures Pow2(Height(t) / 2) <= Size(t) + 1
  {
    if t.Node? {
      var l, r := t.left, t.right;
      assert HeightsOk(l) && HeightsOk(r);
      BalancedHeightLogarithmic(l);
      BalancedHeightLogarithmic(r);
      var h := Height(t);
      if h == 1 {
        Pow2Monotone(0, 0);
      } else {
        var low := (h - 2) / 2;
        Pow2Monotone(low, Height(l) / 2);
        Pow2Monotone(low, Height(r) / 2);
        assert h / 2 == low + 1;
      }
    }
  }
}
