/**
 * The read-only operations of the sayings store: exact lookup, the
 * leftmost and rightmost nodes, predecessor and successor of a word, the
 * in-order listing and the substring searches. None of them changes the
 * tree.
 */
module TreeQueries {
  import opened CaseFold
  import opened Sayings
  import opened SortedListing
  import opened AvlTree

  datatype Option<T> = None | Some(value: T)

  /**
   * search(node, hawaiianWords): stop at a node whose Hawaiian words equal
   * the query ignoring case, else go left when the query is smaller and
   * right otherwise. `Nil` stands for the null result.
   */
  function Search(node: Tree, hawaiianWords: string): (r: Tree)
    ensures r.Node? ==> r.saying in InOrder(node) && Key(r.saying) == Lower(hawaiianWords)
  {
    if node.Nil? then Nil
    else if EqualsIgnoreCase(node.saying.GetHawaiianWords(), hawaiianWords) then node
    else if CompareIgnoreCase(hawaiianWords, node.saying.GetHawaiianWords()) < 0 then
      Search(node.left, hawaiianWords)
    else
      Search(node.right, hawaiianWords)
  }

  /** In a search tree, search finds a node exactly when some stored key matches. */
  lemma {:induction false} SearchFindsStoredKey(t: Tree, hawaiianWords: string)
    requires IsSearchTree(t)
    ensures Search(t, hawaiianWords).Node? <==> HasKey(InOrder(t), Lower(hawaiianWords))
  {
    var k := Lower(hawaiianWords);
    if t.Node? && Key(t.saying) != k {
      SearchTreeSplit(t);
      if CompareIgnoreCase(hawaiianWords, t.saying.GetHawaiianWords()) < 0 {
        if HasKey(InOrder(t), k) {
          KeyBelowIsLeft(t, k);
        }
        SearchFindsStoredKey(t.left, hawaiianWords);
      } else {
        if HasKey(InOrder(t), k) {
          KeyAboveIsRight(t, k);
        }
        SearchFindsStoredKey(t.right, hawaiianWords);
      }
    } else if t.Node? {
      assert t.saying in InOrder(t);
    }
  }

  /** The first saying of a sorted listing has the least key. */
  lemma SortedHeadLeast(xs: seq<Saying>)
    requires StrictlySorted(xs) && xs != []
    ensures forall x :: x in xs && x != xs[0] ==> LexLess(Key(xs[0]), Key(x))
  {
    forall x | x in xs && x != xs[0] ensures LexLess(Key(xs[0]), Key(x)) {
      var j :| 0 <= j < |xs| && xs[j] == x;
    }
  }

  /** The last saying of a sorted listing has the greatest key. */
  lemma SortedLastGreatest(xs: seq<Saying>)
    requires StrictlySorted(xs) && xs != []
    ensures forall x :: x in xs && x != xs[|xs| - 1] ==> LexLess(Key(x), Key(xs[|xs| - 1]))
  {
    forall x | x in xs && x != xs[|xs| - 1] ensures LexLess(Key(x), Key(xs[|xs| - 1])) {
      var j :| 0 <= j < |xs| && xs[j] == x;
    }
  }

  /**
   * minValueNode(node): follow left links while there is one. The node
   * reached has no left child and holds the first saying of the in-order
   * listing, which in a search tree has the least key.
   */
  method MinValueNode(node: Tree) returns (current: Tree)
    requires node.Node?
    ensures current.Node? && current.left.Nil?
    ensures current.saying == InOrder(node)[0]
    ensures IsSearchTree(node) ==>
      forall x :: x in InOrder(node) && x != current.saying ==> LexLess(Key(current.saying), Key(x))
  {
    current := node;
    ghost var after: seq<Saying> := [];
    while current.left.Node?
      invariant current.Node?
      invariant InOrder(node) == InOrder(current) + after
      decreases current
    {
      after := [current.saying] + InOrder(current.right) + after;
      current := current.left;
    }
    if IsSearchTree(node) {
      SortedHeadLeast(InOrder(node));
    }
  }

  /**
   * maxValueNode(node): follow right links while there is one. The node
   * reached has no right child and holds the last saying of the listing.
   */
  method MaxValueNode(node: Tree) returns (current: Tree)
    requires node.Node?
    ensures current.Node? && current.right.Nil?
    ensures current.saying == InOrder(node)[|InOrder(node)| - 1]
    ensures IsSearchTree(node) ==>
      forall x :: x in InOrder(node) && x != current.saying ==> LexLess(Key(x), Key(current.saying))
  {
    current := node;
    ghost var before: seq<Saying> := [];
    while current.right.Node?
      invariant current.Node?
      invariant InOrder(node) == before + InOrder(current)
      decreases current
    {
      before := before + InOrder(current.left) + [current.saying];
      current := current.right;
    }
    if IsSearchTree(node) {
      SortedLastGreatest(InOrder(node));
    }
  }

  /** No stored key lies strictly below `k`. */
  predicate NoneBelow(xs: seq<Saying>, k: string)
  {
    forall x :: x in xs ==> !LexLess(Key(x), k)
  }

  /** No stored key lies strictly above `k`. */
  predicate NoneAbove(xs: seq<Saying>, k: string)
  {
    forall x :: x in xs ==> !LexLess(k, Key(x))
  }

  /** `p` is stored, its key is below `k`, and every other key below `k` is below p's. */
  predicate GreatestBelow(xs: seq<Saying>, k: string, p: Saying)
  {
    p in xs && LexLess(Key(p), k) &&
    forall x :: x in xs && LexLess(Key(x), k) ==> x == p || LexLess(Key(x), Key(p))
  }

  /** `p` is stored, its key is above `k`, and every other key above `k` is above p's. */
  predicate LeastAbove(xs: seq<Saying>, k: string, p: Saying)
  {
    p in xs && LexLess(k, Key(p)) &&
    forall x :: x in xs && LexLess(k, Key(x)) ==> x == p || LexLess(Key(p), Key(x))
  }

  /**
   * predecessor(node, predecessor, hawaiianWords): when the query is above
   * the node's words, the node becomes the candidate and the walk goes
   * right; otherwise it goes left with the candidate kept. The answer is
   * the candidate held when the walk falls off the tree.
   */
  function PredecessorFrom(node: Tree, predecessor: Option<Saying>, hawaiianWords: string): (r: Option<Saying>)
    ensures r == predecessor || (r.Some? && r.value in InOrder(node))
  {
    if node.Nil? then predecessor
    else if CompareIgnoreCase(hawaiianWords, node.saying.GetHawaiianWords()) > 0 then
      PredecessorFrom(node.right, Some(node.saying), hawaiianWords)
    else
      PredecessorFrom(node.left, predecessor, hawaiianWords)
  }

  /** successor(node, successor, hawaiianWords): the mirror of PredecessorFrom. */
  function SuccessorFrom(node: Tree, successor: Option<Saying>, hawaiianWords: string): (r: Option<Saying>)
    ensures r == successor || (r.Some? && r.value in InOrder(node))
  {
    if node.Nil? then successor
    else if CompareIgnoreCase(hawaiianWords, node.saying.GetHawaiianWords()) < 0 then
      SuccessorFrom(node.left, Some(node.saying), hawaiianWords)
    else
      SuccessorFrom(node.right, successor, hawaiianWords)
  }

  /**
   * The walk with a candidate that is below the query and below every key
   * of the subtree: it answers the candidate only when no key of the
   * subtree is below the query, and otherwise the greatest such key.
   */
  lemma {:induction false} PredecessorFromCorrect(node: Tree, cand: Option<Saying>, hawaiianWords: string)
    requires IsSearchTree(node)
    requires cand.Some? ==> LexLess(Key(cand.value), Lower(hawaiianWords))
    requires cand.Some? ==> forall x :: x in InOrder(node) ==> LexLess(Key(cand.value), Key(x))
    ensures var r, k := PredecessorFrom(node, cand, hawaiianWords), Lower(hawaiianWords);
      (r.None? <==> cand.None? && NoneBelow(InOrder(node), k)) &&
      (r.Some? ==> LexLess(Key(r.value), k)) &&
      (r.Some? ==> forall x :: x in InOrder(node) && LexLess(Key(x), k) ==> x == r.value || LexLess(Key(x), Key(r.value)))
  {
    if node.Nil? {
      return;
    }
    var k, n := Lower(hawaiianWords), node.saying;
    SearchTreeSplit(node);
    if CompareIgnoreCase(hawaiianWords, n.GetHawaiianWords()) > 0 {
      PredecessorFromCorrect(node.right, Some(n), hawaiianWords);
      var r := PredecessorFrom(node, cand, hawaiianWords);
      forall x | x in InOrder(node) && LexLess(Key(x), k) ensures x == r.value || LexLess(Key(x), Key(r.value)) {
        if x in InOrder(node.left) && r.value != n {
          LexLessTransitive(Key(x), Key(n), Key(r.value));
        }
      }
    } else {
      PredecessorFromCorrect(node.left, cand, hawaiianWords);
      LexLessTotal(Key(n), k);
      forall x | x in InOrder(node.right) ensures !LexLess(Key(x), k) {
        if LexLess(Key(x), k) {
          LexLessTransitive(Key(n), Key(x), k);
          LexLessAsymmetric(Key(n), k);
        }
      }
    }
  }

  /** The mirror of PredecessorFromCorrect for the successor walk. */
  lemma {:induction false} SuccessorFromCorrect(node: Tree, cand: Option<Saying>, hawaiianWords: string)
    requires IsSearchTree(node)
    requires cand.Some? ==> LexLess(Lower(hawaiianWords), Key(cand.value))
    requires cand.Some? ==> forall x :: x in InOrder(node) ==> LexLess(Key(x), Key(cand.value))
    ensures var r, k := SuccessorFrom(node, cand, hawaiianWords), Lower(hawaiianWords);
      (r.None? <==> cand.None? && NoneAbove(InOrder(node), k)) &&
      (r.Some? ==> LexLess(k, Key(r.value))) &&
      (r.Some? ==> forall x :: x in InOrder(node) && LexLess(k, Key(x)) ==> x == r.value || LexLess(Key(r.value), Key(x)))
  {
    if node.Nil? {
      return;
    }
    var k, n := Lower(hawaiianWords), node.saying;
    SearchTreeSplit(node);
    if CompareIgnoreCase(hawaiianWords, n.GetHawaiianWords()) < 0 {
      SuccessorFromCorrect(node.left, Some(n), hawaiianWords);
      var r := SuccessorFrom(node, cand, hawaiianWords);
      forall x | x in InOrder(node) && LexLess(k, Key(x)) ensures x == r.value || LexLess(Key(r.value), Key(x)) {
        if x in InOrder(node.right) && r.value != n {
          LexLessTransitive(Key(r.value), Key(n), Key(x));
        }
      }
    } else {
      SuccessorFromCorrect(node.right, cand, hawaiianWords);
      LexLessTotal(Key(n), k);
      forall x | x in InOrder(node.left) ensures !LexLess(k, Key(x)) {
        if LexLess(k, Key(x)) {
          LexLessTransitive(k, Key(x), Key(n));
          LexLessAsymmetric(k, Key(n));
        }
      }
    }
  }

  /**
   * predecessor(hawaiianWords) from the root with no candidate: nothing
   * when no stored key is below the query (ignoring case), else the saying
   * with the greatest stored key below it.
   */
  lemma PredecessorCorrect(t: Tree, hawaiianWords: string)
    requires IsSearchTree(t)
    ensures var r := PredecessorFrom(t, None, hawaiianWords);
      (r.None? <==> NoneBelow(InOrder(t), Lower(hawaiianWords))) &&
      (r.Some? ==> GreatestBelow(InOrder(t), Lower(hawaiianWords), r.value))
  {
    PredecessorFromCorrect(t, None, hawaiianWords);
  }

  /**
   * successor(hawaiianWords) from the root with no candidate: nothing when
   * no stored key is above the query, else the least stored key above it.
   */
  lemma SuccessorCorrect(t: Tree, hawaiianWords: string)
    requires IsSearchTree(t)
    ensures var r := SuccessorFrom(t, None, hawaiianWords);
      (r.None? <==> NoneAbove(InOrder(t), Lower(hawaiianWords))) &&
      (r.Some? ==> LeastAbove(InOrder(t), Lower(hawaiianWords), r.value))
  {
    SuccessorFromCorrect(t, None, hawaiianWords);
  }

  /**
   * inOrderTraversal(node, sayingsList): appends the left subtree's
   * sayings, then the node's, then the right subtree's to the list.
   */
  method InOrderTraversal(node: Tree, sayingsList: seq<Saying>) returns (r: seq<Saying>)
    ensures r == sayingsList + InOrder(node)
    decreases node
  {
    r := sayingsList;
    if node.Node? {
      r := InOrderTraversal(node.left, r);
      r := r + [node.saying];
      r := InOrderTraversal(node.right, r);
    }
  }

  /** The text a word search looks in: the Hawaiian words or the translation. */
  function TextToSearch(s: Saying, searchInHawaiian: bool): string
  {
    if searchInHawaiian then s.GetHawaiianWords() else s.GetEnglishTranslation()
  }

  /** The searched text, lower-cased, contains `word` as given. */
  predicate Mentions(s: Saying, word: string, searchInHawaiian: bool)
  {
    Contains(Lower(TextToSearch(s, searchInHawaiian)), word)
  }

  /**
   * The sayings of `xs`, in the order of `xs`, whose searched text
   * mentions `word`.
   */
  function Mentioning(xs: seq<Saying>, word: string, searchInHawaiian: bool): (r: seq<Saying>)
    ensures |r| <= |xs|
  {
    if xs == [] then []
    else
      (if Mentions(xs[0], word, searchInHawaiian) then [xs[0]] else [])
        + Mentioning(xs[1..], word, searchInHawaiian)
  }

  /** The filter keeps exactly the sayings of `xs` that mention the word. */
  lemma {:induction false} MentioningMembers(xs: seq<Saying>, word: string, searchInHawaiian: bool)
    ensures forall x :: x in Mentioning(xs, word, searchInHawaiian) <==> x in xs && Mentions(x, word, searchInHawaiian)
  {
    if xs != [] {
      MentioningMembers(xs[1..], word, searchInHawaiian);
      assert xs == [xs[0]] + xs[1..];
    }
  }

  /** Appending the matches of a node, then of its two subtrees, appends the node's matches. */
  lemma SearchStep(node: Tree, word: string, searchInHawaiian: bool,
                   result: seq<Saying>, here: seq<Saying>, afterLeft: seq<Saying>, afterRight: seq<Saying>)
    requires node.Node?
    requires here == result + Mentioning([node.saying], word, searchInHawaiian)
    requires afterLeft == here + Mentioning(PreOrder(node.left), word, searchInHawaiian)
    requires afterRight == afterLeft + Mentioning(PreOrder(node.right), word, searchInHawaiian)
    ensures afterRight == result + Mentioning(PreOrder(node), word, searchInHawaiian)
  {
    MentioningPreOrder(node, word, searchInHawaiian);
    AppendAssociative(result, Mentioning([node.saying], word, searchInHawaiian),
      Mentioning(PreOrder(node.left), word, searchInHawaiian),
      Mentioning(PreOrder(node.right), word, searchInHawaiian));
  }

  /** Filtering a concatenation filters each part. */
  lemma {:induction false} MentioningAppend(xs: seq<Saying>, ys: seq<Saying>, word: string, searchInHawaiian: bool)
    ensures Mentioning(xs + ys, word, searchInHawaiian)
      == Mentioning(xs, word, searchInHawaiian) + Mentioning(ys, word, searchInHawaiian)
  {
    if xs == [] {
      assert xs + ys == ys;
    } else {
      var head := if Mentions(xs[0], word, searchInHawaiian) then [xs[0]] else [];
      assert (xs + ys)[0] == xs[0] && (xs + ys)[1..] == xs[1..] + ys;
      MentioningAppend(xs[1..], ys, word, searchInHawaiian);
      calc {
        Mentioning(xs + ys, word, searchInHawaiian);
        head + Mentioning(xs[1..] + ys, word, searchInHawaiian);
        head + (Mentioning(xs[1..], word, searchInHawaiian) + Mentioning(ys, word, searchInHawaiian));
        (head + Mentioning(xs[1..], word, searchInHawaiian)) + Mentioning(ys, word, searchInHawaiian);
      }
    }
  }

  /** The pre-order matches of a node: the node's own, then its subtrees'. */
  lemma MentioningPreOrder(node: Tree, word: string, searchInHawaiian: bool)
    requires node.Node?
    ensures Mentioning(PreOrder(node), word, searchInHawaiian)
      == Mentioning([node.saying], word, searchInHawaiian)
        + Mentioning(PreOrder(node.left), word, searchInHawaiian)
        + Mentioning(PreOrder(node.right), word, searchInHawaiian)
  {
    MentioningAppend([node.saying], PreOrder(node.left), word, searchInHawaiian);
    MentioningAppend([node.saying] + PreOrder(node.left), PreOrder(node.right), word, searchInHawaiian);
  }

  /** A single saying is kept exactly when it matches. */
  lemma MentioningOne(s: Saying, word: string, searchInHawaiian: bool)
    ensures Mentioning([s], word, searchInHawaiian) == if Mentions(s, word, searchInHawaiian) then [s] else []
  {
    assert [s][1..] == [];
  }

  /** Appending a list in three steps appends the three parts at once. */
  lemma AppendAssociative(a: seq<Saying>, b: seq<Saying>, c: seq<Saying>, d: seq<Saying>)
    ensures a + b + c + d == a + (b + c + d)
  {
  }

  /**
   * searchByWord(node, word, result, searchInHawaiian): visits the node,
   * then its left and right subtrees, appending each saying whose searched
   * text, lower-cased, contains the lower-cased word. The list gains the
   * matching sayings in pre-order.
   */
  method SearchByWord(node: Tree, word: string, result: seq<Saying>, searchInHawaiian: bool)
    returns (r: seq<Saying>)
    ensures r == result + Mentioning(PreOrder(node), Lower(word), searchInHawaiian)
    decreases node
  {
    r := result;
    if node.Node? {
      var textToSearch := TextToSearch(node.saying, searchInHawaiian);
      if Contains(Lower(textToSearch), Lower(word)) {
        r := r + [node.saying];
      }
      MentioningOne(node.saying, Lower(word), searchInHawaiian);
      ghost var here := r;
      r := SearchByWord(node.left, word, r, searchInHawaiian);
      ghost var afterLeft := r;
      r := SearchByWord(node.right, word, r, searchInHawaiian);
      SearchStep(node, Lower(word), searchInHawaiian, result, here, afterLeft, r);
    }
  }

  /**
   * searchMeHua(node, word, results): like SearchByWord on the Hawaiian
   * words, except that the word is used as given (the caller lower-cases it).
   */
  method SearchMeHua(node: Tree, word: string, results: seq<Saying>) returns (r: seq<Saying>)
    ensures r == results + Mentioning(PreOrder(node), word, true)
    decreases node
  {
    r := results;
    if node.Node? {
      if Contains(Lower(node.saying.GetHawaiianWords()), word) {
        r := r + [node.saying];
      }
      MentioningOne(node.saying, word, true);
      ghost var here := r;
      r := SearchMeHua(node.left, word, r);
      ghost var afterLeft := r;
      r := SearchMeHua(node.right, word, r);
      SearchStep(node, word, true, results, here, afterLeft, r);
    }
  }

  /**
   * The word searches return exactly the stored sayings that match: the
   * pre-order walk visits every stored saying.
   */
  lemma MentioningStored(t: Tree, word: string, searchInHawaiian: bool)
    ensures forall x :: x in Mentioning(PreOrder(t), word, searchInHawaiian) <==>
      x in InOrder(t) && Mentions(x, word, searchInHawaiian)
  {
    PreOrderPermutesInOrder(t);
    MentioningMembers(PreOrder(t), word, searchInHawaiian);
    assert forall x :: x in PreOrder(t) <==> x in multiset(InOrder(t));
  }

  /**
   * The word searches are not in key order: a balanced search tree of two
   * sayings whose root holds the larger key, searched for the empty word,
   * yields the larger saying first.
   */
  lemma SearchResultsInPreOrder(a: Saying, b: Saying)
    requires LexLess(Key(a), Key(b))
    ensures var t := Node(b, Node(a, Nil, Nil, 1), Nil, 2);
      IsAvl(t) &&
      Mentioning(PreOrder(t), "", true) == [b, a] &&
      !StrictlySorted(Mentioning(PreOrder(t), "", true))
  {
    var t := Node(b, Node(a, Nil, Nil, 1), Nil, 2);
    assert InOrder(t) == [a, b];
    assert PreOrder(t) == [b, a];
    assert Mentions(a, "", true) && Mentions(b, "", true);
    assert Mentioning([a], "", true) == [a];
    LexLessAsymmetric(Key(a), Key(b));
  }
}
