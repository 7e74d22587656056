/**
 * The sayings database: an AVL tree of sayings kept under the root field.
 * Public insertion replaces the root with the rebalanced tree; every other
 * operation reads the tree and leaves it as it is.
 */
module Database {
  import opened CaseFold
  import opened Sayings
  import opened SortedListing
  import opened AvlTree
  import opened TreeQueries

  class SayingsDatabase {
    var root: Tree

    /** The class invariant: the root is an AVL search tree. */
    ghost predicate Valid()
      reads this
    {
      IsAvl(root)
    }

    /** The stored sayings in key order. */
    ghost function Contents(): seq<Saying>
      reads this
    {
      InOrder(root)
    }

    /** A new database is empty. */
    constructor()
      ensures Valid() && root == Nil && Contents() == []
    {
      root := Nil;
    }

    /**
     * insert(saying): the root becomes the tree insert returns. The
     * contents become SortedInsert of the old contents (unchanged when the
     * key is stored: first write wins), the tree stays an AVL search tree
     * and its height grows by at most one.
     */
    method Insert(saying: Saying)
      requires Valid()
      modifies this
      ensures Valid()
      ensures root == AvlTree.Insert(old(root), saying)
      ensures Contents() == SortedInsert(old(Contents()), saying)
      ensures HasKey(old(Contents()), Key(saying)) ==> root == old(root)
      ensures !HasKey(old(Contents()), Key(saying)) ==>
        multiset(Contents()) == multiset(old(Contents())) + multiset{saying}
      ensures Height(old(root)) <= Height(root) <= Height(old(root)) + 1
    {
      InsertKeepsAvl(root, saying);
      InsertContents(root, saying);
      root := AvlTree.Insert(root, saying);
    }

    /** getAllSayings(): the in-order listing, strictly increasing by key. */
    method GetAllSayings() returns (sayingsList: seq<Saying>)
      requires Valid()
      ensures sayingsList == InOrder(root)
      ensures StrictlySorted(sayingsList)
    {
      sayingsList := InOrderTraversal(root, []);
    }

    /**
     * member(hawaiianWords): search for the lower-cased words. True exactly
     * when a stored saying's Hawaiian words equal them ignoring case.
     */
    method Member(hawaiianWords: string) returns (found: bool)
      requires Valid()
      ensures found <==> HasKey(InOrder(root), Lower(hawaiianWords))
      ensures found <==> exists x :: x in InOrder(root) && EqualsIgnoreCase(x.GetHawaiianWords(), hawaiianWords)
    {
      found := Search(root, Lower(hawaiianWords)).Node?;
      SearchFindsStoredKey(root, Lower(hawaiianWords));
      LowerIdempotent(hawaiianWords);
    }

    /**
     * first(): the saying of the leftmost node, which has the least key;
     * nothing for an empty database.
     */
    method First() returns (r: Option<Saying>)
      requires Valid()
      ensures r.None? <==> Contents() == []
      ensures r.Some? ==> r.value in Contents()
      ensures r.Some? ==> forall x :: x in Contents() && x != r.value ==> LexLess(Key(r.value), Key(x))
    {
      if root.Nil? {
        r := None;
      } else {
        var node := MinValueNode(root);
        r := Some(node.saying);
      }
    }

    /**
     * last(): the saying of the rightmost node, which has the greatest key;
     * nothing for an empty database.
     */
    method Last() returns (r: Option<Saying>)
      requires Valid()
      ensures r.None? <==> Contents() == []
      ensures r.Some? ==> r.value in Contents()
      ensures r.Some? ==> forall x :: x in Contents() && x != r.value ==> LexLess(Key(x), Key(r.value))
    {
      if root.Nil? {
        r := None;
      } else {
        var node := MaxValueNode(root);
        r := Some(node.saying);
      }
    }

    /**
     * predecessor(hawaiianWords): the saying with the greatest key strictly
     * below the lower-cased words, or nothing when there is none. The words
     * need not be stored.
     */
    method Predecessor(hawaiianWords: string) returns (r: Option<Saying>)
      requires Valid()
      ensures r.None? <==> NoneBelow(Contents(), Lower(hawaiianWords))
      ensures r.Some? ==> GreatestBelow(Contents(), Lower(hawaiianWords), r.value)
    {
      PredecessorCorrect(root, hawaiianWords);
      r := PredecessorFrom(root, None, hawaiianWords);
    }

    /**
     * successor(hawaiianWords): the saying with the least key strictly above
     * the lower-cased words, or nothing when there is none.
     */
    method Successor(hawaiianWords: string) returns (r: Option<Saying>)
      requires Valid()
      ensures r.None? <==> NoneAbove(Contents(), Lower(hawaiianWords))
      ensures r.Some? ==> LeastAbove(Contents(), Lower(hawaiianWords), r.value)
    {
      SuccessorCorrect(root, hawaiianWords);
      r := SuccessorFrom(root, None, hawaiianWords);
    }

    /**
     * withWord(word): the stored sayings whose lower-cased Hawaiian words
     * contain the lower-cased word, each once, in pre-order.
     */
    method WithWord(word: string) returns (result: seq<Saying>)
      ensures result == Mentioning(PreOrder(root), Lower(word), true)
      ensures forall x :: x in result <==> x in InOrder(root) && Contains(Lower(x.GetHawaiianWords()), Lower(word))
    {
      result := SearchByWord(root, word, [], true);
      MentioningStored(root, Lower(word), true);
    }

    /**
     * withWordInEnglish(word): the same search over the English
     * translations.
     */
    method WithWordInEnglish(word: string) returns (result: seq<Saying>)
      ensures result == Mentioning(PreOrder(root), Lower(word), false)
      ensures forall x :: x in result <==> x in InOrder(root) && Contains(Lower(x.GetEnglishTranslation()), Lower(word))
    {
      result := SearchByWord(root, word, [], false);
      MentioningStored(root, Lower(word), false);
    }

    /**
     * MeHua(word): lower-cases the word once and searches the Hawaiian
     * words; the answer is the same list withWord gives.
     */
    method MeHua(word: string) returns (results: seq<Saying>)
      ensures results == Mentioning(PreOrder(root), Lower(word), true)
      ensures forall x :: x in results <==> x in InOrder(root) && Contains(Lower(x.GetHawaiianWords()), Lower(word))
    {
      results := SearchMeHua(root, Lower(word), []);
      MentioningStored(root, Lower(word), true);
    }
  }
}
