/**
 * The store's contents as a listing: sayings ordered by their lower-cased
 * Hawaiian words. This is the abstract view the tree engine is measured
 * against: the in-order walk of the tree is such a listing, and inserting
 * into the tree is SortedInsert on the listing.
 */
module SortedListing {
  import opened CaseFold
  import opened Sayings

  /** The key a saying is stored under: its Hawaiian words, lower-cased. */
  function Key(s: Saying): string
  {
    Lower(s.GetHawaiianWords())
  }

  /** Keys strictly increase along the listing, so no two keys are equal. */
  predicate StrictlySorted(xs: seq<Saying>)
  {
    forall i, j :: 0 <= i < j < |xs| ==> LexLess(Key(xs[i]), Key(xs[j]))
  }

  /** Some saying in the listing has key `k`. */
  predicate HasKey(xs: seq<Saying>, k: string)
  {
    exists x :: x in xs && Key(x) == k
  }

  /**
   * Reference definition of insertion: walk the listing and put `s` before
   * the first larger key; stop without change at the first equal key.
   */
  function SortedInsert(xs: seq<Saying>, s: Saying): (r: seq<Saying>)
    ensures forall x :: x in r ==> x in xs || x == s
  {
    if xs == [] then [s]
    else if LexLess(Key(s), Key(xs[0])) then [s] + xs
    else if Key(s) == Key(xs[0]) then xs
    else [xs[0]] + SortedInsert(xs[1..], s)
  }

  /** Dropping the first saying of a sorted listing leaves larger keys only. */
  lemma SortedTail(xs: seq<Saying>)
    requires StrictlySorted(xs) && xs != []
    ensures StrictlySorted(xs[1..])
    ensures forall x :: x in xs[1..] ==> LexLess(Key(xs[0]), Key(x))
  {
    forall x | x in xs[1..] ensures LexLess(Key(xs[0]), Key(x)) {
      var j :| 0 <= j < |xs[1..]| && xs[1..][j] == x;
      assert xs[j + 1] == x;
    }
  }

  /** SortedInsert keeps a listing strictly sorted. */
  lemma {:induction false} SortedInsertKeepsSorted(xs: seq<Saying>, s: Saying)
    requires StrictlySorted(xs)
    ensures StrictlySorted(SortedInsert(xs, s))
  {
    if xs == [] {
    } else if LexLess(Key(s), Key(xs[0])) {
      forall j | 0 <= j < |xs| ensures LexLess(Key(s), Key(xs[j])) {
        if j > 0 {
          LexLessTransitive(Key(s), Key(xs[0]), Key(xs[j]));
        }
      }
    } else if Key(s) == Key(xs[0]) {
    } else {
      LexLessTotal(Key(s), Key(xs[0]));
      SortedTail(xs);
      SortedInsertKeepsSorted(xs[1..], s);
      var rest := SortedInsert(xs[1..], s);
      var r := [xs[0]] + rest;
      forall i, j | 0 <= i < j < |r| ensures LexLess(Key(r[i]), Key(r[j])) {
        if i == 0 {
          assert r[j] in rest;
        } else {
          assert r[i] == rest[i - 1] && r[j] == rest[j - 1];
        }
      }
    }
  }

  /** A sorted listing that already holds the key is returned unchanged. */
  lemma {:induction false} SortedInsertPresent(xs: seq<Saying>, s: Saying)
    requires StrictlySorted(xs) && HasKey(xs, Key(s))
    ensures SortedInsert(xs, s) == xs
  {
    var x :| x in xs && Key(x) == Key(s);
    LexLessIrreflexive(Key(s));
    if Key(s) != Key(xs[0]) {
      SortedTail(xs);
      assert x in xs[1..] by {
        assert xs == [xs[0]] + xs[1..];
      }
      assert LexLess(Key(xs[0]), Key(s));
      LexLessAsymmetric(Key(xs[0]), Key(s));
      assert HasKey(xs[1..], Key(s));
      SortedInsertPresent(xs[1..], s);
      assert xs == [xs[0]] + xs[1..];
    }
  }

  /** Without the key, exactly the one new saying is added. */
  lemma {:induction false} SortedInsertAbsent(xs: seq<Saying>, s: Saying)
    requires !HasKey(xs, Key(s))
    ensures multiset(SortedInsert(xs, s)) == multiset(xs) + multiset{s}
    ensures |SortedInsert(xs, s)| == |xs| + 1
  {
    if xs != [] && !LexLess(Key(s), Key(xs[0])) {
      assert xs[0] in xs;
      assert !HasKey(xs[1..], Key(s)) by {
        forall x | x in xs[1..] ensures Key(x) != Key(s) {
          assert x in xs;
        }
      }
      SortedInsertAbsent(xs[1..], s);
      assert xs == [xs[0]] + xs[1..];
    }
  }

  /** Inserting before a block whose first key is larger leaves the block after. */
  lemma {:induction false} SortedInsertBefore(xs: seq<Saying>, ys: seq<Saying>, s: Saying)
    requires ys != [] && LexLess(Key(s), Key(ys[0]))
    ensures SortedInsert(xs + ys, s) == SortedInsert(xs, s) + ys
  {
    if xs == [] {
      assert xs + ys == ys;
    } else {
      assert (xs + ys)[0] == xs[0] && (xs + ys)[1..] == xs[1..] + ys;
      if !LexLess(Key(s), Key(xs[0])) && Key(s) != Key(xs[0]) {
        SortedInsertBefore(xs[1..], ys, s);
      }
    }
  }

  /** Inserting after a block of smaller keys leaves the block in front. */
  lemma {:induction false} SortedInsertAfter(xs: seq<Saying>, ys: seq<Saying>, s: Saying)
    requires forall x :: x in xs ==> LexLess(Key(x), Key(s))
    ensures SortedInsert(xs + ys, s) == xs + SortedInsert(ys, s)
  {
    if xs == [] {
      assert xs + ys == ys;
    } else {
      assert xs[0] in xs;
      assert (xs + ys)[0] == xs[0] && (xs + ys)[1..] == xs[1..] + ys;
      LexLessAsymmetric(Key(xs[0]), Key(s));
      LexLessIrreflexive(Key(s));
      SortedInsertAfter(xs[1..], ys, s);
    }
  }
}
