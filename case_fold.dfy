/**
 * The case-insensitive text operations the sayings store relies on:
 * String.toLowerCase, compareToIgnoreCase, equalsIgnoreCase and contains.
 * Case mapping is restricted to the ASCII letters; every other character
 * is its own lower-case form.
 */
module CaseFold {

  /** Character.toLowerCase on ASCII: 'A'..'Z' become 'a'..'z'. */
  function ToLower(c: char): (d: char)
    ensures !('A' <= d <= 'Z')
    ensures d == c || 'A' <= c <= 'Z'
  {
    if 'A' <= c <= 'Z' then (c as int + 32) as char else c
  }

  /** An upper-case ASCII letter and its lower-case partner fold to the same character. */
  lemma ToLowerFoldsCasePair(c: char)
    requires 'A' <= c <= 'Z'
    ensures ToLower(c) == ToLower((c as int + 32) as char) == (c as int + 32) as char
  {
  }

  /** String.toLowerCase, character by character. */
  function Lower(s: string): (r: string)
    ensures |r| == |s|
    ensures forall i :: 0 <= i < |s| ==> r[i] == ToLower(s[i])
  {
    if s == [] then [] else [ToLower(s[0])] + Lower(s[1..])
  }

  /** Lower-casing twice changes nothing more than lower-casing once. */
  lemma LowerIdempotent(s: string)
    ensures Lower(Lower(s)) == Lower(s)
  {
  }

  /**
   * Strict lexicographic order on character sequences: the first differing
   * character decides, and a proper prefix comes first.
   */
  predicate LexLess(a: string, b: string)
  {
    if a == [] then b != []
    else if b == [] then false
    else a[0] < b[0] || (a[0] == b[0] && LexLess(a[1..], b[1..]))
  }

  lemma {:induction false} LexLessIrreflexive(a: string)
    ensures !LexLess(a, a)
  {
    if a != [] {
      LexLessIrreflexive(a[1..]);
    }
  }

  lemma {:induction false} LexLessAsymmetric(a: string, b: string)
    requires LexLess(a, b)
    ensures !LexLess(b, a)
  {
    if a != [] && b != [] && a[0] == b[0] {
      LexLessAsymmetric(a[1..], b[1..]);
    }
  }

  lemma {:induction false} LexLessTransitive(a: string, b: string, c: string)
    requires LexLess(a, b) && LexLess(b, c)
    ensures LexLess(a, c)
  {
    if a != [] && a[0] == b[0] && b[0] == c[0] {
      LexLessTransitive(a[1..], b[1..], c[1..]);
    }
  }

  lemma {:induction false} LexLessTotal(a: string, b: string)
    ensures a == b || LexLess(a, b) || LexLess(b, a)
  {
    if a != [] && b != [] && a[0] == b[0] {
      LexLessTotal(a[1..], b[1..]);
      if a[1..] == b[1..] {
        assert a == [a[0]] + a[1..] && b == [b[0]] + b[1..];
      }
    }
  }

  /**
   * String.compareToIgnoreCase: the difference of the first pair of
   * lower-cased characters that differ, or else the difference of the
   * lengths. Its sign is the lexicographic order of the lower-cased texts.
   */
  function CompareIgnoreCase(a: string, b: string): (r: int)
    ensures r < 0 <==> LexLess(Lower(a), Lower(b))
    ensures r == 0 <==> Lower(a) == Lower(b)
    ensures r > 0 <==> LexLess(Lower(b), Lower(a))
  {
    if a == [] || b == [] then |a| - |b|
    else if ToLower(a[0]) != ToLower(b[0]) then ToLower(a[0]) as int - ToLower(b[0]) as int
    else
      assert Lower(a) == [ToLower(a[0])] + Lower(a[1..]);
      assert Lower(b) == [ToLower(b[0])] + Lower(b[1..]);
      CompareIgnoreCase(a[1..], b[1..])
  }

  /**
   * String.equalsIgnoreCase: the same length and, position by position,
   * the same lower-cased character.
   */
  function EqualsIgnoreCase(a: string, b: string): (r: bool)
    ensures r <==> Lower(a) == Lower(b)
  {
    |a| == |b| && forall i :: 0 <= i < |a| ==> ToLower(a[i]) == ToLower(b[i])
  }

  /** A saying stored as "Aloha" is found by the query "ALOHA". */
  lemma AlohaMatchesUpperCase()
    ensures EqualsIgnoreCase("Aloha", "ALOHA")
    ensures CompareIgnoreCase("Aloha", "ALOHA") == 0
  {
    assert Lower("Aloha") == "aloha" == Lower("ALOHA");
  }

  /** String.contains: `word` occurs in `text` starting at some position. */
  function Contains(text: string, word: string): (r: bool)
  {
    word <= text || (text != [] && Contains(text[1..], word))
  }

  /** Contains agrees with its direct definition: an occurrence at some index. */
  lemma {:induction false} ContainsIffOccurs(text: string, word: string)
    ensures Contains(text, word) <==> exists i :: 0 <= i <= |text| && word <= text[i..]
  {
    if word <= text {
      assert text[0..] == text;
    } else if text == [] {
      forall i | 0 <= i <= |text| ensures !(word <= text[i..]) {
        assert text[i..] == text;
      }
    } else {
      ContainsIffOccurs(text[1..], word);
      if Contains(text[1..], word) {
        var i :| 0 <= i <= |text[1..]| && word <= text[1..][i..];
        assert text[1..][i..] == text[i + 1..];
      } else {
        forall i | 0 <= i <= |text| ensures !(word <= text[i..]) {
          if i > 0 {
            assert text[i..] == text[1..][i - 1..];
          }
        }
      }
    }
  }
}
