/**
 * A saying: Hawaiian words, their English translation and an explanation.
 * It has no setters, so as a datatype value it is immutable by construction.
 */
module Sayings {

  datatype Saying = Saying(hawaiianWords: string, englishTranslation: string, sayingExplanation: string)
  {
    function GetHawaiianWords(): string { hawaiianWords }

    function GetEnglishTranslation(): string { englishTranslation }

    function GetExplanation(): string { sayingExplanation }

    /** The three labelled lines: Hawaiian words, translation, explanation. */
    function ToString(): string
    {
      HawaiianLabel + hawaiianWords + TranslationLabel + englishTranslation + ExplanationLabel
        + sayingExplanation
    }
  }

  /** The three-argument constructor: every field as given. */
  function NewSaying(hawaiianWords: string, englishTranslation: string, sayingExplanation: string): (s: Saying)
    ensures s.GetHawaiianWords() == hawaiianWords
    ensures s.GetEnglishTranslation() == englishTranslation
    ensures s.GetExplanation() == sayingExplanation
  {
    Saying(hawaiianWords, englishTranslation, sayingExplanation)
  }

  /** The two-argument constructor: delegates with an empty explanation. */
  function NewSayingWithoutExplanation(hawaiianWords: string, englishTranslation: string): (s: Saying)
    ensures s == NewSaying(hawaiianWords, englishTranslation, "")
    ensures s.GetHawaiianWords() == hawaiianWords
    ensures s.GetEnglishTranslation() == englishTranslation
    ensures s.GetExplanation() == ""
  {
    NewSaying(hawaiianWords, englishTranslation, "")
  }

  /** Two sayings are the same value exactly when their getters agree. */
  lemma GettersDetermineSaying(s: Saying, t: Saying)
    ensures s == t <==>
      s.GetHawaiianWords() == t.GetHawaiianWords() &&
      s.GetEnglishTranslation() == t.GetEnglishTranslation() &&
      s.GetExplanation() == t.GetExplanation()
  {
  }

  const HawaiianLabel := "Hawaiian: "
  const TranslationLabel := "\nTranslation: "
  const ExplanationLabel := "\nExplanation: "

  /**
   * Where each field stands in the rendering: after its label, in the
   * order Hawaiian words, translation, explanation.
   */
  lemma ToStringLayout(s: Saying)
    ensures var r, a, b, c := s.ToString(), |HawaiianLabel|, |TranslationLabel|, |ExplanationLabel|;
      var h, e := |s.hawaiianWords|, |s.englishTranslation|;
      |r| == a + h + b + e + c + |s.sayingExplanation| &&
      r[..a] == HawaiianLabel &&
      r[a..a + h] == s.hawaiianWords &&
      r[a + h..a + h + b] == TranslationLabel &&
      r[a + h + b..a + h + b + e] == s.englishTranslation &&
      r[a + h + b + e..a + h + b + e + c] == ExplanationLabel &&
      r[a + h + b + e + c..] == s.sayingExplanation
  {
  }

  /** The index of the first line break of `s`, or |s| when there is none. */
  function FirstLineBreak(s: string): (n: nat)
    ensures n <= |s|
    ensures n < |s| ==> s[n] == '\n'
    ensures '\n' !in s[..n]
  {
    if s == [] || s[0] == '\n' then 0 else 1 + FirstLineBreak(s[1..])
  }

  lemma {:induction false} FirstLineBreakAfter(line: string, rest: string)
    requires '\n' !in line
    requires rest != [] && rest[0] == '\n'
    ensures FirstLineBreak(line + rest) == |line|
  {
    if line != [] {
      assert (line + rest)[1..] == line[1..] + rest;
      FirstLineBreakAfter(line[1..], rest);
    }
  }

  /** A single line followed by a line break splits off in only one way. */
  lemma SplitLine(line1: string, rest1: string, line2: string, rest2: string)
    requires '\n' !in line1 && '\n' !in line2
    requires rest1 != [] && rest1[0] == '\n' && rest2 != [] && rest2[0] == '\n'
    requires line1 + rest1 == line2 + rest2
    ensures line1 == line2 && rest1 == rest2
  {
    FirstLineBreakAfter(line1, rest1);
    FirstLineBreakAfter(line2, rest2);
    assert line1 == (line1 + rest1)[..|line1|];
    assert line2 == (line2 + rest2)[..|line2|];
    assert rest1 == (line1 + rest1)[|line1|..];
    assert rest2 == (line2 + rest2)[|line2|..];
  }

  /**
   * A rendering `label1 + line1 + label2 + line2 + label3 + rest` whose
   * second and third labels start with a line break determines its lines.
   */
  lemma ParseThreeLines(label1: string, label2: string, label3: string,
                        h1: string, e1: string, x1: string, h2: string, e2: string, x2: string)
    requires label2 != [] && label2[0] == '\n' && label3 != [] && label3[0] == '\n'
    requires '\n' !in h1 && '\n' !in e1 && '\n' !in h2 && '\n' !in e2
    requires label1 + h1 + label2 + e1 + label3 + x1 == label1 + h2 + label2 + e2 + label3 + x2
    ensures h1 == h2 && e1 == e2 && x1 == x2
  {
    var r := label1 + h1 + label2 + e1 + label3 + x1;
    var tail1, tail2 := label2 + e1 + label3 + x1, label2 + e2 + label3 + x2;
    assert h1 + tail1 == r[|label1|..] == h2 + tail2;
    SplitLine(h1, tail1, h2, tail2);
    var last1, last2 := label3 + x1, label3 + x2;
    assert e1 + last1 == tail1[|label2|..] == e2 + last2;
    SplitLine(e1, last1, e2, last2);
    assert x1 == last1[|label3|..] == x2;
  }

  /**
   * When the Hawaiian words and the translation are single lines, the
   * rendering determines the saying.
   */
  lemma ToStringInjective(s: Saying, t: Saying)
    requires '\n' !in s.hawaiianWords && '\n' !in s.englishTranslation
    requires '\n' !in t.hawaiianWords && '\n' !in t.englishTranslation
    requires s.ToString() == t.ToString()
    ensures s == t
  {
    ParseThreeLines(HawaiianLabel, TranslationLabel, ExplanationLabel,
      s.hawaiianWords, s.englishTranslation, s.sayingExplanation,
      t.hawaiianWords, t.englishTranslation, t.sayingExplanation);
  }
}
