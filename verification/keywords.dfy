/**
  Keyword overlap between a résumé and a job description: the words of the
  job description the résumé lacks ("missing") and the ones it has
  ("matching"), both over the token sets of the cleaned texts.
 */
module Keywords {
  import Clean
  import Tokens

  /** A keyword: a non-empty run of lower-case ASCII letters. */
  predicate IsKeyword(w: string) {
    |w| > 0 && forall i :: 0 <= i < |w| ==> Clean.IsLower(w[i])
  }

  /** `set(clean_text(text).split())`. */
  function Words(text: string): (ws: set<string>)
    ensures forall w :: w in ws ==> IsKeyword(w)
  {
    var ws := Tokens.TokenSet(Clean.Clean(text));
    assert forall w :: w in ws ==> IsKeyword(w) by {
      forall w | w in ws ensures IsKeyword(w) {
        Tokens.CleanTokensAreWords(text, w);
      }
    }
    ws
  }

  datatype Overlap = Overlap(missing: set<string>, matching: set<string>)

  /**
    `jd_words - resume_words` and `jd_words.intersection(resume_words)`.
    The two sets split the job description's words: every one of them is
    missing or matching, never both, and which one it is depends only on
    whether the résumé has it.
   */
  function KeywordOverlap(resumeText: string, jdText: string): (o: Overlap)
    ensures o.missing !! o.matching
    ensures o.missing + o.matching == Words(jdText)
    ensures forall w :: w in o.missing ==> w !in Words(resumeText)
    ensures forall w :: w in o.matching ==> w in Words(resumeText)
    ensures |o.missing| + |o.matching| == |Words(jdText)|
  {
    var jd, resume := Words(jdText), Words(resumeText);
    var o := Overlap(jd - resume, jd * resume);
    assert jd == o.missing + o.matching;
    o
  }

  /** Which side of the split a job-description word lands on. */
  lemma {:induction false} OverlapMembership(resumeText: string, jdText: string, w: string)
    ensures w in KeywordOverlap(resumeText, jdText).missing <==> w in Words(jdText) && w !in Words(resumeText)
    ensures w in KeywordOverlap(resumeText, jdText).matching <==> w in Words(jdText) && w in Words(resumeText)
  {
    var o := KeywordOverlap(resumeText, jdText);
    if w in Words(jdText) {
      assert w in o.missing + o.matching;
    }
  }

  /** The matching words do not depend on which text is the résumé. */
  lemma MatchingSymmetric(a: string, b: string)
    ensures KeywordOverlap(a, b).matching == KeywordOverlap(b, a).matching
  {
    var x, y := KeywordOverlap(a, b), KeywordOverlap(b, a);
    forall w ensures w in x.matching <==> w in y.matching {
      OverlapMembership(a, b, w);
      OverlapMembership(b, a, w);
    }
  }

  /** A résumé with no words matches nothing and misses every job word. */
  lemma {:induction false} EmptyResume(resumeText: string, jdText: string)
    requires Words(resumeText) == {}
    ensures KeywordOverlap(resumeText, jdText).matching == {}
    ensures KeywordOverlap(resumeText, jdText).missing == Words(jdText)
  {
    var o := KeywordOverlap(resumeText, jdText);
    assert o.matching <= Words(resumeText);
  }

  /**
    The terms the similarity score's TF-IDF vectoriser indexes. Its default
    token pattern `\b\w\w+\b`, applied to cleaned text (only `a`-`z` and
    spaces), picks exactly the words of two or more letters. With no such
    term the vectoriser raises an error and the page stops before the
    keyword lists.
   */
  function Vocabulary(resumeText: string, jdText: string): (v: set<string>)
    ensures forall w :: w in v ==> (w in Words(resumeText) || w in Words(jdText)) && |w| >= 2
  {
    set w | w in Words(resumeText) + Words(jdText) && |w| >= 2
  }

  /** The vocabulary is empty exactly when every word of either text is a single letter. */
  lemma VocabularyEmpty(resumeText: string, jdText: string)
    ensures Vocabulary(resumeText, jdText) == {} <==>
      (forall w :: w in Words(resumeText) ==> |w| == 1) && (forall w :: w in Words(jdText) ==> |w| == 1)
  {
    var v := Vocabulary(resumeText, jdText);
    if v == {} {
      forall w | w in Words(resumeText) + Words(jdText) ensures |w| == 1 {
        assert w !in v;
      }
    } else {
      var w :| w in v;
    }
  }

  /** Two texts without letters (an upload with no extractable text and the job description "123", say) give no vocabulary. */
  lemma {:induction false} LetterlessVocabulary(resumeText: string, jdText: string)
    requires forall i :: 0 <= i < |resumeText| ==> !Clean.IsUpper(resumeText[i]) && !Clean.IsLower(resumeText[i])
    requires forall i :: 0 <= i < |jdText| ==> !Clean.IsUpper(jdText[i]) && !Clean.IsLower(jdText[i])
    ensures Vocabulary(resumeText, jdText) == {}
  {
    NoLettersNoWords(resumeText);
    NoLettersNoWords(jdText);
  }

  /** Text without letters has no words. */
  lemma NoLettersNoWords(text: string)
    requires forall i :: 0 <= i < |text| ==> !Clean.IsUpper(text[i]) && !Clean.IsLower(text[i])
    ensures Words(text) == {}
  {
    NoLettersClean(text);
    var s := Clean.Clean(text);
    forall w | w in Words(text) ensures false {
      var ws := Tokens.Split(s);
      var k :| 0 <= k < |ws| && ws[k] == w;
      Tokens.SplitCleanText(s);
      assert Clean.IsLower(w[0]);
      Tokens.SplitLosesOnlySpace(s);
      ConcatHas(ws, k);
      DropSpaceOfSpaces(s);
    }
  }

  lemma {:induction false} NoLettersClean(text: string)
    requires forall i :: 0 <= i < |text| ==> !Clean.IsUpper(text[i]) && !Clean.IsLower(text[i])
    ensures forall i :: 0 <= i < |Clean.Clean(text)| ==> Clean.Clean(text)[i] == ' '
    decreases |text|
  {
    if |text| > 0 {
      NoLettersClean(text[1..]);
    }
  }

  lemma {:induction false} DropSpaceOfSpaces(s: string)
    requires forall i :: 0 <= i < |s| ==> s[i] == ' '
    ensures Tokens.DropSpace(s) == ""
    decreases |s|
  {
    if |s| > 0 {
      assert Tokens.IsSpace(s[0]);
      DropSpaceOfSpaces(s[1..]);
    }
  }

  lemma {:induction false} ConcatHas(ws: seq<string>, k: nat)
    requires k < |ws| && |ws[k]| > 0
    ensures |Tokens.Concat(ws)| > 0
    decreases |ws|
  {
    if k > 0 {
      ConcatHas(ws[1..], k - 1);
    }
  }
}
