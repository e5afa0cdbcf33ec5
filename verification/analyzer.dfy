/**
  The analysis the page runs once a résumé is uploaded and a job description
  pasted, lifted out of the UI into one method: keyword overlap, the capped
  keyword lists on screen, the professional summary and the improved-résumé
  preview. The similarity score is not part of this model.
 */
module Analyzer {
  import opened Lists
  import Keywords
  import Summary

  /** At most this many keywords of each kind are shown on the page. */
  const UiLimit := 15

  datatype Report = Report(
    overlap: Keywords.Overlap,   // the two keyword sets
    missing: seq<string>,        // `list(jd_words - resume_words)`
    matching: seq<string>,       // `list(jd_words.intersection(resume_words))`
    shownMissing: seq<string>,   // what the page shows of `missing`
    shownMatching: seq<string>,  // what the page shows of `matching`
    summary: string,             // the professional summary sentence
    preview: string              // the improved-résumé preview text
  )

  /** `xs` lists the set `s`: each element once, nothing else. */
  predicate Enumerates(xs: seq<string>, s: set<string>) {
    (forall w :: w in s ==> w in xs) && (forall i :: 0 <= i < |xs| ==> xs[i] in s) && Distinct(xs) && |xs| == |s|
  }

  /** `shown` is what a cap of `limit` leaves of `xs`. */
  predicate CappedPrefix(shown: seq<string>, xs: seq<string>, limit: nat) {
    |shown| == (if |xs| < limit then |xs| else limit) && shown == xs[..|shown|]
  }

  lemma KeywordsListable(xs: seq<string>, s: set<string>)
    requires forall w :: w in xs ==> w in s
    requires forall w :: w in s ==> Keywords.IsKeyword(w)
    ensures Listable(xs) && Summary.SingleLine(xs)
  {
    forall i | 0 <= i < |xs| ensures |xs[i]| > 0 && ',' !in xs[i] && '\n' !in xs[i] {
      assert xs[i] in s;
    }
  }

  lemma SummarySingleLine(skills: seq<string>)
    requires Summary.SingleLine(skills)
    ensures '\n' !in Summary.GenerateSummary(skills)
  {
    var body := JoinWith(ListSep, Take(skills, Summary.SummaryLimit));
    Summary.JoinSingleLine(Take(skills, Summary.SummaryLimit));
    Summary.FixedPartsSingleLine();
    NotInConcat('\n', Summary.SummaryHead, body);
    NotInConcat('\n', Summary.SummaryHead + body, Summary.SummaryTail);
  }

  /**
    What the summary and the preview say about the two keyword lists: the
    summary is the template sentence naming the right skills, and the preview
    is exactly its ten lines (headings, summary, the two lists) with lists
    that read back as the first ten keywords of each kind.
   */
  predicate TextsAgree(matchingSet: set<string>, missing: seq<string>, matching: seq<string>, summary: string, preview: string) {
    && |summary| >= |Summary.SummaryHead| + |Summary.SummaryTail|
    && summary[..|Summary.SummaryHead|] == Summary.SummaryHead
    && summary[|summary| - |Summary.SummaryTail|..] == Summary.SummaryTail
    && Summary.NamedSkills(summary) ==
         (if matchingSet == {} then Summary.FallbackSkills else Take(matching, Summary.SummaryLimit))
    && var lines := SplitSep("\n", preview);
       && lines == Summary.PreviewLines(summary, matching, missing)
       && ParseList(lines[5]) == Take(matching, Summary.PreviewLimit)
       && ParseList(lines[8]) == Take(missing, Summary.PreviewLimit)
  }

  /** The summary and preview built from keyword lists read back as those lists. */
  lemma BuildTexts(o: Keywords.Overlap, missing: seq<string>, matching: seq<string>)
    requires forall w :: w in o.missing + o.matching ==> Keywords.IsKeyword(w)
    requires Enumerates(missing, o.missing) && Enumerates(matching, o.matching)
    ensures var summary := Summary.GenerateSummary(Summary.SummarySkills(matching));
      TextsAgree(o.matching, missing, matching, summary, Summary.ImprovedResume(summary, matching, missing))
  {
    KeywordsListable(missing, o.missing);
    KeywordsListable(matching, o.matching);
    var skills := Summary.SummarySkills(matching);
    var summary := Summary.GenerateSummary(skills);
    Summary.SummaryForMatches(matching);
    assert |matching| == 0 <==> o.matching == {} by {
      if |matching| > 0 { assert matching[0] in o.matching; }
    }
    assert Summary.SingleLine(skills) by {
      if |matching| == 0 {
        assert '\n' !in Summary.FallbackSkills[0];
        assert '\n' !in Summary.FallbackSkills[1];
        assert '\n' !in Summary.FallbackSkills[2];
      }
    }
    SummarySingleLine(skills);
    Summary.PreviewReadBack(summary, matching, missing);
  }

  /**
    A report is consistent when its keyword lists enumerate its keyword sets,
    the page shows the first 15 of each, and the summary and preview agree
    with the lists.
   */
  predicate Consistent(rep: Report) {
    && Enumerates(rep.missing, rep.overlap.missing)
    && Enumerates(rep.matching, rep.overlap.matching)
    && CappedPrefix(rep.shownMissing, rep.missing, UiLimit)
    && CappedPrefix(rep.shownMatching, rep.matching, UiLimit)
    && TextsAgree(rep.overlap.matching, rep.missing, rep.matching, rep.summary, rep.preview)
  }

  /**
    The page's analysis. Nothing happens until a file is uploaded and the job
    description is non-empty; `upload` is the text extracted from the file.
    When neither cleaned text has a word of two or more letters the
    similarity score's vectoriser raises an error and the page stops, so
    there is no report either.
    The order of the keyword lists is whatever iteration order the sets have,
    so the contract fixes their contents and not their order.
   */
  method Analyse(upload: Option<string>, jdText: string) returns (r: Option<Report>)
    ensures r.None? <==> upload.None? || |jdText| == 0 || Keywords.Vocabulary(upload.value, jdText) == {}
    ensures r.Some? && upload.Some? ==> r.value.overlap == Keywords.KeywordOverlap(upload.value, jdText)
    ensures r.Some? ==> Consistent(r.value)
  {
    if upload.None? || |jdText| == 0 {
      return None;
    }
    if Keywords.Vocabulary(upload.value, jdText) == {} {
      return None;
    }
    var rep := Reporting(Keywords.KeywordOverlap(upload.value, jdText));
    r := Some(rep);
  }

  /** Lists the two keyword sets and builds the page's report from them. */
  method Reporting(o: Keywords.Overlap) returns (rep: Report)
    requires forall w :: w in o.missing + o.matching ==> Keywords.IsKeyword(w)
    ensures rep.overlap == o
    ensures Consistent(rep)
  {
    var missing := ListOf(o.missing);
    var matching := ListOf(o.matching);
    var summary := Summary.GenerateSummary(Summary.SummarySkills(matching));
    var preview := Summary.ImprovedResume(summary, matching, missing);
    BuildTexts(o, missing, matching);
    rep := Report(o, missing, matching, Take(missing, UiLimit), Take(matching, UiLimit), summary, preview);
  }

  /**
    What the page and the preview show agree: the preview's ten keywords of
    each kind are the first ten of the fifteen on the page, and everything
    shown as missing is a job-description word the résumé lacks.
   */
  lemma ShownKeywordsAgree(resumeText: string, jdText: string, rep: Report)
    requires var o := Keywords.KeywordOverlap(resumeText, jdText);
      && Enumerates(rep.missing, o.missing)
      && Enumerates(rep.matching, o.matching)
      && CappedPrefix(rep.shownMissing, rep.missing, UiLimit)
      && CappedPrefix(rep.shownMatching, rep.matching, UiLimit)
    ensures Take(rep.missing, Summary.PreviewLimit) == Take(rep.shownMissing, Summary.PreviewLimit)
    ensures Take(rep.matching, Summary.PreviewLimit) == Take(rep.shownMatching, Summary.PreviewLimit)
    ensures forall w :: w in rep.shownMissing ==> w in Keywords.Words(jdText) && w !in Keywords.Words(resumeText)
    ensures forall w :: w in rep.shownMatching ==> w in Keywords.Words(jdText) && w in Keywords.Words(resumeText)
    ensures |Keywords.KeywordOverlap(resumeText, jdText).missing| <= UiLimit ==>
      forall w :: w in rep.shownMissing <==> w in Keywords.KeywordOverlap(resumeText, jdText).missing
  {
    var o := Keywords.KeywordOverlap(resumeText, jdText);
    ShownAreListed(rep.shownMissing, rep.missing, o.missing);
    ShownAreListed(rep.shownMatching, rep.matching, o.matching);
    if |o.missing| <= UiLimit {
      assert rep.shownMissing == rep.missing;
    }
  }

  lemma ShownAreListed(shown: seq<string>, xs: seq<string>, s: set<string>)
    requires Enumerates(xs, s) && CappedPrefix(shown, xs, UiLimit)
    ensures forall w :: w in shown ==> w in s
    ensures Take(xs, Summary.PreviewLimit) == Take(shown, Summary.PreviewLimit)
  {
    forall w | w in shown ensures w in s {
      var i :| 0 <= i < |shown| && shown[i] == w;
      assert w == xs[i];
    }
  }
}
