/**
  The generated text: the one-sentence professional summary
  (`generate_summary`) and the improved-résumé preview built around it.
 */
module Summary {
  import opened Lists

  /** At most this many skills are named in the summary sentence. */
  const SummaryLimit := 5

  /** At most this many keywords are listed per section of the preview. */
  const PreviewLimit := 10

  const SummaryHead := "Results-driven professional skilled in "
  // Written in two halves so that proofs can take the literal apart cheaply.
  const SummaryTail := " with strong analytical" + " and problem-solving abilities."

  /** The skills the summary names when the résumé matches no keyword. */
  const FallbackSkills: seq<string> := ["technology", "software", "development"]

  /** `generate_summary`: the first five skills, comma-separated, inside a fixed sentence. */
  function GenerateSummary(skills: seq<string>): (r: string)
    ensures |r| >= |SummaryHead| + |SummaryTail|
    ensures r[..|SummaryHead|] == SummaryHead
    ensures r[|r| - |SummaryTail|..] == SummaryTail
  {
    SummaryHead + JoinWith(ListSep, Take(skills, SummaryLimit)) + SummaryTail
  }

  /** The skills a summary sentence names, read back from its text. */
  function NamedSkills(summary: string): seq<string>
    requires |summary| >= |SummaryHead| + |SummaryTail|
  {
    ParseList(summary[|SummaryHead|..|summary| - |SummaryTail|])
  }

  /** The fixed parts of the summary sentence hold no line break. */
  lemma FixedPartsSingleLine()
    ensures '\n' !in SummaryHead && '\n' !in SummaryTail
  {
    var a, b := " with strong analytical", " and problem-solving abilities.";
    HeadLiteral();
    TailStartLiteral();
    TailEndLiteral();
    NotInConcat('\n', a, b);
  }

  /*
    Facts about string literals. Each is checked on its own: the solver
    handles one literal at a time cheaply, and several together (or one
    inside a larger proof) expensively.
   */
  lemma HeadLiteral()
    ensures '\n' !in SummaryHead
  {
  }

  lemma TailStartLiteral()
    ensures '\n' !in " with strong analytical"
  {
  }

  lemma TailEndLiteral()
    ensures '\n' !in " and problem-solving abilities."
  {
  }

  lemma SummaryHeadingLiteral()
    ensures "\nProfessional Summary:\n" == "" + ("\n" + ("Professional Summary:" + "\n"))
  {
  }

  lemma SkillsHeadingLiteral()
    ensures "\n\nKey Skills:\n" == "\n" + ("" + ("\n" + ("Key Skills:" + "\n")))
  {
  }

  lemma SuggestionsHeadingLiteral()
    ensures "\n\nSuggested Skills to Add:\n" == "\n" + ("" + ("\n" + ("Suggested Skills to Add:" + "\n")))
  {
  }

  /** The summary names exactly the first five skills, in the order given. */
  lemma SummaryNamesFirstSkills(skills: seq<string>)
    requires Listable(skills)
    ensures NamedSkills(GenerateSummary(skills)) == Take(skills, SummaryLimit)
    ensures |NamedSkills(GenerateSummary(skills))| <= SummaryLimit
  {
    var body := JoinWith(ListSep, Take(skills, SummaryLimit));
    var r := GenerateSummary(skills);
    assert r[|SummaryHead|..|r| - |SummaryTail|] == body;
    ListableTake(skills, SummaryLimit);
    ParseJoin(Take(skills, SummaryLimit));
  }

  /** The list the caller hands to `generate_summary`: the matches, or the fallback when there are none. */
  function SummarySkills(matching: seq<string>): (skills: seq<string>)
    ensures |skills| > 0
    ensures |matching| > 0 ==> skills == matching
  {
    if |matching| > 0 then matching else FallbackSkills
  }

  /** With no match the summary names the three fallback skills; otherwise the first five matches. */
  lemma SummaryForMatches(matching: seq<string>)
    requires Listable(matching)
    ensures |matching| == 0 ==> NamedSkills(GenerateSummary(SummarySkills(matching))) == FallbackSkills
    ensures |matching| > 0 ==> NamedSkills(GenerateSummary(SummarySkills(matching))) == Take(matching, SummaryLimit)
  {
    assert Listable(FallbackSkills) by {
      assert forall i :: 0 <= i < |FallbackSkills| ==> ',' !in FallbackSkills[i] by {
        assert ',' !in FallbackSkills[0];
        assert ',' !in FallbackSkills[1];
        assert ',' !in FallbackSkills[2];
      }
    }
    SummaryNamesFirstSkills(SummarySkills(matching));
  }

  /**
    The improved-résumé preview: the summary, then up to ten matching keywords
    as "Key Skills" and up to ten missing ones as "Suggested Skills to Add".
   */
  function ImprovedResume(summary: string, matching: seq<string>, missing: seq<string>): string {
    "\nProfessional Summary:\n" + summary +
    "\n\nKey Skills:\n" + JoinWith(ListSep, Take(matching, PreviewLimit)) +
    "\n\nSuggested Skills to Add:\n" + JoinWith(ListSep, Take(missing, PreviewLimit)) + "\n"
  }

  /** The preview, line by line. */
  function PreviewLines(summary: string, matching: seq<string>, missing: seq<string>): seq<string> {
    ["", "Professional Summary:", summary, "",
     "Key Skills:", JoinWith(ListSep, Take(matching, PreviewLimit)), "",
     "Suggested Skills to Add:", JoinWith(ListSep, Take(missing, PreviewLimit)), ""]
  }

  /** No item contains a line break. */
  predicate SingleLine(xs: seq<string>) {
    forall i :: 0 <= i < |xs| ==> '\n' !in xs[i]
  }

  lemma {:induction false} JoinSingleLine(xs: seq<string>)
    requires SingleLine(xs)
    ensures '\n' !in JoinWith(ListSep, xs)
    decreases |xs|
  {
    if |xs| > 1 {
      JoinSingleLine(xs[1..]);
      assert JoinWith(ListSep, xs) == xs[0] + ListSep + JoinWith(ListSep, xs[1..]);
    }
  }

  lemma JoinCons(sep: string, x: string, xs: seq<string>)
    requires |xs| > 0
    ensures JoinWith(sep, [x] + xs) == x + (sep + JoinWith(sep, xs))
  {
    assert ([x] + xs)[1..] == xs;
  }

  lemma JoinFive(nl: string, a: string, b: string, c: string, d: string, e: string)
    ensures JoinWith(nl, [a, b, c, d, e]) == a + (nl + (b + (nl + (c + (nl + (d + (nl + e)))))))
  {
    JoinCons(nl, d, [e]);
    assert [d] + [e] == [d, e];
    JoinCons(nl, c, [d, e]);
    assert [c] + [d, e] == [c, d, e];
    JoinCons(nl, b, [c, d, e]);
    assert [b] + [c, d, e] == [b, c, d, e];
    JoinCons(nl, a, [b, c, d, e]);
    assert [a] + [b, c, d, e] == [a, b, c, d, e];
  }

  lemma {:induction false} JoinAppend(sep: string, xs: seq<string>, ys: seq<string>)
    requires |xs| > 0 && |ys| > 0
    ensures JoinWith(sep, xs + ys) == JoinWith(sep, xs) + (sep + JoinWith(sep, ys))
    decreases |xs|
  {
    if |xs| == 1 {
      JoinCons(sep, xs[0], ys);
      assert xs + ys == [xs[0]] + ys;
    } else {
      JoinAppend(sep, xs[1..], ys);
      assert xs + ys == [xs[0]] + (xs[1..] + ys);
      JoinCons(sep, xs[0], xs[1..] + ys);
      JoinCons(sep, xs[0], xs[1..]);
      assert xs == [xs[0]] + xs[1..];
    }
  }

  /** The first five lines of the preview, with the line break after them. */
  lemma PreviewFirstHalf(nl: string, e: string, t1: string, s: string, t2: string, p1: string, p2: string)
    requires p1 == e + (nl + (t1 + nl))
    requires p2 == nl + (e + (nl + (t2 + nl)))
    ensures p1 + s + p2 == JoinWith(nl, [e, t1, s, e, t2]) + nl
  {
    JoinFive(nl, e, t1, s, e, t2);
  }

  /** The last five lines of the preview. */
  lemma PreviewSecondHalf(nl: string, e: string, k: string, t3: string, m: string, p3: string, p4: string)
    requires p3 == nl + (e + (nl + (t3 + nl)))
    requires p4 == nl + e
    ensures k + p3 + m + p4 == JoinWith(nl, [k, e, t3, m, e])
  {
    JoinFive(nl, k, e, t3, m, e);
  }

  /** The preview's shape with its fixed texts left open. */
  lemma PreviewShape(nl: string, e: string, t1: string, s: string, t2: string, k: string, t3: string, m: string,
                     p1: string, p2: string, p3: string, p4: string)
    requires p1 == e + (nl + (t1 + nl))
    requires p2 == nl + (e + (nl + (t2 + nl)))
    requires p3 == nl + (e + (nl + (t3 + nl)))
    requires p4 == nl + e
    ensures p1 + s + p2 + k + p3 + m + p4 == JoinWith(nl, [e, t1, s, e, t2, k, e, t3, m, e])
  {
    var a, b := [e, t1, s, e, t2], [k, e, t3, m, e];
    PreviewFirstHalf(nl, e, t1, s, t2, p1, p2);
    PreviewSecondHalf(nl, e, k, t3, m, p3, p4);
    var h1, h2 := p1 + s + p2, k + p3 + m + p4;
    assert p1 + s + p2 + k + p3 + m + p4 == h1 + h2;
    assert h1 + h2 == JoinWith(nl, a) + (nl + JoinWith(nl, b));
    assert [e, t1, s, e, t2, k, e, t3, m, e] == a + b;
    JoinAppend(nl, a, b);
  }

  /** The f-string of the source is the preview's lines joined by line breaks. */
  lemma PreviewIsLines(summary: string, matching: seq<string>, missing: seq<string>)
    ensures ImprovedResume(summary, matching, missing) == JoinWith("\n", PreviewLines(summary, matching, missing))
  {
    var k := JoinWith(ListSep, Take(matching, PreviewLimit));
    var m := JoinWith(ListSep, Take(missing, PreviewLimit));
    var nl, e := "\n", "";
    SummaryHeadingLiteral();
    SkillsHeadingLiteral();
    SuggestionsHeadingLiteral();
    PreviewShape(nl, e, "Professional Summary:", summary, "Key Skills:", k, "Suggested Skills to Add:", m,
      "\nProfessional Summary:\n", "\n\nKey Skills:\n", "\n\nSuggested Skills to Add:\n", "\n");
  }

  /**
    Reading the preview back line by line recovers the summary, the listed
    matching keywords and the listed missing ones: the first ten of each, in
    order.
   */
  lemma PreviewReadBack(summary: string, matching: seq<string>, missing: seq<string>)
    requires '\n' !in summary
    requires Listable(matching) && SingleLine(matching)
    requires Listable(missing) && SingleLine(missing)
    ensures var lines := SplitSep("\n", ImprovedResume(summary, matching, missing));
      && lines == PreviewLines(summary, matching, missing)
      && |lines| == 10
      && lines[2] == summary
      && ParseList(lines[5]) == Take(matching, PreviewLimit)
      && ParseList(lines[8]) == Take(missing, PreviewLimit)
  {
    var ls := PreviewLines(summary, matching, missing);
    PreviewIsLines(summary, matching, missing);
    JoinSingleLine(Take(matching, PreviewLimit));
    JoinSingleLine(Take(missing, PreviewLimit));
    assert Separable("\n", ls);
    SplitJoin("\n", ls);
    ListableTake(matching, PreviewLimit);
    ListableTake(missing, PreviewLimit);
    ParseJoin(Take(matching, PreviewLimit));
    ParseJoin(Take(missing, PreviewLimit));
  }
}
