/**
  `str.split()` with no argument: the maximal runs of non-whitespace
  characters, in order, with empty pieces dropped. The matcher turns each
  cleaned text into the set of these runs.
 */
module Tokens {
  import Clean

  /** The characters Python's `str.isspace` accepts, which `str.split()` splits on. */
  const Whitespace: set<char> := {
    '\t', '\n', '\U{000B}', '\U{000C}', '\r', '\U{001C}', '\U{001D}', '\U{001E}', '\U{001F}', ' ',
    '\U{0085}', '\U{00A0}', '\U{1680}', '\U{2000}', '\U{2001}', '\U{2002}', '\U{2003}', '\U{2004}',
    '\U{2005}', '\U{2006}', '\U{2007}', '\U{2008}', '\U{2009}', '\U{200A}', '\U{2028}', '\U{2029}',
    '\U{202F}', '\U{205F}', '\U{3000}'
  }

  predicate IsSpace(c: char) { c in Whitespace }

  /** A piece `split()` can produce: non-empty, without whitespace. */
  predicate IsToken(w: string) {
    |w| > 0 && forall i :: 0 <= i < |w| ==> !IsSpace(w[i])
  }

  /** Length of the leading run of non-whitespace characters. */
  function WordLen(s: string): (n: nat)
    ensures n <= |s|
    ensures n < |s| ==> IsSpace(s[n])
  {
    if |s| == 0 || IsSpace(s[0]) then 0 else 1 + WordLen(s[1..])
  }

  lemma {:induction false} WordLenRun(s: string)
    ensures forall i :: 0 <= i < WordLen(s) ==> !IsSpace(s[i])
    decreases |s|
  {
    if |s| > 0 && !IsSpace(s[0]) {
      WordLenRun(s[1..]);
      assert forall i :: 1 <= i < WordLen(s) ==> s[i] == s[1..][i - 1];
    }
  }

  /**
    `s.split()`: whitespace is skipped one character at a time; a
    non-whitespace character starts a token that runs to the next whitespace.
    Every piece is a token.
   */
  function Split(s: string): (r: seq<string>)
    ensures forall i :: 0 <= i < |r| ==> IsToken(r[i])
    decreases |s|
  {
    if |s| == 0 then []
    else if IsSpace(s[0]) then Split(s[1..])
    else
      var n := WordLen(s);
      var w := s[..n];
      assert IsToken(w) by {
        WordLenRun(s);
      }
      [w] + Split(s[n..])
  }

  /** The set the source builds with `set(text.split())`. */
  function TokenSet(s: string): (ws: set<string>)
    ensures forall w :: w in ws ==> IsToken(w)
  {
    set w | w in Split(s)
  }

  /** The text with all its whitespace deleted. */
  function DropSpace(s: string): string {
    if |s| == 0 then ""
    else if IsSpace(s[0]) then DropSpace(s[1..])
    else [s[0]] + DropSpace(s[1..])
  }

  function Concat(ws: seq<string>): string {
    if |ws| == 0 then "" else ws[0] + Concat(ws[1..])
  }

  lemma {:induction false} DropSpaceConcat(a: string, b: string)
    ensures DropSpace(a + b) == DropSpace(a) + DropSpace(b)
    decreases |a|
  {
    if |a| == 0 {
      assert a + b == b;
    } else {
      assert (a + b)[1..] == a[1..] + b;
      DropSpaceConcat(a[1..], b);
    }
  }

  lemma {:induction false} DropSpaceNoSpace(s: string)
    requires forall i :: 0 <= i < |s| ==> !IsSpace(s[i])
    ensures DropSpace(s) == s
    decreases |s|
  {
    if |s| > 0 {
      DropSpaceNoSpace(s[1..]);
      assert [s[0]] + s[1..] == s;
    }
  }

  /** Deleting the whitespace of a text that starts with a word keeps that word. */
  lemma DropLeadingWord(s: string)
    ensures DropSpace(s) == s[..WordLen(s)] + DropSpace(s[WordLen(s)..])
  {
    var n := WordLen(s);
    var w := s[..n];
    assert s == w + s[n..];
    WordLenRun(s);
    DropSpaceConcat(w, s[n..]);
    DropSpaceNoSpace(w);
  }

  /**
    `split()` loses exactly the whitespace: gluing the tokens back together
    without separators gives the text with its whitespace deleted.
   */
  lemma {:induction false} SplitLosesOnlySpace(s: string)
    ensures Concat(Split(s)) == DropSpace(s)
    decreases |s|
  {
    if |s| > 0 {
      if IsSpace(s[0]) {
        SplitLosesOnlySpace(s[1..]);
      } else {
        var n := WordLen(s);
        var ws := Split(s[n..]);
        assert Split(s) == [s[..n]] + ws;
        assert ([s[..n]] + ws)[1..] == ws;
        SplitLosesOnlySpace(s[n..]);
        DropLeadingWord(s);
      }
    }
  }

  /** Tokens glued with single spaces. */
  function Unwords(ws: seq<string>): string {
    if |ws| == 0 then ""
    else if |ws| == 1 then ws[0]
    else ws[0] + " " + Unwords(ws[1..])
  }

  lemma {:induction false} WordLenPrefix(w: string, rest: string)
    requires IsToken(w)
    requires |rest| == 0 || IsSpace(rest[0])
    ensures WordLen(w + rest) == |w|
    decreases |w|
  {
    if |w| > 1 {
      assert (w + rest)[1..] == w[1..] + rest;
      WordLenPrefix(w[1..], rest);
    } else {
      assert (w + rest)[1..] == rest;
    }
  }

  /** Splitting tokens glued with single spaces gives the tokens back. */
  lemma {:induction false} SplitUnwords(ws: seq<string>)
    requires forall i :: 0 <= i < |ws| ==> IsToken(ws[i])
    ensures Split(Unwords(ws)) == ws
    decreases |ws|
  {
    if |ws| == 1 {
      var s := ws[0];
      WordLenPrefix(s, "");
      assert s + "" == s;
    } else if |ws| > 1 {
      var tail := Unwords(ws[1..]);
      var s := ws[0] + (" " + tail);
      assert s == Unwords(ws);
      WordLenPrefix(ws[0], " " + tail);
      assert s[..|ws[0]|] == ws[0];
      assert s[|ws[0]|..] == " " + tail;
      assert (" " + tail)[1..] == tail;
      SplitUnwords(ws[1..]);
      assert ws == [ws[0]] + ws[1..];
    }
  }

  /** Whitespace only, possibly empty. */
  predicate AllSpace(g: string) {
    forall i :: 0 <= i < |g| ==> IsSpace(g[i])
  }

  /**
    Gaps for a layout of `ws`: one before, between and after the tokens,
    all whitespace, those between two tokens non-empty.
   */
  predicate ValidGaps(gs: seq<string>, ws: seq<string>) {
    && |gs| == |ws| + 1
    && (forall i :: 0 <= i < |gs| ==> AllSpace(gs[i]))
    && (forall i :: 0 < i < |ws| ==> |gs[i]| > 0)
  }

  /** `gs[0] + ws[0] + gs[1] + ... + ws[n-1] + gs[n]`. */
  function Interleave(gs: seq<string>, ws: seq<string>): (r: string)
    requires |gs| == |ws| + 1
    ensures |gs[0]| <= |r| && r[..|gs[0]|] == gs[0]
  {
    if |ws| == 0 then gs[0]
    else
      var rest := Interleave(gs[1..], ws[1..]);
      assert (gs[0] + (ws[0] + rest))[..|gs[0]|] == gs[0];
      gs[0] + (ws[0] + rest)
  }

  /** Leading whitespace does not change the tokens. */
  lemma {:induction false} SplitAfterSpace(g: string, t: string)
    requires AllSpace(g)
    ensures Split(g + t) == Split(t)
    decreases |g|
  {
    if |g| > 0 {
      assert (g + t)[0] == g[0];
      assert (g + t)[1..] == g[1..] + t;
      SplitAfterSpace(g[1..], t);
    } else {
      assert g + t == t;
    }
  }

  /** A token followed by whitespace or the end of the text is the first token. */
  lemma SplitAfterToken(w: string, t: string)
    requires IsToken(w)
    requires |t| == 0 || IsSpace(t[0])
    ensures Split(w + t) == [w] + Split(t)
  {
    WordLenPrefix(w, t);
    assert (w + t)[0] == w[0];
    assert (w + t)[..|w|] == w;
    assert (w + t)[|w|..] == t;
  }

  /**
    `split()` undoes any layout of tokens with whitespace gaps: runs of
    several whitespace characters between tokens and whitespace at either
    end are all dropped, and the tokens come back whole and in order.
   */
  lemma {:induction false} SplitInterleave(gs: seq<string>, ws: seq<string>)
    requires forall i :: 0 <= i < |ws| ==> IsToken(ws[i])
    requires ValidGaps(gs, ws)
    ensures Split(Interleave(gs, ws)) == ws
    decreases |ws|
  {
    if |ws| == 0 {
      SplitAfterSpace(gs[0], "");
      assert gs[0] + "" == gs[0];
    } else {
      var rest := Interleave(gs[1..], ws[1..]);
      assert ValidGaps(gs[1..], ws[1..]) by {
        assert forall i :: 0 <= i < |gs[1..]| ==> gs[1..][i] == gs[i + 1];
      }
      assert |rest| == 0 || IsSpace(rest[0]) by {
        if |rest| > 0 {
          if |ws| > 1 {
            assert rest[..|gs[1]|] == gs[1];
            assert rest[0] == gs[1][0];
          } else {
            assert rest == gs[1];
          }
        }
      }
      SplitAfterSpace(gs[0], ws[0] + rest);
      SplitAfterToken(ws[0], rest);
      SplitInterleave(gs[1..], ws[1..]);
      assert ws == [ws[0]] + ws[1..];
    }
  }

  /** The whitespace gaps of a text, around and between its tokens. */
  function Gaps(s: string): (gs: seq<string>)
    ensures |gs| > 0
    ensures |s| > 0 && IsSpace(s[0]) ==> |gs[0]| > 0
    decreases |s|
  {
    if |s| == 0 then [""]
    else if IsSpace(s[0]) then
      var g := Gaps(s[1..]);
      [[s[0]] + g[0]] + g[1..]
    else [""] + Gaps(s[WordLen(s)..])
  }

  lemma InterleaveGrowGap(c: char, gs: seq<string>, ws: seq<string>)
    requires |gs| == |ws| + 1
    ensures Interleave([[c] + gs[0]] + gs[1..], ws) == [c] + Interleave(gs, ws)
  {
    var hs := [[c] + gs[0]] + gs[1..];
    assert hs[1..] == gs[1..];
    if |ws| > 0 {
      var rest := Interleave(gs[1..], ws[1..]);
      assert ([c] + gs[0]) + (ws[0] + rest) == [c] + (gs[0] + (ws[0] + rest));
    }
  }

  /** Gaps and tokens rebuild the text. */
  predicate Rebuilds(s: string) {
    ValidGaps(Gaps(s), Split(s)) && Interleave(Gaps(s), Split(s)) == s
  }

  lemma GapsSpaceStep(s: string)
    requires |s| > 0 && IsSpace(s[0]) && Rebuilds(s[1..])
    ensures Rebuilds(s)
  {
    var t := s[1..];
    var g := Gaps(t);
    var hs := Gaps(s);
    assert hs == [[s[0]] + g[0]] + g[1..];
    assert Split(s) == Split(t);
    InterleaveGrowGap(s[0], g, Split(t));
    assert [s[0]] + t == s;
    assert AllSpace(hs[0]) by {
      forall i | 0 <= i < |hs[0]| ensures IsSpace(hs[0][i]) {
        if i > 0 { assert hs[0][i] == g[0][i - 1]; }
      }
    }
    assert forall i :: 1 <= i < |hs| ==> hs[i] == g[i];
  }

  lemma GapsWordStep(s: string)
    requires |s| > 0 && !IsSpace(s[0]) && Rebuilds(s[WordLen(s)..])
    ensures Rebuilds(s)
  {
    var n := WordLen(s);
    var t := s[n..];
    var w := s[..n];
    var hs := Gaps(s);
    var ws := Split(s);
    assert hs == [""] + Gaps(t);
    assert ws == [w] + Split(t);
    assert |Split(t)| > 0 ==> |Gaps(t)[0]| > 0;
    ValidGapsCons(w, Gaps(t), Split(t));
    InterleaveCons("", w, Gaps(t), Split(t));
    PrefixSuffix(s, n);
  }

  /** A token in front of a layout, with an empty gap before it. */
  lemma ValidGapsCons(w: string, gs: seq<string>, ws: seq<string>)
    requires ValidGaps(gs, ws)
    requires |ws| > 0 ==> |gs[0]| > 0
    ensures ValidGaps([""] + gs, [w] + ws)
  {
    var hs := [""] + gs;
    assert forall i :: 1 <= i < |hs| ==> hs[i] == gs[i - 1];
  }

  lemma PrefixSuffix(s: string, n: nat)
    requires n <= |s|
    ensures "" + (s[..n] + s[n..]) == s
  {
    assert s[..n] + s[n..] == s;
  }

  lemma InterleaveCons(g: string, w: string, gs: seq<string>, ws: seq<string>)
    requires |gs| == |ws| + 1
    ensures Interleave([g] + gs, [w] + ws) == g + (w + Interleave(gs, ws))
  {
    assert ([g] + gs)[1..] == gs;
    assert ([w] + ws)[1..] == ws;
  }

  /**
    Every text is a layout of its tokens: `split()` finds gaps that are
    whitespace, non-empty between tokens, and rebuild the text exactly.
    With `SplitInterleave` this pins the tokens down as the maximal
    non-whitespace runs.
   */
  lemma {:induction false} SplitGaps(s: string)
    ensures ValidGaps(Gaps(s), Split(s))
    ensures Interleave(Gaps(s), Split(s)) == s
    decreases |s|
  {
    if |s| == 0 {
    } else if IsSpace(s[0]) {
      SplitGaps(s[1..]);
      GapsSpaceStep(s);
    } else {
      SplitGaps(s[WordLen(s)..]);
      GapsWordStep(s);
    }
  }

  /** Tokens of cleaned text are made of characters of cleaned text. */
  lemma {:induction false} SplitCleanText(s: string)
    requires Clean.IsCleanText(s)
    ensures forall i :: 0 <= i < |Split(s)| ==> Clean.IsCleanText(Split(s)[i])
    decreases |s|
  {
    if |s| > 0 {
      var n := if IsSpace(s[0]) then 1 else WordLen(s);
      var rest := s[n..];
      assert Clean.IsCleanText(rest) by {
        forall i | 0 <= i < |rest| ensures Clean.IsCleanChar(rest[i]) {
          assert rest[i] == s[n + i];
        }
      }
      SplitCleanText(rest);
      if !IsSpace(s[0]) {
        var w := s[..n];
        assert Clean.IsCleanText(w) by {
          forall i | 0 <= i < |w| ensures Clean.IsCleanChar(w[i]) {
            assert w[i] == s[i];
          }
        }
        assert Split(s) == [w] + Split(rest);
      }
    }
  }

  /** A token of cleaned text is a non-empty run of lower-case ASCII letters. */
  lemma CleanTokensAreWords(text: string, w: string)
    requires w in TokenSet(Clean.Clean(text))
    ensures |w| > 0
    ensures forall i :: 0 <= i < |w| ==> Clean.IsLower(w[i])
  {
    var ws := Split(Clean.Clean(text));
    SplitCleanText(Clean.Clean(text));
    var k :| 0 <= k < |ws| && ws[k] == w;
    assert IsToken(w) && Clean.IsCleanText(w);
  }
}
