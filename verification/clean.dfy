/**
  Text normalisation of the résumé matcher (`clean_text`).

  The source deletes every character outside the class `[a-zA-Z ]` and then
  lower-cases what is left. Deletion, not substitution: a newline between two
  words makes them one word.
 */
module Clean {

  predicate IsUpper(c: char) { 'A' <= c <= 'Z' }

  predicate IsLower(c: char) { 'a' <= c <= 'z' }

  /** The characters the regular expression `[^a-zA-Z ]` does NOT delete. */
  predicate IsKept(c: char) { IsUpper(c) || IsLower(c) || c == ' ' }

  /** The characters that may appear in cleaned text. */
  predicate IsCleanChar(c: char) { IsLower(c) || c == ' ' }

  predicate IsCleanText(s: string) {
    forall i :: 0 <= i < |s| ==> IsCleanChar(s[i])
  }

  /** ASCII lower-casing; the only characters that reach `lower()` are kept ones. */
  function ToLower(c: char): (d: char)
    ensures IsUpper(c) ==> IsLower(d) && d as int - c as int == 32
    ensures !IsUpper(c) ==> d == c
  {
    if IsUpper(c) then (c as int + 32) as char else c
  }

  function ToUpper(c: char): char {
    if IsLower(c) then (c as int - 32) as char else c
  }

  /** `text.lower()` applied character by character. */
  function LowerAll(s: string): (r: string)
    ensures |r| == |s|
    ensures forall i :: 0 <= i < |s| ==> r[i] == ToLower(s[i])
  {
    seq(|s|, i requires 0 <= i < |s| => ToLower(s[i]))
  }

  /** `clean_text`: delete every non-kept character, lower-case the rest. */
  function Clean(s: string): (r: string)
    ensures IsCleanText(r)
    ensures |r| <= |s|
  {
    if |s| == 0 then ""
    else if IsKept(s[0]) then [ToLower(s[0])] + Clean(s[1..])
    else Clean(s[1..])
  }

  /** `a` can be obtained from `b` by deleting characters. */
  predicate IsSubsequence(a: string, b: string)
    decreases |b|
  {
    |a| == 0 ||
    (|b| > 0 && ((a[0] == b[0] && IsSubsequence(a[1..], b[1..])) || IsSubsequence(a, b[1..])))
  }

  /** Cleaning distributes over concatenation: it works one character at a time. */
  lemma {:induction false} CleanConcat(a: string, b: string)
    ensures Clean(a + b) == Clean(a) + Clean(b)
    decreases |a|
  {
    if |a| == 0 {
      assert a + b == b;
    } else {
      assert (a + b)[0] == a[0];
      assert (a + b)[1..] == a[1..] + b;
      CleanConcat(a[1..], b);
    }
  }

  /** Cleaned text is a fixed point of `clean_text`, and nothing else is. */
  lemma {:induction false} CleanFixpoint(s: string)
    ensures Clean(s) == s <==> IsCleanText(s)
    decreases |s|
  {
    if |s| > 0 {
      CleanFixpoint(s[1..]);
      if IsCleanText(s) {
        assert IsCleanText(s[1..]) by {
          forall i | 0 <= i < |s[1..]| ensures IsCleanChar(s[1..][i]) {
            assert s[1..][i] == s[i + 1];
          }
        }
        assert [s[0]] + s[1..] == s;
      }
    }
  }

  /** Cleaning twice is cleaning once. */
  lemma CleanIdempotent(s: string)
    ensures Clean(Clean(s)) == Clean(s)
  {
    CleanFixpoint(Clean(s));
  }

  /** The output is the lower-cased input with characters deleted. */
  lemma {:induction false} CleanIsSubsequence(s: string)
    ensures IsSubsequence(Clean(s), LowerAll(s))
    decreases |s|
  {
    if |s| > 0 {
      CleanIsSubsequence(s[1..]);
      assert LowerAll(s)[1..] == LowerAll(s[1..]);
      if IsKept(s[0]) {
        assert Clean(s)[1..] == Clean(s[1..]);
      }
    }
  }

  /** Nothing is deleted exactly when every character is an ASCII letter or a space. */
  lemma {:induction false} CleanLength(s: string)
    ensures |Clean(s)| == |s| <==> forall i :: 0 <= i < |s| ==> IsKept(s[i])
    decreases |s|
  {
    if |s| > 0 {
      CleanLength(s[1..]);
      if forall i :: 0 <= i < |s[1..]| ==> IsKept(s[1..][i]) {
        assert forall i :: 1 <= i < |s| ==> IsKept(s[i]) by {
          forall i | 1 <= i < |s| ensures IsKept(s[i]) {
            assert s[i] == s[1..][i - 1];
          }
        }
      }
    }
  }

  /**
    How many times each character survives. A lower-case letter occurs in the
    output as often as it and its capital occur in the input; a space as often
    as in the input; nothing else occurs. Together with `CleanIsSubsequence`
    this pins the output down completely.
   */
  lemma {:induction false} CleanCounts(s: string, c: char)
    ensures IsLower(c) ==> multiset(Clean(s))[c] == multiset(s)[c] + multiset(s)[ToUpper(c)]
    ensures c == ' ' ==> multiset(Clean(s))[c] == multiset(s)[c]
    ensures !IsCleanChar(c) ==> multiset(Clean(s))[c] == 0
    decreases |s|
  {
    if |s| > 0 {
      var t := s[1..];
      CleanCounts(t, c);
      assert s == [s[0]] + t;
      var head := if IsKept(s[0]) then [ToLower(s[0])] else [];
      assert Clean(s) == head + Clean(t);
      LowerMatch(s[0], c);
    }
  }

  /** Which input characters turn into the output character `c`. */
  lemma LowerMatch(d: char, c: char)
    ensures IsLower(c) ==> (IsKept(d) && ToLower(d) == c <==> d == c || d == ToUpper(c))
    ensures c == ' ' ==> (IsKept(d) && ToLower(d) == c <==> d == c)
    ensures !IsCleanChar(c) ==> !(IsKept(d) && ToLower(d) == c)
  {
  }
}
