/**
  The Python built-ins the matcher leans on, over sequences: `list(a_set)`,
  slicing `xs[:n]`, `sep.join(xs)` and `s.split(sep)`.
 */
module Lists {

  datatype Option<T> = None | Some(value: T)

  predicate Distinct<T(==)>(xs: seq<T>) {
    forall i, j :: 0 <= i < j < |xs| ==> xs[i] != xs[j]
  }

  /**
    `list(s)`: every element of the set exactly once, in an order Python does
    not specify. The element is picked with `:|`, so the contract is all a
    caller may rely on.
   */
  method ListOf<T(==)>(s: set<T>) returns (xs: seq<T>)
    ensures forall x :: x in xs <==> x in s
    ensures Distinct(xs)
    ensures |xs| == |s|
  {
    var rest := s;
    xs := [];
    while rest != {}
      invariant rest <= s
      invariant forall x :: x in s ==> x in rest || x in xs
      invariant forall i :: 0 <= i < |xs| ==> xs[i] in s && xs[i] !in rest
      invariant Distinct(xs)
      invariant |xs| + |rest| == |s|
      decreases rest
    {
      var x :| x in rest;
      xs := xs + [x];
      rest := rest - {x};
    }
  }

  /** `xs[:n]` for a non-negative `n`: the longest prefix of length at most `n`. */
  function Take<T>(xs: seq<T>, n: nat): (r: seq<T>)
    ensures |r| == if |xs| < n then |xs| else n
    ensures r == xs[..|r|]
  {
    if |xs| <= n then xs else xs[..n]
  }

  /** `sep.join(xs)`. */
  function JoinWith(sep: string, xs: seq<string>): string
  {
    if |xs| == 0 then ""
    else if |xs| == 1 then xs[0]
    else xs[0] + sep + JoinWith(sep, xs[1..])
  }

  /** `sep` occurs in `s` starting at index `j`. */
  predicate OccursAt(sep: string, s: string, j: int) {
    0 <= j && j + |sep| <= |s| && s[j..j + |sep|] == sep
  }

  lemma OccursShift(sep: string, s: string, j: int)
    requires |s| > 0 && j >= 0
    ensures OccursAt(sep, s, j + 1) <==> OccursAt(sep, s[1..], j)
  {
    if j + 1 + |sep| <= |s| {
      assert s[j + 1..j + 1 + |sep|] == s[1..][j..j + |sep|];
    }
  }

  /** `s.find(sep)`: the first position where `sep` occurs in `s`, if any. */
  function Find(sep: string, s: string): (k: Option<nat>)
    requires |sep| > 0
    ensures k.Some? ==> OccursAt(sep, s, k.value)
    ensures k.Some? ==> forall j :: 0 <= j < k.value ==> !OccursAt(sep, s, j)
    ensures k.None? ==> forall j :: !OccursAt(sep, s, j)
    decreases |s|
  {
    if |s| < |sep| then None
    else if s[..|sep|] == sep then Some(0)
    else
      var k := Find(sep, s[1..]);
      assert forall j :: 0 <= j ==> (OccursAt(sep, s, j + 1) <==> OccursAt(sep, s[1..], j)) by {
        forall j | 0 <= j { OccursShift(sep, s, j); }
      }
      assert !OccursAt(sep, s, 0);
      assert forall j :: OccursAt(sep, s, j) ==> j >= 1 && OccursAt(sep, s[1..], j - 1) by {
        forall j | OccursAt(sep, s, j) ensures j >= 1 && OccursAt(sep, s[1..], j - 1) {
          OccursShift(sep, s, j - 1);
        }
      }
      match k
      case None => None
      case Some(i) => Some(i + 1)
  }

  /** `s.split(sep)` for a non-empty separator; joining the pieces gives `s` back. */
  function SplitSep(sep: string, s: string): (r: seq<string>)
    requires |sep| > 0
    ensures |r| > 0
    ensures JoinWith(sep, r) == s
    decreases |s|
  {
    match Find(sep, s)
    case None => [s]
    case Some(k) =>
      var rest := SplitSep(sep, s[k + |sep|..]);
      assert s == s[..k] + sep + s[k + |sep|..];
      [s[..k]] + rest
  }

  /** The separator starts with a character none of the pieces contains. */
  predicate Separable(sep: string, xs: seq<string>)
    requires |sep| > 0
  {
    forall i :: 0 <= i < |xs| ==> sep[0] !in xs[i]
  }

  lemma {:induction false} FindAfter(sep: string, x: string, rest: string)
    requires |sep| > 0 && sep[0] !in x
    ensures Find(sep, x + sep + rest) == Some(|x|)
    decreases |x|
  {
    var s := x + sep + rest;
    if |x| == 0 {
      assert s[..|sep|] == sep;
    } else {
      assert s[0] == x[0] != sep[0];
      assert s[..|sep|] != sep by { assert s[..|sep|][0] != sep[0]; }
      assert s[1..] == x[1..] + sep + rest;
      FindAfter(sep, x[1..], rest);
    }
  }

  lemma {:induction false} FindAbsent(sep: string, x: string)
    requires |sep| > 0 && sep[0] !in x
    ensures Find(sep, x) == None
    decreases |x|
  {
    if |x| >= |sep| {
      assert x[..|sep|] != sep by { assert x[..|sep|][0] == x[0]; }
      FindAbsent(sep, x[1..]);
    }
  }

  /** One step of `split`: the piece before the first separator, then the rest split. */
  lemma SplitSepStep(sep: string, s: string, k: nat)
    requires |sep| > 0 && Find(sep, s) == Some(k)
    ensures SplitSep(sep, s) == [s[..k]] + SplitSep(sep, s[k + |sep|..])
  {
  }

  /** Splitting a join on its separator recovers the pieces. */
  lemma {:induction false} SplitJoin(sep: string, xs: seq<string>)
    requires |sep| > 0 && |xs| > 0 && Separable(sep, xs)
    ensures SplitSep(sep, JoinWith(sep, xs)) == xs
    decreases |xs|
  {
    if |xs| == 1 {
      FindAbsent(sep, xs[0]);
    } else {
      var x, rest := xs[0], xs[1..];
      var tail := JoinWith(sep, rest);
      var s := x + sep + tail;
      assert JoinWith(sep, xs) == s;
      FindAfter(sep, x, tail);
      SplitSepStep(sep, s, |x|);
      assert s[|x| + |sep|..] == tail;
      assert s[..|x|] == x;
      assert Separable(sep, rest) by {
        forall i | 0 <= i < |rest| ensures sep[0] !in rest[i] {
          assert rest[i] == xs[i + 1];
        }
      }
      SplitJoin(sep, rest);
      assert xs == [x] + rest;
    }
  }

  /** The separator of every comma-separated list in the output. */
  const ListSep := ", "

  /** What `', '.join` can be undone on: non-empty items without a comma. */
  predicate Listable(xs: seq<string>) {
    forall i :: 0 <= i < |xs| ==> |xs[i]| > 0 && ',' !in xs[i]
  }

  /** Reads a comma-separated list back; the empty text is the empty list. */
  function ParseList(s: string): seq<string> {
    if s == "" then [] else SplitSep(ListSep, s)
  }

  /** `', '.join(xs)` names exactly the items of `xs`, in order. */
  lemma {:induction false} ParseJoin(xs: seq<string>)
    requires Listable(xs)
    ensures ParseList(JoinWith(ListSep, xs)) == xs
  {
    if |xs| > 0 {
      assert |JoinWith(ListSep, xs)| > 0 by {
        if |xs| > 1 {
          assert JoinWith(ListSep, xs) == xs[0] + ListSep + JoinWith(ListSep, xs[1..]);
        }
      }
      SplitJoin(ListSep, xs);
    }
  }

  lemma NotInConcat(c: char, a: string, b: string)
    requires c !in a && c !in b
    ensures c !in a + b
  {
    forall i | 0 <= i < |a + b| ensures (a + b)[i] != c {
      if i < |a| {
        assert (a + b)[i] == a[i];
      } else {
        assert (a + b)[i] == b[i - |a|];
      }
    }
  }

  lemma ListableTake(xs: seq<string>, n: nat)
    requires Listable(xs)
    ensures Listable(Take(xs, n))
  {
  }
}
