/** `removeExtraDelimiters`: every run of '/' in a path becomes one '/'. */
module Delimiters {

  const Delim: char := '/'

  /** The path with each run of separators collapsed to one separator,
      defined from the end of the string. */
  function Collapsed(s: string): (r: string)
    ensures |r| <= |s|
    ensures |s| > 0 ==> |r| > 0 && r[0] == s[0] && r[|r| - 1] == s[|s| - 1]
    decreases |s|
  {
    if |s| <= 1 then s
    else if s[|s| - 1] == Delim && s[|s| - 2] == Delim then Collapsed(s[..|s| - 1])
    else Collapsed(s[..|s| - 1]) + [s[|s| - 1]]
  }

  /** No two separators stand next to each other. */
  predicate NoDoubleDelim(s: string)
  {
    forall i :: 0 <= i < |s| - 1 ==> !(s[i] == Delim && s[i + 1] == Delim)
  }

  /** The string with every separator deleted. */
  function WithoutDelims(s: string): (r: string)
    ensures Delim !in r
  {
    if s == [] then []
    else WithoutDelims(s[..|s| - 1]) + (if s[|s| - 1] == Delim then [] else [s[|s| - 1]])
  }

  /** The result never has two adjacent separators. */
  lemma {:induction false} CollapsedNoDoubleDelim(s: string)
    ensures NoDoubleDelim(Collapsed(s))
    decreases |s|
  {
    if |s| > 1 {
      CollapsedNoDoubleDelim(s[..|s| - 1]);
    }
  }

  /** A string is left unchanged exactly when it has no two adjacent separators. */
  lemma {:induction false} CollapsedFixedPoint(s: string)
    ensures Collapsed(s) == s <==> NoDoubleDelim(s)
    decreases |s|
  {
    CollapsedNoDoubleDelim(s);
    if |s| > 1 && NoDoubleDelim(s) {
      var p := s[..|s| - 1];
      assert NoDoubleDelim(p) by {
        forall i | 0 <= i < |p| - 1 ensures !(p[i] == Delim && p[i + 1] == Delim) {
          assert p[i] == s[i] && p[i + 1] == s[i + 1];
        }
      }
      CollapsedFixedPoint(p);
      assert s == p + [s[|s| - 1]];
    }
  }

  /** Collapsing twice is collapsing once. */
  lemma CollapsedIdempotent(s: string)
    ensures Collapsed(Collapsed(s)) == Collapsed(s)
  {
    CollapsedNoDoubleDelim(s);
    CollapsedFixedPoint(Collapsed(s));
  }

  /** Only separators are removed: deleting all of them from the input and
      from the output gives the same string. */
  lemma {:induction false} CollapsedKeepsContent(s: string)
    ensures WithoutDelims(Collapsed(s)) == WithoutDelims(s)
    decreases |s|
  {
    if |s| > 1 {
      var p := s[..|s| - 1];
      CollapsedKeepsContent(p);
      if !(s[|s| - 1] == Delim && s[|s| - 2] == Delim) {
        var c := Collapsed(p) + [s[|s| - 1]];
        assert c[..|c| - 1] == Collapsed(p);
      }
    }
  }

  /** The loop of the source: copy the first character, then every later
      character except a separator that follows a separator. */
  method RemoveExtraDelimiters(path: string) returns (r: string)
    ensures r == Collapsed(path)
  {
    if path == "" {
      return path;
    }
    var rm := path[0] == Delim;
    r := [path[0]];
    var i := 1;
    while i < |path|
      invariant 1 <= i <= |path|
      invariant r == Collapsed(path[..i])
      invariant rm == (path[i - 1] == Delim)
    {
      var c := path[i];
      assert path[..i + 1][..i] == path[..i];
      if c == Delim && rm {
        i := i + 1;
        continue;
      }
      r := r + [c];
      rm := c == Delim;
      i := i + 1;
    }
    assert path[..i] == path;
  }
}
