/** String helpers of the source: `split`, and `strings.Split` and
    `strings.IndexByte` from Go's library as the parser uses them. */
module Strings {

  /** Position of the first `c` in `s`, or -1 (`strings.IndexByte`). */
  function IndexOf(s: string, c: char): (i: int)
    ensures -1 <= i < |s|
    ensures i >= 0 ==> s[i] == c && c !in s[..i]
    ensures i < 0 <==> c !in s
  {
    if s == [] then -1
    else if s[0] == c then 0
    else
      var j := IndexOf(s[1..], c);
      if j < 0 then -1
      else
        assert s[..j + 1] == [s[0]] + s[1..][..j];
        j + 1
  }

  /** The first `c` of `a + [c] + b` is the one after `a` when `a` has none. */
  lemma {:induction false} IndexOfAfter(a: string, c: char, b: string)
    requires c !in a
    ensures IndexOf(a + [c] + b, c) == |a|
  {
    if a != [] {
      assert (a + [c] + b)[1..] == a[1..] + [c] + b;
      IndexOfAfter(a[1..], c, b);
    }
  }

  /** Slicing a concatenation inside its first part. */
  lemma SliceOfConcat(a: string, t: string, i: nat)
    requires i <= |a|
    ensures (a + t)[i..] == a[i..] + t
    ensures (a + t)[..i] == a[..i]
  {
  }

  /** Concatenation is associative. */
  lemma ConcatAssoc<T>(a: seq<T>, b: seq<T>, c: seq<T>)
    ensures a + (b + c) == (a + b) + c
  {
  }

  /** `split(s, sep, cutc)`: cut `s` at the first `sep`. With `cut` the
      separator belongs to neither half, without it the second half starts
      with it; with no `sep` in `s` the halves are `s` and "". */
  function Split(s: string, sep: char, cut: bool): (r: (string, string))
    ensures sep !in s ==> r == (s, "")
    ensures sep in s ==> sep !in r.0
    ensures sep in s && cut ==> s == r.0 + [sep] + r.1
    ensures sep in s && !cut ==> s == r.0 + r.1 && r.1[0] == sep
  {
    var i := IndexOf(s, sep);
    if i < 0 then (s, "")
    else if cut then (s[..i], s[i + 1..])
    else (s[..i], s[i..])
  }

  /** Splitting never makes the text longer. */
  lemma SplitLength(s: string, sep: char, cut: bool)
    ensures |Split(s, sep, cut).0| + |Split(s, sep, cut).1| <= |s|
  {
    var r := Split(s, sep, cut);
    if sep in s && cut {
      assert |s| == |r.0| + 1 + |r.1|;
    }
  }

  /** `strings.Split(s, sep)`: every piece between separators, in order;
      the empty string gives one empty piece. */
  function SplitAll(s: string, sep: char): (parts: seq<string>)
    ensures |parts| >= 1
    ensures forall k :: 0 <= k < |parts| ==> sep !in parts[k]
    decreases |s|
  {
    if sep !in s then [s]
    else
      var (head, tail) := Split(s, sep, true);
      [head] + SplitAll(tail, sep)
  }

  /** `strings.Join`: the pieces with one separator between neighbours. */
  function Join(parts: seq<string>, sep: char): string
  {
    if |parts| == 0 then ""
    else if |parts| == 1 then parts[0]
    else parts[0] + [sep] + Join(parts[1..], sep)
  }

  /** Joining the pieces gives back the string. */
  lemma {:induction false} JoinSplitAll(s: string, sep: char)
    ensures Join(SplitAll(s, sep), sep) == s
    decreases |s|
  {
    if sep in s {
      var (head, tail) := Split(s, sep, true);
      JoinSplitAll(tail, sep);
    }
  }

  /** Splitting a join of separator-free pieces gives back the pieces. */
  lemma {:induction false} SplitAllJoin(parts: seq<string>, sep: char)
    requires |parts| >= 1
    requires forall k :: 0 <= k < |parts| ==> sep !in parts[k]
    ensures SplitAll(Join(parts, sep), sep) == parts
  {
    if |parts| == 1 {
      assert Join(parts, sep) == parts[0];
    } else {
      var a := parts[0];
      var rest := parts[1..];
      var j := Join(rest, sep);
      assert forall k :: 0 <= k < |rest| ==> sep !in rest[k] by {
        forall k | 0 <= k < |rest| ensures sep !in rest[k] {
          assert rest[k] == parts[k + 1];
        }
      }
      var s := a + [sep] + j;
      assert Join(parts, sep) == s;
      IndexOfAfter(a, sep, j);
      assert s[|a|] == sep;
      assert s[..|a|] == a;
      assert s[|a| + 1..] == j;
      SplitAllJoin(rest, sep);
      assert SplitAll(s, sep) == [a] + SplitAll(j, sep);
      assert parts == [a] + rest;
    }
  }

  /** The items the source visits with `cur, rest := split(...)` and
      `for cur != ""`: `cur`, then the items of `rest`, stopping before the
      first empty item. */
  function ItemsFrom(cur: string, rest: string, sep: char): (items: seq<string>)
    ensures forall k :: 0 <= k < |items| ==> items[k] != ""
    decreases |cur| + |rest|
  {
    if cur == "" then []
    else
      var (next, rest') := Split(rest, sep, true);
      [cur] + ItemsFrom(next, rest', sep)
  }

  /** The items of `s` that a `for cur != ""` loop over `split` visits. */
  function Items(s: string, sep: char): seq<string>
  {
    var (cur, rest) := Split(s, sep, true);
    ItemsFrom(cur, rest, sep)
  }

  /** The longest prefix of `s` whose strings are all non-empty. */
  function TakeNonEmpty(s: seq<string>): (r: seq<string>)
    ensures |r| <= |s| && r == s[..|r|]
    ensures |r| < |s| ==> s[|r|] == ""
    ensures forall k :: 0 <= k < |r| ==> r[k] != ""
  {
    if s == [] || s[0] == "" then []
    else [s[0]] + TakeNonEmpty(s[1..])
  }

  /** The visited items are the pieces of `strings.Split` up to the first
      empty one: an empty item ends the loop. */
  lemma {:induction false} ItemsStopAtEmpty(s: string, sep: char)
    ensures Items(s, sep) == TakeNonEmpty(SplitAll(s, sep))
    decreases |s|
  {
    if sep !in s {
      ItemsWithoutSep(s, sep);
    } else {
      var rest := Split(s, sep, true).1;
      ItemsStopAtEmpty(rest, sep);
      ItemsStopStep(s, sep);
    }
  }

  /** A text without separator is one item, or none when empty. */
  lemma ItemsWithoutSep(s: string, sep: char)
    requires sep !in s
    ensures Items(s, sep) == TakeNonEmpty(SplitAll(s, sep))
  {
    assert SplitAll(s, sep) == [s];
    assert ItemsFrom(s, "", sep) == (if s == "" then [] else [s] + ItemsFrom("", "", sep));
    assert TakeNonEmpty([s]) == (if s == "" then [] else [s] + TakeNonEmpty([]));
  }

  /** The step of ItemsStopAtEmpty at the first separator. */
  lemma ItemsStopStep(s: string, sep: char)
    requires sep in s
    requires var rest := Split(s, sep, true).1;
      Items(rest, sep) == TakeNonEmpty(SplitAll(rest, sep))
    ensures Items(s, sep) == TakeNonEmpty(SplitAll(s, sep))
  {
    var (cur, rest) := Split(s, sep, true);
    var pieces := SplitAll(rest, sep);
    assert SplitAll(s, sep) == [cur] + pieces;
    if cur != "" {
      assert Items(s, sep) == [cur] + Items(rest, sep);
      assert ([cur] + pieces)[1..] == pieces;
    }
  }

  /** A list of non-empty strings is kept whole. */
  lemma {:induction false} TakeNonEmptyAll(s: seq<string>)
    requires forall k :: 0 <= k < |s| ==> s[k] != ""
    ensures TakeNonEmpty(s) == s
  {
    if s != [] {
      TakeNonEmptyAll(s[1..]);
    }
  }

  /** The loop visits exactly the items a value was joined from, when none
      is empty and none holds the separator. */
  lemma ItemsJoin(parts: seq<string>, sep: char)
    requires |parts| >= 1
    requires forall k :: 0 <= k < |parts| ==> parts[k] != "" && sep !in parts[k]
    ensures Items(Join(parts, sep), sep) == parts
  {
    ItemsStopAtEmpty(Join(parts, sep), sep);
    SplitAllJoin(parts, sep);
    TakeNonEmptyAll(parts);
  }

  /** A value of one item. */
  lemma ItemsOne(a: string, sep: char)
    requires a != "" && sep !in a
    ensures Items(a, sep) == [a]
  {
    ItemsJoin([a], sep);
  }

  /** A value of two items. */
  lemma ItemsPair(a: string, b: string, sep: char)
    requires a != "" && b != "" && sep !in a && sep !in b
    ensures Items(a + [sep] + b, sep) == [a, b]
  {
    ItemsJoin([a, b], sep);
    assert [a, b][1..] == [b];
  }

  /** A value of three items. */
  lemma ItemsTriple(a: string, b: string, c: string, sep: char)
    requires a != "" && b != "" && c != ""
    requires sep !in a && sep !in b && sep !in c
    ensures Items(a + [sep] + (b + [sep] + c), sep) == [a, b, c]
  {
    ItemsJoin([a, b, c], sep);
    assert [a, b, c][1..] == [b, c] && [b, c][1..] == [c];
    assert Join([b, c], sep) == b + [sep] + c;
  }

  /** No element occurs twice. */
  predicate NoDup<T(==)>(s: seq<T>)
  {
    forall i, j :: 0 <= i < j < |s| ==> s[i] != s[j]
  }

  /** The elements of `s` in order of first occurrence, each once. */
  function Dedup(s: seq<string>): (r: seq<string>)
    ensures NoDup(r)
    ensures forall x :: x in r <==> x in s
  {
    if s == [] then []
    else
      var d := Dedup(s[..|s| - 1]);
      assert forall x :: x in s <==> x in s[..|s| - 1] || x == s[|s| - 1];
      if s[|s| - 1] in d then d else d + [s[|s| - 1]]
  }

  /** One more element at the end is kept exactly when it is new. */
  lemma DedupSnoc(s: seq<string>, x: string)
    ensures Dedup(s + [x]) == if x in s then Dedup(s) else Dedup(s) + [x]
  {
    assert (s + [x])[..|s|] == s;
  }
}
