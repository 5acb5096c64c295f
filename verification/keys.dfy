/** `extractKeys`: split a query key `top[n1][n2]...` into its top key and
    its nested keys, falling back to the whole key on bad syntax. */
module BracketKeys {
  import opened Wrappers

  const Open: char := '['
  const Close: char := ']'
  /** The shortest nested-key group, "[k]". */
  const NestedKeyDefMin: nat := 3

  predicate IsBracket(c: char) { c == Open || c == Close }

  predicate BracketFree(s: string)
  {
    forall k :: 0 <= k < |s| ==> !IsBracket(s[k])
  }

  /** A nested key as the grammar allows it: non-empty, without brackets. */
  predicate GoodKey(k: string) { k != "" && BracketFree(k) }

  predicate GoodKeys(ks: seq<string>)
  {
    forall i :: 0 <= i < |ks| ==> GoodKey(ks[i])
  }

  /** Position of the first bracket of `s`, or -1. */
  function FirstBracket(s: string): (i: int)
    ensures -1 <= i < |s|
    ensures i >= 0 ==> IsBracket(s[i])
  {
    if s == [] then -1
    else if IsBracket(s[0]) then 0
    else
      var j := FirstBracket(s[1..]);
      if j < 0 then -1 else j + 1
  }

  /** Nothing before the first bracket is a bracket. */
  lemma {:induction false} FirstBracketIsFirst(s: string)
    ensures FirstBracket(s) >= 0 ==> BracketFree(s[..FirstBracket(s)])
    ensures FirstBracket(s) < 0 <==> BracketFree(s)
  {
    if s != [] && !IsBracket(s[0]) {
      FirstBracketIsFirst(s[1..]);
      assert forall k :: 1 <= k < |s| ==> s[k] == s[1..][k - 1];
      var j := FirstBracket(s[1..]);
      if j >= 0 {
        assert s[..j + 1] == [s[0]] + s[1..][..j];
      }
    }
  }

  /** `[k1][k2]...[kn]` */
  function Bracketed(ks: seq<string>): string
  {
    if ks == [] then "" else [Open] + ks[0] + [Close] + Bracketed(ks[1..])
  }

  /** The nested keys of the part of a key that starts at its first `[`: a
      sequence of groups `[k]`, each key non-empty and bracket-free, with no
      character between a `]` and the next `[`. A last group left unclosed
      is dropped. None means the syntax is violated. */
  function Groups(s: string): Option<seq<string>>
    decreases |s|
  {
    if s == [] then Some([])
    else if s[0] != Open then None
    else
      var j := FirstBracket(s[1..]);
      if j < 0 then Some([])
      else if s[1 + j] == Open || j == 0 then None
      else Prepend([s[1..1 + j]], Groups(s[j + 2..]))
  }

  /** Keys read before the keys of a successful parse; a failure stays one. */
  function Prepend(ks: seq<string>, o: Option<seq<string>>): Option<seq<string>>
  {
    if o.None? then None else Some(ks + o.value)
  }

  /** The reference definition of `extractKeys`: the top key runs up to the
      first bracket, which must be a `[` that is not the first character and
      leaves at least three characters; the rest must be groups. Otherwise
      the key itself comes back with no nested keys. */
  function KeysOf(key: string): (string, Option<seq<string>>)
  {
    var i := FirstBracket(key);
    if i <= 0 || key[i] == Close || |key| - i < NestedKeyDefMin then (key, None)
    else match Groups(key[i..])
      case None => (key, None)
      case Some(ks) => (key[..i], Some(ks))
  }

  /** The first bracket of `a + b` is found in `b` when `a` has none. */
  lemma {:induction false} FirstBracketAfter(a: string, b: string)
    requires BracketFree(a)
    ensures FirstBracket(a + b) == if FirstBracket(b) < 0 then -1 else |a| + FirstBracket(b)
  {
    if a == [] {
      assert a + b == b;
    } else {
      assert (a + b)[1..] == a[1..] + b;
      assert (a + b)[0] == a[0];
      FirstBracketAfter(a[1..], b);
    }
  }

  /** Unclosed tails: "" and "[" followed by bracket-free text. */
  predicate UnclosedTail(t: string)
  {
    t == "" || (t[0] == Open && BracketFree(t[1..]))
  }

  /** Groups in front of any text are read off and the text is read on. */
  lemma {:induction false} GroupsAppend(ks: seq<string>, t: string)
    requires GoodKeys(ks)
    ensures Groups(Bracketed(ks) + t) == Prepend(ks, Groups(t))
  {
    if ks == [] {
      assert Bracketed(ks) + t == t;
      PrependTwice([], [], Groups(t));
    } else {
      var rest := ks[1..];
      assert GoodKeys(rest) by {
        forall i | 0 <= i < |rest| ensures GoodKey(rest[i]) { assert rest[i] == ks[i + 1]; }
      }
      GroupsAppend(rest, t);
      GroupsAppendStep(ks[0], rest, t);
      assert ks == [ks[0]] + rest;
    }
  }

  /** The step of GroupsAppend: one more group in front. */
  lemma GroupsAppendStep(k: string, rest: seq<string>, t: string)
    requires GoodKey(k)
    requires Groups(Bracketed(rest) + t) == Prepend(rest, Groups(t))
    ensures Groups(Bracketed([k] + rest) + t) == Prepend([k] + rest, Groups(t))
  {
    var tail := Bracketed(rest) + t;
    assert ([k] + rest)[1..] == rest;
    assert Bracketed([k] + rest) + t == [Open] + k + [Close] + tail;
    GroupOne(k, tail);
    PrependTwice([k], rest, Groups(t));
  }

  lemma PrependTwice(a: seq<string>, b: seq<string>, o: Option<seq<string>>)
    ensures Prepend(a, Prepend(b, o)) == Prepend(a + b, o)
    ensures Prepend([], o) == o
  {
    if o.Some? {
      assert a + (b + o.value) == (a + b) + o.value;
      assert [] + o.value == o.value;
    }
  }

  /** One group `[k]` in front of a text. */
  lemma GroupOne(k: string, tail: string)
    requires GoodKey(k)
    ensures Groups([Open] + k + [Close] + tail) == Prepend([k], Groups(tail))
  {
    var s := [Open] + k + [Close] + tail;
    assert s[1..] == k + ([Close] + tail);
    FirstBracketAfter(k, [Close] + tail);
    assert s[1..1 + |k|] == k;
    assert s[|k| + 2..] == tail;
  }

  /** A character other than `[` where a group should start. */
  lemma GroupsBadStart(c: char, more: string)
    requires c != Open
    ensures Groups([c] + more) == None
  {
  }

  /** A second `[` inside an open group. */
  lemma GroupsOpenTwice(w: string, more: string)
    requires BracketFree(w)
    ensures Groups([Open] + w + [Open] + more) == None
  {
    var s := [Open] + w + [Open] + more;
    assert s[1..] == w + ([Open] + more);
    FirstBracketAfter(w, [Open] + more);
  }

  /** An empty group `[]`. */
  lemma GroupsEmptyKey(more: string)
    ensures Groups([Open, Close] + more) == None
  {
    var s := [Open, Close] + more;
    assert s[1..] == [Close] + more;
  }

  /** A group left open at the end. */
  lemma GroupsUnclosed(w: string)
    requires BracketFree(w)
    ensures Groups([Open] + w) == Some([])
  {
    assert ([Open] + w)[1..] == w;
  }

  /** `s` is the groups of `ks` followed by at most one unclosed group. */
  predicate ShapedBy(s: string, ks: seq<string>)
  {
    var b := Bracketed(ks);
    GoodKeys(ks) && |b| <= |s| && s[..|b|] == b && UnclosedTail(s[|b|..])
  }

  /** The keys read by Groups are good keys, and the text is exactly their
      groups followed by at most one unclosed group. */
  lemma {:induction false} GroupsShape(s: string)
    requires Groups(s).Some?
    ensures ShapedBy(s, Groups(s).value)
    decreases |s|
  {
    if s != [] {
      var j := FirstBracket(s[1..]);
      FirstBracketIsFirst(s[1..]);
      if j >= 0 {
        var k := s[1..1 + j];
        var rest := s[j + 2..];
        assert k == s[1..][..j];
        assert s == [Open] + k + [Close] + rest;
        GroupOne(k, rest);
        GroupsShape(rest);
        ShapedByStep(k, rest, Groups(rest).value);
      } else {
        assert s[|Bracketed([])|..] == s;
      }
    }
  }

  /** The step of GroupsShape: one more group in front. */
  lemma ShapedByStep(k: string, rest: string, ks: seq<string>)
    requires GoodKey(k) && ShapedBy(rest, ks)
    ensures ShapedBy([Open] + k + [Close] + rest, [k] + ks)
  {
    var s := [Open] + k + [Close] + rest;
    var b := Bracketed([k] + ks);
    assert ([k] + ks)[1..] == ks;
    assert b == [Open] + k + [Close] + Bracketed(ks);
    assert s[..|b|] == [Open] + k + [Close] + rest[..|Bracketed(ks)|];
    assert s[|b|..] == rest[|Bracketed(ks)|..];
  }

  /** extractKeys, shape of the result: with no nested-key list the top key
      is the whole input; otherwise the top key is the non-empty bracket-free
      text before the first `[`, every nested key is non-empty and
      bracket-free, and the input is the top key, the groups and at most one
      unclosed group; for an input ending in `]`, exactly top + groups. */
  lemma KeysShape(key: string)
    ensures KeysOf(key).1.None? ==> KeysOf(key).0 == key
    ensures KeysOf(key).1.Some? ==>
      var (top, ks) := (KeysOf(key).0, KeysOf(key).1.value);
      && top != "" && BracketFree(top) && key[|top|] == Open
      && key[..|top|] == top && ShapedBy(key[|top|..], ks)
      && (key[|key| - 1] == Close ==> key == top + Bracketed(ks))
  {
    var i := FirstBracket(key);
    if KeysOf(key).1.Some? {
      FirstBracketIsFirst(key);
      KeysShapeAt(key, i, Groups(key[i..]).value);
    }
  }

  /** KeysShape once the first bracket, at `i`, is known to open groups. */
  lemma KeysShapeAt(key: string, i: nat, ks: seq<string>)
    requires 0 < i < |key| && key[i] == Open && BracketFree(key[..i]) && Groups(key[i..]) == Some(ks)
    ensures var top := key[..i];
      && top != "" && BracketFree(top) && key[|top|] == Open
      && key[..|top|] == top && ShapedBy(key[|top|..], ks)
      && (key[|key| - 1] == Close ==> key == top + Bracketed(ks))
  {
    var top, rest := key[..i], key[i..];
    assert key == top + rest;
    GroupsShape(rest);
    KeysShapeEnd(top, rest, ks);
  }

  /** With a closing `]` at the end there is no unclosed group. */
  lemma KeysShapeEnd(top: string, rest: string, ks: seq<string>)
    requires ShapedBy(rest, ks) && rest != ""
    ensures rest[|rest| - 1] == Close ==> top + rest == top + Bracketed(ks)
  {
    var b := Bracketed(ks);
    var t := rest[|b|..];
    UnclosedTailLast(t);
    assert rest == rest[..|b|] + t;
  }

  /** An unclosed tail never ends in `]`. */
  lemma UnclosedTailLast(t: string)
    ensures UnclosedTail(t) && t != "" ==> t[|t| - 1] != Close
  {
    if UnclosedTail(t) && |t| > 1 {
      assert t[1..][|t| - 2] == t[|t| - 1];
    }
  }

  /** extractKeys inverts writing a key with its groups. */
  lemma KeysRoundTrip(top: string, ks: seq<string>)
    requires GoodKey(top) && ks != [] && GoodKeys(ks)
    ensures KeysOf(top + Bracketed(ks)) == (top, Some(ks))
  {
    var key := top + Bracketed(ks);
    var b := Bracketed(ks);
    assert b == [Open] + ks[0] + [Close] + Bracketed(ks[1..]);
    FirstBracketAfter(top, b);
    assert key[|top|..] == b + "";
    GroupsAppend(ks, "");
    assert ks + [] == ks;
    assert key[..|top|] == top;
  }

  /** The top-key scan stops at position `i`: the first bracket. */
  lemma TopKeyEnds(key: string, i: nat)
    requires i < |key| && BracketFree(key[..i]) && IsBracket(key[i])
    ensures FirstBracket(key) == i
  {
    FirstBracketAfter(key[..i], key[i..]);
    assert key == key[..i] + key[i..];
  }

  /** The top-key scan meets no bracket at all. */
  lemma NoBracketKey(key: string)
    requires BracketFree(key)
    ensures KeysOf(key) == (key, None)
  {
    FirstBracketIsFirst(key);
  }

  /** The state of the nested-key scan after `j` characters of `rest`: the
      groups read so far and, inside a group, the key read so far. */
  ghost predicate ScanState(rest: string, j: nat, keys: seq<string>, isOpen: bool, key: string)
  {
    && j <= |rest|
    && GoodKeys(keys) && BracketFree(key)
    && (!isOpen ==> key == "")
    && rest[..j] == Bracketed(keys) + (if isOpen then [Open] + key else "")
  }

  /** What the scan has read decides Groups up to what is still to come. */
  lemma ScanStateGroups(rest: string, j: nat, keys: seq<string>, isOpen: bool, key: string)
    requires ScanState(rest, j, keys, isOpen, key)
    ensures Groups(rest) == Prepend(keys, Groups((if isOpen then [Open] + key else "") + rest[j..]))
  {
    var t := (if isOpen then [Open] + key else "") + rest[j..];
    assert rest == rest[..j] + rest[j..];
    assert rest == Bracketed(keys) + t;
    GroupsAppend(keys, t);
  }

  /** The scan rejects a `[` inside a group, a character other than `[`
      outside one, and a `]` that closes an empty group. */
  lemma ScanRejects(rest: string, j: nat, keys: seq<string>, isOpen: bool, key: string)
    requires ScanState(rest, j, keys, isOpen, key) && j < |rest|
    requires (isOpen && rest[j] == Open) || (!isOpen && rest[j] != Open)
          || (isOpen && rest[j] == Close && key == "")
    ensures Groups(rest) == None
  {
    var pre := if isOpen then [Open] + key else "";
    var c := rest[j];
    var more := rest[j + 1..];
    ScanStateGroups(rest, j, keys, isOpen, key);
    assert rest[j..] == [c] + more;
    assert pre + rest[j..] == pre + [c] + more;
    RejectedTail(isOpen, key, c, more);
  }

  /** The three ways the text still to come can be rejected. */
  lemma RejectedTail(isOpen: bool, key: string, c: char, more: string)
    requires BracketFree(key)
    requires (isOpen && c == Open) || (!isOpen && c != Open) || (isOpen && c == Close && key == "")
    ensures Groups((if isOpen then [Open] + key else "") + [c] + more) == None
  {
    if !isOpen {
      assert "" + [c] + more == [c] + more;
      GroupsBadStart(c, more);
    } else if c == Open {
      GroupsOpenTwice(key, more);
    } else {
      assert [Open] + key + [c] + more == [Open, Close] + more;
      GroupsEmptyKey(more);
    }
  }

  /** The scan reads one more character. */
  lemma ScanStep(rest: string, j: nat, keys: seq<string>, isOpen: bool, key: string)
    requires ScanState(rest, j, keys, isOpen, key) && j < |rest|
    requires !((isOpen && rest[j] == Open) || (!isOpen && rest[j] != Open))
    ensures rest[j] == Open ==> ScanState(rest, j + 1, keys, true, key)
    ensures rest[j] == Close && key != "" ==> ScanState(rest, j + 1, keys + [key], false, "")
    ensures !IsBracket(rest[j]) ==> ScanState(rest, j + 1, keys, isOpen, key + [rest[j]])
  {
    var c := rest[j];
    assert rest[..j + 1] == rest[..j] + [c];
    if c == Close && key != "" {
      BracketedSnoc(keys, key);
      assert GoodKeys(keys + [key]) by {
        forall i | 0 <= i < |keys + [key]| ensures GoodKey((keys + [key])[i]) {
          if i < |keys| { assert (keys + [key])[i] == keys[i]; }
        }
      }
    } else if !IsBracket(c) {
      assert BracketFree(key + [c]) by {
        forall i | 0 <= i < |key + [c]| ensures !IsBracket((key + [c])[i]) {
          if i < |key| { assert (key + [c])[i] == key[i]; }
        }
      }
    }
  }

  /** The scan reaches the end of `rest` without a violation. */
  lemma ScanEnds(rest: string, keys: seq<string>, isOpen: bool, key: string)
    requires ScanState(rest, |rest|, keys, isOpen, key)
    ensures Groups(rest) == Some(keys)
  {
    ScanStateGroups(rest, |rest|, keys, isOpen, key);
    assert rest[|rest|..] == "";
    if isOpen {
      assert [Open] + key + "" == [Open] + key;
      GroupsUnclosed(key);
    } else {
      assert (if isOpen then [Open] + key else "") + rest[|rest|..] == "";
    }
    assert keys + [] == keys;
  }

  /** The loop of the source over the key's characters, with an `opened`
      flag and buffers for the top key, the current nested key and the list
      of nested keys. */
  method ExtractKeys(key: string) returns (top: string, nested: Option<seq<string>>)
    ensures (top, nested) == KeysOf(key)
  {
    if key == "" {
      return key, None;
    }
    var rest := "";
    var topKey := "";
    var i := 0;
    while i < |key|
      invariant 0 <= i <= |key|
      invariant topKey == key[..i] && BracketFree(topKey)
    {
      var c := key[i];
      if c == Close || (i == 0 && c == Open) {
        TopKeyEnds(key, i);
        return key, None;
      }
      if c == Open {
        rest := key[i..];
        break;
      }
      assert key[..i + 1] == topKey + [c];
      topKey := topKey + [c];
      i := i + 1;
    }
    if rest == "" {
      assert key[..i] == key;
      NoBracketKey(key);
      return key, None;
    }
    TopKeyEnds(key, i);
    if |rest| < NestedKeyDefMin {
      return key, None;
    }
    var nestedKey := "";
    var nestedKeys: seq<string> := [];
    var isOpen := false;
    var j := 0;
    while j < |rest|
      invariant ScanState(rest, j, nestedKeys, isOpen, nestedKey)
    {
      var c := rest[j];
      if (isOpen && c == Open) || (!isOpen && c != Open) {
        ScanRejects(rest, j, nestedKeys, isOpen, nestedKey);
        return key, None;
      }
      ScanStep(rest, j, nestedKeys, isOpen, nestedKey);
      if c == Open {
        isOpen := true;
        j := j + 1;
        continue;
      }
      if c == Close {
        if |nestedKey| == 0 {
          ScanRejects(rest, j, nestedKeys, isOpen, nestedKey);
          return key, None;
        }
        isOpen := false;
        nestedKeys := nestedKeys + [nestedKey];
        nestedKey := "";
        j := j + 1;
        continue;
      }
      nestedKey := nestedKey + [c];
      j := j + 1;
    }
    ScanEnds(rest, nestedKeys, isOpen, nestedKey);
    return topKey, Some(nestedKeys);
  }

  /** One more group at the end of a bracketed list. */
  lemma {:induction false} BracketedSnoc(ks: seq<string>, k: string)
    ensures Bracketed(ks + [k]) == Bracketed(ks) + [Open] + k + [Close]
  {
    if ks != [] {
      assert (ks + [k])[1..] == ks[1..] + [k];
      BracketedSnoc(ks[1..], k);
    }
  }
}
