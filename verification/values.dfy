/** `ParseValues` and `Values.Get`: the query string as an ordered multimap
    from top-level keys to their occurrences. */
module QueryValues {
  import opened Wrappers
  import opened Types
  import opened Strings
  import opened BracketKeys

  /** The fragment separators, `&` and `;`. */
  predicate IsSep(c: char) { c == '&' || c == ';' }

  predicate SepFree(s: string)
  {
    forall k :: 0 <= k < |s| ==> !IsSep(s[k])
  }

  /** Position of the first separator of `s`, or -1 (`strings.IndexAny(s, "&;")`). */
  function FirstSep(s: string): (i: int)
    ensures -1 <= i < |s|
    ensures i >= 0 ==> IsSep(s[i])
  {
    if s == [] then -1
    else if IsSep(s[0]) then 0
    else
      var j := FirstSep(s[1..]);
      if j < 0 then -1 else j + 1
  }

  /** The first separator of `a + t` is the first of `a`, or else the first
      of `t` shifted past `a`. */
  lemma {:induction false} FirstSepConcat(a: string, t: string)
    ensures FirstSep(a + t) ==
      if FirstSep(a) >= 0 then FirstSep(a)
      else if FirstSep(t) < 0 then -1 else |a| + FirstSep(t)
  {
    if a == [] {
      assert a + t == t;
    } else {
      assert (a + t)[1..] == a[1..] + t;
      assert (a + t)[0] == a[0];
      FirstSepConcat(a[1..], t);
    }
  }

  /** Nothing before the first separator is one. */
  lemma {:induction false} FirstSepIsFirst(s: string)
    ensures FirstSep(s) >= 0 ==> SepFree(s[..FirstSep(s)])
    ensures FirstSep(s) < 0 <==> SepFree(s)
  {
    if s != [] && !IsSep(s[0]) {
      FirstSepIsFirst(s[1..]);
      assert forall k :: 1 <= k < |s| ==> s[k] == s[1..][k - 1];
      var j := FirstSep(s[1..]);
      if j >= 0 {
        assert s[..j + 1] == [s[0]] + s[1..][..j];
      }
    }
  }

  /** The key-value settings of a query, in order: the pieces between
      separators, with the empty ones dropped. */
  function Fragments(q: string): (frs: seq<string>)
    ensures forall k :: 0 <= k < |frs| ==> frs[k] != ""
    decreases |q|
  {
    if q == "" then []
    else
      var i := FirstSep(q);
      if i < 0 then [q]
      else (if i == 0 then [] else [q[..i]]) + Fragments(q[i + 1..])
  }

  /** One setting: the text up to the first `=` is the key, which
      extractKeys splits, the rest is the value; no `=` means an empty value. */
  function ValueOf(fragment: string): Value
  {
    var i := IndexOf(fragment, '=');
    var (key, value) := if i < 0 then (fragment, "") else (fragment[..i], fragment[i + 1..]);
    var (top, nested) := KeysOf(key);
    Value(top, nested, value)
  }

  function FragmentValues(frs: seq<string>): (vs: seq<Value>)
    ensures |vs| == |frs|
  {
    if frs == [] then [] else [ValueOf(frs[0])] + FragmentValues(frs[1..])
  }

  /** One occurrence appended to the list of its top-level key. */
  function Add(values: Values, v: Value): Values
  {
    values[v.topLevelKey := Lookup(values, v.topLevelKey) + [v]]
  }

  /** Occurrences appended one by one, in order. */
  function AddAll(values: Values, vs: seq<Value>): Values
    decreases |vs|
  {
    if vs == [] then values else AddAll(Add(values, vs[0]), vs[1..])
  }

  /** The multimap of an undecoded-free query body (no leading `?`). */
  function MultimapOf(q: string): Values
  {
    AddAll(map[], FragmentValues(Fragments(q)))
  }

  /** A single leading `?` is dropped. */
  function StripQuestion(q: string): string
  {
    if q != "" && q[0] == '?' then q[1..] else q
  }

  /** The reference definition of `ParseValues`: decode the whole query
      first, then drop a leading `?`, then read the settings. */
  function ValuesOf(query: string, unescape: Decoder): Result<Values, ParseError>
  {
    match unescape(query)
    case None => Failure(DecodeFailure)
    case Some(decoded) => Success(MultimapOf(StripQuestion(decoded)))
  }

  /** One pass of the loop of the source: the next fragment of `q` and what
      is left of `q` after it. */
  lemma NextFragment(q: string)
    requires q != ""
    ensures var i := FirstSep(q);
      var (key, rest) := if i >= 0 then (q[..i], q[i + 1..]) else (q, "");
      Fragments(q) == (if key == "" then [] else [key]) + Fragments(rest)
  {
    var i := FirstSep(q);
    if i < 0 {
      assert [q] + Fragments("") == [q];
    }
  }

  /** The value of a fragment as the loop computes it. */
  lemma ValueOfFragment(fragment: string, key: string, value: string)
    requires var i := IndexOf(fragment, '=');
      (key, value) == if i >= 0 then (fragment[..i], fragment[i + 1..]) else (fragment, "")
    ensures ValueOf(fragment) == Value(KeysOf(key).0, KeysOf(key).1, value)
  {
  }

  /** What one pass of the loop does to the occurrences still to add. */
  lemma ParseStep(values: Values, q: string, key: string, rest: string)
    requires q != ""
    requires var i := FirstSep(q);
      (key, rest) == if i >= 0 then (q[..i], q[i + 1..]) else (q, "")
    ensures key == "" ==> AddAll(values, FragmentValues(Fragments(q))) == AddAll(values, FragmentValues(Fragments(rest)))
    ensures key != "" ==> AddAll(values, FragmentValues(Fragments(q))) == AddAll(Add(values, ValueOf(key)), FragmentValues(Fragments(rest)))
  {
    NextFragment(q);
    if key == "" {
      assert [] + Fragments(rest) == Fragments(rest);
    } else {
      assert ([key] + Fragments(rest))[1..] == Fragments(rest);
    }
  }

  /** The map updates of the loop append the occurrence to the list of its
      key, whether that list is made just before or exists already. */
  lemma AppendUnder(values: Values, kv: Value)
    ensures var k := kv.topLevelKey;
      var m := if k in values then values else values[k := []];
      m[k := m[k] + [kv]] == Add(values, kv)
  {
    var k := kv.topLevelKey;
    if k !in values {
      var x, y := values[k := []][k := [] + [kv]], Add(values, kv);
      assert x.Keys == y.Keys;
      assert forall key | key in x :: x[key] == y[key];
    }
  }

  /** The body of the loop for a non-empty fragment: split at the first
      `=`, then split the key into its top key and nested keys. */
  method ParseSetting(fragment: string) returns (kv: Value)
    ensures kv == ValueOf(fragment)
  {
    var key := fragment;
    var value := "";
    var j := IndexOf(key, '=');
    if j >= 0 {
      key, value := key[..j], key[j + 1..];
    }
    ValueOfFragment(fragment, key, value);
    var top, nested := ExtractKeys(key);
    kv := Value(top, nested, value);
  }

  /** The loop of the source: decode, drop a leading `?`, then cut off one
      fragment at a time, skip it when empty, split it at the first `=` and
      append the occurrence under its top-level key. */
  method ParseValues(query: string, unescape: Decoder) returns (r: Result<Values, ParseError>)
    ensures r == ValuesOf(query, unescape)
  {
    var decoded := unescape(query);
    if decoded.None? {
      return Failure(DecodeFailure);
    }
    var q := decoded.value;
    var values: Values := map[];
    if q != "" && q[0] == '?' {
      q := q[1..];
    }
    ghost var all := FragmentValues(Fragments(q));
    while q != ""
      invariant AddAll(values, FragmentValues(Fragments(q))) == AddAll(map[], all)
      decreases |q|
    {
      ghost var q0 := q;
      var key := q;
      var i := FirstSep(key);
      if i >= 0 {
        key, q := key[..i], key[i + 1..];
      } else {
        q := "";
      }
      ParseStep(values, q0, key, q);
      if key == "" {
        continue;
      }
      var kv := ParseSetting(key);
      var top := kv.topLevelKey;
      AppendUnder(values, kv);
      if top !in values {
        values := values[top := []];
      }
      values := values[top := values[top] + [kv]];
    }
    return Success(values);
  }

  /** The occurrences of `vs` whose top-level key is `k`, in order. */
  function WithKey(vs: seq<Value>, k: string): (r: seq<Value>)
    ensures |r| <= |vs|
    ensures forall i :: 0 <= i < |r| ==> r[i].topLevelKey == k && r[i] in vs
  {
    if vs == [] then []
    else (if vs[0].topLevelKey == k then [vs[0]] else []) + WithKey(vs[1..], k)
  }

  lemma {:induction false} WithKeyConcat(a: seq<Value>, b: seq<Value>, k: string)
    ensures WithKey(a + b, k) == WithKey(a, k) + WithKey(b, k)
  {
    if a == [] {
      assert a + b == b;
    } else {
      var ab := a + b;
      assert ab[0] == a[0] && ab[1..] == a[1..] + b;
      WithKeyConcat(a[1..], b, k);
      var h := if a[0].topLevelKey == k then [a[0]] else [];
      assert WithKey(ab, k) == h + WithKey(a[1..] + b, k);
      assert WithKey(a, k) == h + WithKey(a[1..], k);
      ConcatAssoc(h, WithKey(a[1..], k), WithKey(b, k));
    }
  }

  /** Appending occurrences extends each key's list by exactly the new
      occurrences with that key, in order; a key is present iff it was or
      one of them carries it. */
  lemma {:induction false} AddAllLookup(values: Values, vs: seq<Value>, k: string)
    ensures Lookup(AddAll(values, vs), k) == Lookup(values, k) + WithKey(vs, k)
    ensures k in AddAll(values, vs) <==> k in values || WithKey(vs, k) != []
    decreases |vs|
  {
    if vs == [] {
      assert Lookup(values, k) + [] == Lookup(values, k);
    } else {
      var v := vs[0];
      var later := WithKey(vs[1..], k);
      AddAllLookup(Add(values, v), vs[1..], k);
      assert AddAll(values, vs) == AddAll(Add(values, v), vs[1..]);
      if v.topLevelKey == k {
        assert Lookup(Add(values, v), k) == Lookup(values, k) + [v];
        assert WithKey(vs, k) == [v] + later;
        ConcatAssoc(Lookup(values, k), [v], later);
      } else {
        assert Lookup(Add(values, v), k) == Lookup(values, k);
        assert WithKey(vs, k) == [] + later == later;
      }
    }
  }

  /** ParseValues as a multimap: the occurrences stored under `k` are the
      settings whose top-level key is `k`, in query order, so each of them
      carries `k`; `k` is stored iff some setting has it. */
  lemma MultimapLookup(q: string, k: string)
    ensures Lookup(MultimapOf(q), k) == WithKey(FragmentValues(Fragments(q)), k)
    ensures k in MultimapOf(q) <==> WithKey(FragmentValues(Fragments(q)), k) != []
    ensures forall i :: 0 <= i < |Lookup(MultimapOf(q), k)| ==> Lookup(MultimapOf(q), k)[i].topLevelKey == k
  {
    AddAllLookup(map[], FragmentValues(Fragments(q)), k);
    assert [] + WithKey(FragmentValues(Fragments(q)), k) == WithKey(FragmentValues(Fragments(q)), k);
  }

  /** A separator between two parts splits the settings between them; an
      empty part adds no setting. */
  lemma FragmentsConcat(a: string, c: char, b: string)
    requires IsSep(c)
    ensures Fragments(a + [c] + b) == Fragments(a) + Fragments(b)
  {
    assert a + [c] + b == a + ([c] + b);
    assert ([c] + b)[1..] == b;
    FragmentsBeforeSep(a, [c] + b);
  }

  /** The induction behind FragmentsConcat, with `t` a text that starts
      with a separator. */
  lemma {:induction false} FragmentsBeforeSep(a: string, t: string)
    requires t != [] && IsSep(t[0])
    ensures Fragments(a + t) == Fragments(a) + Fragments(t[1..])
    decreases |a|
  {
    var i := FirstSep(a);
    if i < 0 {
      FragmentsNoSep(a, t);
    } else {
      FragmentsBeforeSep(a[i + 1..], t);
      FragmentsBeforeSepStep(a, t, i);
    }
  }

  /** The inductive step of FragmentsBeforeSep at the first separator `i`
      of `a`. */
  lemma FragmentsBeforeSepStep(a: string, t: string, i: nat)
    requires i < |a| && FirstSep(a) == i && t != [] && IsSep(t[0])
    requires Fragments(a[i + 1..] + t) == Fragments(a[i + 1..]) + Fragments(t[1..])
    ensures Fragments(a + t) == Fragments(a) + Fragments(t[1..])
  {
    var head: seq<string> := if i == 0 then [] else [a[..i]];
    var x := Fragments(a[i + 1..]);
    var y := Fragments(t[1..]);
    FragmentsConcatStep(a, t, i);
    ConcatAssoc(head, x, y);
  }

  /** The step of FragmentsConcat: a separator of `a` at `i` cuts the
      same first fragment off `a + t` as off `a`. */
  lemma FragmentsConcatStep(a: string, t: string, i: nat)
    requires i < |a| && FirstSep(a) == i
    ensures Fragments(a + t) == (if i == 0 then [] else [a[..i]]) + Fragments(a[i + 1..] + t)
    ensures Fragments(a) == (if i == 0 then [] else [a[..i]]) + Fragments(a[i + 1..])
  {
    FirstSepConcat(a, t);
    SliceOfConcat(a, t, i + 1);
    SliceOfConcat(a, t, i);
    FragmentsCut(a, i);
    FragmentsCut(a + t, i);
  }

  /** Fragments at a known first separator. */
  lemma FragmentsCut(s: string, i: nat)
    requires i < |s| && FirstSep(s) == i
    ensures Fragments(s) == (if i == 0 then [] else [s[..i]]) + Fragments(s[i + 1..])
  {
    var head: seq<string> := if i == 0 then [] else [s[..i]];
    var tail := Fragments(s[i + 1..]);
    assert s != "" && !(FirstSep(s) < 0);
    assert Fragments(s) == head + tail;
  }

  /** The separator after a part without one ends that part's fragment. */
  lemma FragmentsNoSep(a: string, t: string)
    requires t != [] && IsSep(t[0]) && FirstSep(a) < 0
    ensures Fragments(a + t) == Fragments(a) + Fragments(t[1..])
  {
    FirstSepConcat(a, t);
    assert FirstSep(t) == 0;
    SliceOfConcat(a, t, |a|);
    assert (a + t)[|a| + 1..] == t[1..];
    FragmentsCut(a + t, |a|);
    if a == "" {
      assert Fragments(a) == [];
    } else {
      assert Fragments(a) == [a];
    }
  }

  lemma {:induction false} FragmentValuesConcat(a: seq<string>, b: seq<string>)
    ensures FragmentValues(a + b) == FragmentValues(a) + FragmentValues(b)
  {
    if a == [] {
      assert a + b == b;
    } else {
      assert (a + b)[1..] == a[1..] + b;
      FragmentValuesConcat(a[1..], b);
    }
  }

  /** The settings of `a` come before those of `b` under every key. */
  lemma MultimapConcat(a: string, c: char, b: string, k: string)
    requires IsSep(c)
    ensures Lookup(MultimapOf(a + [c] + b), k) == Lookup(MultimapOf(a), k) + Lookup(MultimapOf(b), k)
  {
    FragmentsConcat(a, c, b);
    FragmentValuesConcat(Fragments(a), Fragments(b));
    WithKeyConcat(FragmentValues(Fragments(a)), FragmentValues(Fragments(b)), k);
    MultimapLookup(a + [c] + b, k);
    MultimapLookup(a, k);
    MultimapLookup(b, k);
  }

  /** Empty fragments, between two separators, add nothing. */
  lemma EmptyFragment(a: string, c: char, d: char, b: string)
    requires IsSep(c) && IsSep(d)
    ensures MultimapOf(a + [c, d] + b) == MultimapOf(a + [c] + b)
  {
    assert a + [c] + ([d] + b) == a + [c, d] + b;
    FragmentsConcat(a, c, [d] + b);
    FragmentsConcat(a, c, b);
    assert Fragments([d] + b) == Fragments(b) by {
      FragmentsCut([d] + b, 0);
      assert ([d] + b)[1..] == b;
    }
  }

  /** Only the first `=` splits: the key is the text before it, the value
      everything after it, `=` included. */
  lemma ValueOfSplit(key: string, value: string)
    requires '=' !in key
    ensures ValueOf(key + ['='] + value) == Value(KeysOf(key).0, KeysOf(key).1, value)
  {
    var f := key + ['='] + value;
    IndexOfAfter(key, '=', value);
    assert f[..|key|] == key && f[|key| + 1..] == value;
  }

  /** A setting without `=` is a key with the empty value. */
  lemma ValueOfNoEquals(fragment: string)
    requires '=' !in fragment
    ensures ValueOf(fragment) == Value(KeysOf(fragment).0, KeysOf(fragment).1, "")
  {
  }

  /** Whether an occurrence carries exactly the nested keys asked for; a
      missing list matches only the empty request. */
  predicate Matches(v: Value, nestedKeys: seq<string>)
  {
    NestedList(v) == nestedKeys
  }

  /** The value of the first matching occurrence of the list, or "". */
  function FirstMatch(list: seq<Value>, nestedKeys: seq<string>): (r: string)
    ensures (forall i :: 0 <= i < |list| ==> !Matches(list[i], nestedKeys)) ==> r == ""
    ensures forall i :: (0 <= i < |list| && Matches(list[i], nestedKeys) &&
      (forall j :: 0 <= j < i ==> !Matches(list[j], nestedKeys))) ==> r == list[i].value
  {
    if list == [] then ""
    else if Matches(list[0], nestedKeys) then list[0].value
    else FirstMatch(list[1..], nestedKeys)
  }

  /** The reference definition of `Values.Get`: the value of the first
      occurrence of `topKey` whose nested keys are exactly `nestedKeys`, or
      "" if there is none. */
  function GetOf(values: Values, topKey: string, nestedKeys: seq<string>): (r: string)
    ensures (forall i :: 0 <= i < |Lookup(values, topKey)| ==> !Matches(Lookup(values, topKey)[i], nestedKeys)) ==> r == ""
    ensures forall i :: (0 <= i < |Lookup(values, topKey)| && Matches(Lookup(values, topKey)[i], nestedKeys) &&
      (forall j :: 0 <= j < i ==> !Matches(Lookup(values, topKey)[j], nestedKeys))) ==> r == Lookup(values, topKey)[i].value
  {
    FirstMatch(Lookup(values, topKey), nestedKeys)
  }

  /** `Values.Get`: the loop of the source over the occurrences of the top
      key, skipping those with another number of nested keys and comparing
      the rest key by key. */
  method Get(values: Values, topKey: string, nestedKeys: seq<string>) returns (r: string)
    ensures r == GetOf(values, topKey, nestedKeys)
  {
    if topKey !in values {
      return "";
    }
    var list := values[topKey];
    if |list| == 0 {
      return "";
    }
    var n := 0;
    while n < |list|
      invariant 0 <= n <= |list|
      invariant FirstMatch(list[n..], nestedKeys) == FirstMatch(list, nestedKeys)
    {
      var item := list[n];
      assert list[n..][1..] == list[n + 1..];
      if NestedCount(item) != |nestedKeys| {
        n := n + 1;
        continue;
      }
      if NestedCount(item) == 0 && |nestedKeys| == 0 {
        return item.value;
      }
      var same := SameKeys(item, nestedKeys);
      if same {
        return item.value;
      }
      n := n + 1;
    }
    return "";
  }

  /** The inner loop of `Values.Get`: compare the nested keys one by one,
      stopping at the first difference. */
  method SameKeys(item: Value, nestedKeys: seq<string>) returns (same: bool)
    requires NestedCount(item) == |nestedKeys|
    ensures same <==> Matches(item, nestedKeys)
  {
    var keys := NestedList(item);
    same := true;
    var i := 0;
    while i < |nestedKeys|
      invariant 0 <= i <= |nestedKeys|
      invariant same && keys[..i] == nestedKeys[..i]
    {
      if keys[i] != nestedKeys[i] {
        same := false;
        break;
      }
      i := i + 1;
    }
    assert same ==> keys[..i] == keys && nestedKeys[..i] == nestedKeys;
  }

  /** The first match of two lists in a row is the first list's when it
      has one, the second's otherwise. */
  lemma {:induction false} FirstMatchConcat(a: seq<Value>, b: seq<Value>, nestedKeys: seq<string>)
    ensures FirstMatch(a + b, nestedKeys) ==
      if exists i :: 0 <= i < |a| && Matches(a[i], nestedKeys) then FirstMatch(a, nestedKeys)
      else FirstMatch(b, nestedKeys)
  {
    if a == [] {
      assert a + b == b;
    } else {
      assert (a + b)[0] == a[0];
      assert (a + b)[1..] == a[1..] + b;
      FirstMatchConcat(a[1..], b, nestedKeys);
      if !Matches(a[0], nestedKeys) {
        assert forall i :: 1 <= i < |a| ==> a[i] == a[1..][i - 1];
        if exists i :: 0 <= i < |a| && Matches(a[i], nestedKeys) {
          var i :| 0 <= i < |a| && Matches(a[i], nestedKeys);
          assert Matches(a[1..][i - 1], nestedKeys);
        }
      }
    }
  }

  /** Get on a query made of two parts reads the first part first. */
  lemma GetConcat(a: string, c: char, b: string, topKey: string, nestedKeys: seq<string>)
    requires IsSep(c)
    ensures var x := Lookup(MultimapOf(a), topKey);
      GetOf(MultimapOf(a + [c] + b), topKey, nestedKeys) ==
        if exists i :: 0 <= i < |x| && Matches(x[i], nestedKeys) then GetOf(MultimapOf(a), topKey, nestedKeys)
        else GetOf(MultimapOf(b), topKey, nestedKeys)
  {
    MultimapConcat(a, c, b, topKey);
    FirstMatchConcat(Lookup(MultimapOf(a), topKey), Lookup(MultimapOf(b), topKey), nestedKeys);
  }
}
