/** `initSort` and `SortOrder.String`: the `sort` directive. */
module Sorting {
  import opened Wrappers
  import opened Types
  import opened Strings

  const SortKeyword: string := "sort"
  const SortDelimiter: char := ','
  /** A field name prefixed with this character sorts descending. */
  const SortDescChar: char := '-'

  /** `SortOrder.String`: "DESC" for descending, "ASC" otherwise. */
  function OrderName(o: SortOrder): (s: string)
    ensures s == "DESC" <==> o.Desc?
    ensures s == "ASC" <==> o.Asc?
  {
    if o.Desc? then "DESC" else "ASC"
  }

  /** The direction an item asks for. */
  function TokenOrder(tok: string): SortOrder
  {
    if tok != "" && tok[0] == SortDescChar then Desc else Asc
  }

  /** The field an item names: the item without its `-` prefix. */
  function TokenName(tok: string): (name: string)
    ensures tok == (if TokenOrder(tok) == Desc then [SortDescChar] else []) + name
  {
    if tok != "" && tok[0] == SortDescChar then tok[1..] else tok
  }

  /** The field names of a sort list, in order. */
  function FieldNames(sorts: seq<Sort>): (names: seq<string>)
    ensures |names| == |sorts|
    ensures forall k :: 0 <= k < |sorts| ==> names[k] == sorts[k].fieldName
  {
    seq(|sorts|, k requires 0 <= k < |sorts| => sorts[k].fieldName)
  }

  /** Appending an entry appends its name. */
  lemma FieldNamesSnoc(sorts: seq<Sort>, s: Sort)
    ensures FieldNames(sorts + [s]) == FieldNames(sorts) + [s.fieldName]
  {
  }

  /** One item: a field already sorted by, and the empty field name, are
      skipped; any other field is appended with the item's direction. */
  function AddToken(sorts: seq<Sort>, tok: string): seq<Sort>
  {
    var name := TokenName(tok);
    if name in FieldNames(sorts) || name == "" then sorts
    else sorts + [Sort(name, TokenOrder(tok))]
  }

  /** The sort list the items build, one after the other. */
  function SortsOf(toks: seq<string>): seq<Sort>
  {
    if toks == [] then []
    else AddToken(SortsOf(toks[..|toks| - 1]), toks[|toks| - 1])
  }

  /** The items of every `sort` occurrence that the source reads: no nested
      keys, a non-empty value; the items of a value end at its first empty
      item. */
  function SortTokens(vs: seq<Value>): seq<string>
  {
    if vs == [] then []
    else
      var last := vs[|vs| - 1];
      SortTokens(vs[..|vs| - 1]) + (if Unnested(last) then Items(last.value, SortDelimiter) else [])
  }

  /** The sort list of a query; empty when the query has no `sort` key. */
  function SortOf(values: Values): seq<Sort>
  {
    SortsOf(SortTokens(Lookup(values, SortKeyword)))
  }

  /** The set of fields already sorted by, as the source keeps it. */
  ghost predicate Tracks(duplicates: set<string>, sorts: seq<Sort>)
  {
    forall name :: name in duplicates <==> name in FieldNames(sorts)
  }

  /** `initSort`. */
  method InitSort(values: Values) returns (sort: seq<Sort>)
    ensures sort == SortOf(values)
  {
    if SortKeyword !in values {
      return [];
    }
    var sortValues := values[SortKeyword];
    sort := [];
    var duplicates: set<string> := {};
    ghost var toks: seq<string> := [];
    var i := 0;
    while i < |sortValues|
      invariant i <= |sortValues|
      invariant toks == SortTokens(sortValues[..i])
      invariant sort == SortsOf(toks)
      invariant Tracks(duplicates, sort)
    {
      var val := sortValues[i];
      assert sortValues[..i + 1][..i] == sortValues[..i];
      if val.value == "" || NestedCount(val) != 0 {
        assert toks + [] == toks;
        i := i + 1;
        continue;
      }
      sort, duplicates := AddSortItems(sort, duplicates, toks, val.value);
      toks := toks + Items(val.value, SortDelimiter);
      i := i + 1;
    }
    assert sortValues[..i] == sortValues;
  }

  /** The inner loop of `initSort` over the comma items of one value. */
  method AddSortItems(sort: seq<Sort>, duplicates: set<string>, ghost toks: seq<string>, value: string)
    returns (sort': seq<Sort>, duplicates': set<string>)
    requires sort == SortsOf(toks) && Tracks(duplicates, sort)
    ensures sort' == SortsOf(toks + Items(value, SortDelimiter))
    ensures Tracks(duplicates', sort')
  {
    sort', duplicates' := sort, duplicates;
    var parts := Split(value, SortDelimiter, true);
    var cur, rest := parts.0, parts.1;
    ghost var done: seq<string> := [];
    assert toks + done == toks;
    while cur != ""
      invariant Items(value, SortDelimiter) == done + ItemsFrom(cur, rest, SortDelimiter)
      invariant sort' == SortsOf(toks + done)
      invariant Tracks(duplicates', sort')
      decreases |cur| + |rest|
    {
      parts := Split(rest, SortDelimiter, true);
      NextSortItem(done, cur, rest);
      SortsSnoc(toks, done, cur);
      sort', duplicates' := AddSortItem(sort', duplicates', cur);
      done := done + [cur];
      cur, rest := parts.0, parts.1;
    }
    assert ItemsFrom(cur, rest, SortDelimiter) == [];
    assert done == Items(value, SortDelimiter);
  }

  /** One step of the item loop moves one item from the rest to the done
      part. */
  lemma NextSortItem(done: seq<string>, cur: string, rest: string)
    requires cur != ""
    ensures var (next, rest') := Split(rest, SortDelimiter, true);
      && |next| + |rest'| <= |rest|
      && done + ItemsFrom(cur, rest, SortDelimiter) == (done + [cur]) + ItemsFrom(next, rest', SortDelimiter)
  {
    var (next, rest') := Split(rest, SortDelimiter, true);
    SplitLength(rest, SortDelimiter, true);
    var after := ItemsFrom(next, rest', SortDelimiter);
    assert ItemsFrom(cur, rest, SortDelimiter) == [cur] + after;
    ConcatAssoc(done, [cur], after);
  }

  /** One more item, after the items already processed. */
  lemma SortsSnoc(toks: seq<string>, done: seq<string>, tok: string)
    ensures SortsOf(toks + (done + [tok])) == AddToken(SortsOf(toks + done), tok)
  {
    ConcatAssoc(toks, done, [tok]);
    var all := (toks + done) + [tok];
    assert all[..|all| - 1] == toks + done;
  }

  /** The body of the item loop: strip a leading `-`, then skip a field
      already listed or an empty one, or else list it. */
  method AddSortItem(sort: seq<Sort>, duplicates: set<string>, cur: string)
    returns (sort': seq<Sort>, duplicates': set<string>)
    requires cur != "" && Tracks(duplicates, sort)
    ensures sort' == AddToken(sort, cur)
    ensures Tracks(duplicates', sort')
  {
    ghost var tok := cur;
    var name := cur;
    var order := Asc;
    if name[0] == SortDescChar {
      order := Desc;
      name := name[1..];
    }
    assert name == TokenName(tok) && order == TokenOrder(tok);
    if name in duplicates {
      return sort, duplicates;
    }
    if name == "" {
      return sort, duplicates;
    }
    FieldNamesSnoc(sort, Sort(name, order));
    duplicates' := duplicates + {name};
    sort' := sort + [Sort(name, order)];
  }

  /** The field names of items with a non-empty one, in item order. */
  function NamedTokens(toks: seq<string>): (names: seq<string>)
    ensures forall k :: 0 <= k < |names| ==> names[k] != ""
  {
    if toks == [] then []
    else
      var name := TokenName(toks[|toks| - 1]);
      NamedTokens(toks[..|toks| - 1]) + (if name == "" then [] else [name])
  }

  /** The sort list names every non-empty field name of the items once, in
      order of first occurrence: so no field twice, no empty field, and
      every named field is there. */
  lemma {:induction false} SortNames(toks: seq<string>)
    ensures FieldNames(SortsOf(toks)) == Dedup(NamedTokens(toks))
  {
    if toks != [] {
      var init := toks[..|toks| - 1];
      var tok := toks[|toks| - 1];
      var name := TokenName(tok);
      SortNames(init);
      assert SortsOf(toks) == AddToken(SortsOf(init), tok);
      if name != "" {
        assert NamedTokens(toks) == NamedTokens(init) + [name];
        DedupSnoc(NamedTokens(init), name);
        if name !in FieldNames(SortsOf(init)) {
          FieldNamesSnoc(SortsOf(init), Sort(name, TokenOrder(tok)));
        } else {
          assert name in NamedTokens(init);
          assert SortsOf(toks) == SortsOf(init);
        }
      } else {
        assert NamedTokens(toks) == NamedTokens(init) + [] == NamedTokens(init);
        assert SortsOf(toks) == SortsOf(init);
      }
    }
  }

  /** Every sort entry has a distinct, non-empty field, and a field is
      sorted by exactly when some item names it. */
  lemma SortFields(toks: seq<string>)
    ensures NoDup(FieldNames(SortsOf(toks)))
    ensures forall k :: 0 <= k < |SortsOf(toks)| ==> SortsOf(toks)[k].fieldName != ""
    ensures forall name :: name in FieldNames(SortsOf(toks)) <==> name in NamedTokens(toks)
  {
    SortNames(toks);
    var names := FieldNames(SortsOf(toks));
    forall k | 0 <= k < |SortsOf(toks)| ensures SortsOf(toks)[k].fieldName != "" {
      assert names[k] in NamedTokens(toks);
    }
  }

  /** The index of the first item naming `name`, or -1. */
  function FirstNamed(toks: seq<string>, name: string): (j: int)
    ensures -1 <= j < |toks|
    ensures j >= 0 ==> TokenName(toks[j]) == name
    ensures forall i :: 0 <= i < |toks| && (j < 0 || i < j) ==> TokenName(toks[i]) != name
  {
    if toks == [] then -1
    else
      var init := toks[..|toks| - 1];
      var j := FirstNamed(init, name);
      assert forall i :: 0 <= i < |init| ==> init[i] == toks[i];
      if j >= 0 then j
      else if TokenName(toks[|toks| - 1]) == name then |toks| - 1
      else -1
  }

  /** A non-empty name is among the named items exactly when some item
      names it. */
  lemma {:induction false} NamedTokensFirst(toks: seq<string>, name: string)
    requires name != ""
    ensures name in NamedTokens(toks) <==> FirstNamed(toks, name) >= 0
  {
    if toks != [] {
      var init := toks[..|toks| - 1];
      NamedTokensFirst(init, name);
      if TokenName(toks[|toks| - 1]) == "" {
        assert NamedTokens(toks) == NamedTokens(init) + [] == NamedTokens(init);
      }
    }
  }

  /** The first item naming a field decides its direction; later items
      naming it again, in either direction, change nothing. */
  lemma {:induction false} SortDirection(toks: seq<string>)
    ensures forall k :: 0 <= k < |SortsOf(toks)| ==>
      var j := FirstNamed(toks, SortsOf(toks)[k].fieldName);
      j >= 0 && SortsOf(toks)[k].order == TokenOrder(toks[j])
  {
    if toks != [] {
      var init := toks[..|toks| - 1];
      var tok := toks[|toks| - 1];
      var before := SortsOf(init);
      SortDirection(init);
      forall k | 0 <= k < |SortsOf(toks)|
        ensures var j := FirstNamed(toks, SortsOf(toks)[k].fieldName);
          j >= 0 && SortsOf(toks)[k].order == TokenOrder(toks[j])
      {
        if k < |before| {
          assert SortsOf(toks)[k] == before[k];
          assert toks[..|toks| - 1] == init;
        } else {
          var name := TokenName(tok);
          assert SortsOf(toks) == before + [Sort(name, TokenOrder(tok))];
          SortFields(init);
          NamedTokensFirst(init, name);
        }
      }
    }
  }

  /** The sort list of a query keeps each field once, with the direction of
      its first mention. */
  lemma SortShape(values: Values)
    ensures NoDup(FieldNames(SortOf(values)))
    ensures forall k :: 0 <= k < |SortOf(values)| ==> SortOf(values)[k].fieldName != ""
    ensures var toks := SortTokens(Lookup(values, SortKeyword));
      forall k :: 0 <= k < |SortOf(values)| ==>
        var j := FirstNamed(toks, SortOf(values)[k].fieldName);
        j >= 0 && SortOf(values)[k].order == TokenOrder(toks[j])
  {
    var toks := SortTokens(Lookup(values, SortKeyword));
    SortFields(toks);
    SortDirection(toks);
  }

  /** The items of a single `sort` occurrence without nested keys. */
  lemma OneValueTokens(values: Values, v: Value, toks: seq<string>)
    requires values == map[SortKeyword := [v]]
    requires Unnested(v) && Items(v.value, SortDelimiter) == toks
    ensures SortOf(values) == SortsOf(toks)
  {
    assert Lookup(values, SortKeyword) == [v];
    assert [v][..0] == [];
    assert SortTokens([v]) == [] + toks == toks;
  }

  /** The value "-a,b,a" sorts by a descending, then b; the second a is a
      duplicate. */
  lemma SortDuplicateExample(v: Value)
    requires v == Value(SortKeyword, None, "-a,b,a")
    ensures SortOf(map[SortKeyword := [v]]) == [Sort("a", Desc), Sort("b", Asc)]
  {
    DuplicateItems();
    OneValueTokens(map[SortKeyword := [v]], v, ["-a", "b", "a"]);
    DuplicateTokens();
  }

  /** The items of "-a,b,a". */
  lemma DuplicateItems()
    ensures Items("-a,b,a", SortDelimiter) == ["-a", "b", "a"]
  {
    assert "-a,b,a" == "-a" + [SortDelimiter] + ("b" + [SortDelimiter] + "a");
    ItemsTriple("-a", "b", "a", SortDelimiter);
  }

  /** The items "-a", "b", "a" in turn. */
  lemma DuplicateTokens()
    ensures SortsOf(["-a", "b", "a"]) == [Sort("a", Desc), Sort("b", Asc)]
  {
    var toks := ["-a", "b", "a"];
    assert TokenName("-a") == "a" && TokenOrder("-a") == Desc;
    assert toks[..1] == ["-a"] && ["-a"][..0] == [];
    assert SortsOf(toks[..1]) == [Sort("a", Desc)];
    assert toks[..2] == ["-a", "b"] && toks[..2][..1] == toks[..1];
    assert TokenName("b") == "b" && "b" !in FieldNames([Sort("a", Desc)]);
    assert SortsOf(toks[..2]) == [Sort("a", Desc), Sort("b", Asc)];
    assert FieldNames(SortsOf(toks[..2]))[0] == "a";
  }

  /** The value "-,b" skips the bare `-`. */
  lemma SortBareDashExample(v: Value)
    requires v == Value(SortKeyword, None, "-,b")
    ensures SortOf(map[SortKeyword := [v]]) == [Sort("b", Asc)]
  {
    assert v.value == "-" + [SortDelimiter] + "b";
    ItemsPair("-", "b", SortDelimiter);
    OneValueTokens(map[SortKeyword := [v]], v, ["-", "b"]);
    BareDashTokens();
  }

  /** The items "-" and "b" in turn. */
  lemma BareDashTokens()
    ensures SortsOf(["-", "b"]) == [Sort("b", Asc)]
  {
    var toks := ["-", "b"];
    assert TokenName("-") == "";
    assert toks[..1] == ["-"] && ["-"][..0] == [];
    assert SortsOf(toks[..1]) == [];
  }
}
