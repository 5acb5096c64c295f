/** `initPage`: the `page[size]`, `page[number]`, `page[limit]`,
    `page[offset]` and `page[cursor]` parameters. */
module Pagination {
  import opened Wrappers
  import opened Types

  const PageKeyword: string := "page"

  /** The nested keys `initPage` recognises. */
  const PageKeys: seq<string> := ["size", "number", "limit", "offset", "cursor"]

  /** An occurrence that sets a page parameter: exactly one nested key, one
      of the recognised ones; its value may be empty. */
  predicate SetsPage(v: Value)
  {
    NestedCount(v) == 1 && v.nestedKeys.value[0] in PageKeys
  }

  /** One occurrence: a recognised key overwrites its parameter, anything
      else is ignored. */
  function PageStep(p: Page, v: Value): Page
  {
    if NestedCount(v) != 1 then p
    else
      var key := v.nestedKeys.value[0];
      if key == "size" then p.(size := v.value)
      else if key == "number" then p.(number := v.value)
      else if key == "limit" then p.(limit := v.value)
      else if key == "offset" then p.(offset := v.value)
      else if key == "cursor" then p.(cursor := v.value)
      else p
  }

  /** The parameters after the occurrences, from all-empty. */
  function PageFold(vs: seq<Value>): Page
  {
    if vs == [] then Page("", "", "", "", "")
    else PageStep(PageFold(vs[..|vs| - 1]), vs[|vs| - 1])
  }

  /** The page of a query: None unless some occurrence sets a parameter. */
  function PageOf(values: Values): Option<Page>
  {
    var vs := Lookup(values, PageKeyword);
    if exists k :: 0 <= k < |vs| && SetsPage(vs[k]) then Some(PageFold(vs)) else None
  }

  /** `initPage`. */
  method InitPage(values: Values) returns (page: Option<Page>)
    ensures page == PageOf(values)
  {
    if PageKeyword !in values {
      return None;
    }
    var pageValues := values[PageKeyword];
    var returnPage := false;
    var p := Page("", "", "", "", "");
    var i := 0;
    while i < |pageValues|
      invariant i <= |pageValues|
      invariant p == PageFold(pageValues[..i])
      invariant returnPage <==> exists k :: 0 <= k < i && SetsPage(pageValues[k])
    {
      var val := pageValues[i];
      assert pageValues[..i + 1][..i] == pageValues[..i];
      if NestedCount(val) != 1 {
        i := i + 1;
        continue;
      }
      match val.nestedKeys.value[0] {
        case "size" =>
          returnPage := true;
          p := p.(size := val.value);
        case "number" =>
          returnPage := true;
          p := p.(number := val.value);
        case "limit" =>
          returnPage := true;
          p := p.(limit := val.value);
        case "offset" =>
          returnPage := true;
          p := p.(offset := val.value);
        case "cursor" =>
          returnPage := true;
          p := p.(cursor := val.value);
        case _ =>
      }
      i := i + 1;
    }
    assert pageValues[..i] == pageValues;
    if returnPage {
      return Some(p);
    }
    return None;
  }

  /** The index of the last occurrence whose nested keys are exactly
      `[key]`, or -1. */
  function LastSetting(vs: seq<Value>, key: string): (j: int)
    ensures -1 <= j < |vs|
    ensures j >= 0 ==> NestedList(vs[j]) == [key]
    ensures forall i :: 0 <= i < |vs| && i > j ==> NestedList(vs[i]) != [key]
  {
    if vs == [] then -1
    else if NestedList(vs[|vs| - 1]) == [key] then |vs| - 1
    else LastSetting(vs[..|vs| - 1], key)
  }

  /** The value the last occurrence `[key]` gives, or "". */
  function LastValue(vs: seq<Value>, key: string): string
  {
    var j := LastSetting(vs, key);
    if j < 0 then "" else vs[j].value
  }

  /** Every parameter is the value of its last occurrence: later
      occurrences overwrite earlier ones, and a parameter never given stays
      empty. */
  lemma {:induction false} PageLastWins(vs: seq<Value>)
    ensures PageFold(vs) == Page(LastValue(vs, "size"), LastValue(vs, "number"),
      LastValue(vs, "limit"), LastValue(vs, "offset"), LastValue(vs, "cursor"))
  {
    if vs != [] {
      PageLastWins(vs[..|vs| - 1]);
      LastValueSnoc(vs, "size");
      LastValueSnoc(vs, "number");
      LastValueSnoc(vs, "limit");
      LastValueSnoc(vs, "offset");
      LastValueSnoc(vs, "cursor");
    }
  }

  /** The last occurrence of `[key]` is the final one if it is one, and
      otherwise the last one before it. */
  lemma LastValueSnoc(vs: seq<Value>, key: string)
    requires vs != []
    ensures var last := vs[|vs| - 1];
      LastValue(vs, key) ==
        if NestedCount(last) == 1 && last.nestedKeys.value[0] == key then last.value
        else LastValue(vs[..|vs| - 1], key)
  {
    var last := vs[|vs| - 1];
    if NestedCount(last) == 1 && last.nestedKeys.value[0] == key {
      assert NestedList(last) == [key];
    }
  }

  /** A page is returned exactly when some occurrence sets one of the five
      parameters, and then it holds the last value of each. */
  lemma PageSpec(values: Values)
    ensures var vs := Lookup(values, PageKeyword);
      && (PageOf(values).Some? <==> exists k :: 0 <= k < |vs| && SetsPage(vs[k]))
      && (PageOf(values).Some? ==>
            (PageOf(values).value == Page(LastValue(vs, "size"), LastValue(vs, "number"),
              LastValue(vs, "limit"), LastValue(vs, "offset"), LastValue(vs, "cursor"))))
  {
    PageLastWins(Lookup(values, PageKeyword));
  }

  /** `page[size]=10&page[size]=20` gives size 20. */
  lemma PageLastExample()
    ensures var a := Value(PageKeyword, Some(["size"]), "10");
      var b := Value(PageKeyword, Some(["size"]), "20");
      PageOf(map[PageKeyword := [a, b]]) == Some(Page("20", "", "", "", ""))
  {
    var a := Value(PageKeyword, Some(["size"]), "10");
    var b := Value(PageKeyword, Some(["size"]), "20");
    var vs := [a, b];
    assert Lookup(map[PageKeyword := vs], PageKeyword) == vs;
    assert SetsPage(vs[0]);
    assert vs[..1] == [a] && [a][..0] == [];
    assert PageFold([a]) == Page("10", "", "", "", "");
    assert PageFold(vs) == PageStep(PageFold([a]), b);
  }

  /** `page[foo]=1` alone gives no page. */
  lemma PageUnknownExample()
    ensures PageOf(map[PageKeyword := [Value(PageKeyword, Some(["foo"]), "1")]]) == None
  {
    var c := Value(PageKeyword, Some(["foo"]), "1");
    assert !SetsPage(c) by {
      assert forall k :: 0 <= k < |PageKeys| ==> |PageKeys[k]| >= 4;
    }
  }
}
