/** `initFilters`: the `filter[field]=predicate` directive. */
module Filters {
  import opened Types

  const FilterKeyword: string := "filter"

  /** The filter an occurrence with one nested key and a value stands for. */
  function FilterOf(v: Value): (f: Filter)
    requires SingleNested(v)
    ensures f.fieldName == NestedList(v)[0] && f.predicateText == v.value
    ensures f.predicateText != ""
  {
    Filter(v.nestedKeys.value[0], v.value)
  }

  /** The filters of the occurrences, in order, skipping every one without
      exactly one nested key or with an empty value. */
  function FiltersOf(vs: seq<Value>): seq<Filter>
  {
    if vs == [] then []
    else
      var last := vs[|vs| - 1];
      FiltersOf(vs[..|vs| - 1]) + (if SingleNested(last) then [FilterOf(last)] else [])
  }

  /** The filters of a query; empty when it has no `filter` key. */
  function FilterList(values: Values): seq<Filter>
  {
    FiltersOf(Lookup(values, FilterKeyword))
  }

  /** `initFilters`. */
  method InitFilters(values: Values) returns (filters: seq<Filter>)
    ensures filters == FilterList(values)
  {
    if FilterKeyword !in values {
      return [];
    }
    var filterValues := values[FilterKeyword];
    filters := [];
    var i := 0;
    while i < |filterValues|
      invariant i <= |filterValues|
      invariant filters == FiltersOf(filterValues[..i])
    {
      var val := filterValues[i];
      assert filterValues[..i + 1][..i] == filterValues[..i];
      if val.value == "" || NestedCount(val) != 1 {
        assert filters + [] == filters;
        i := i + 1;
        continue;
      }
      var filter := Filter(val.nestedKeys.value[0], val.value);
      filters := filters + [filter];
      i := i + 1;
    }
    assert filterValues[..i] == filterValues;
  }

  /** The filters of two runs of occurrences are those of the first run
      followed by those of the second. */
  lemma {:induction false} FiltersConcat(a: seq<Value>, b: seq<Value>)
    ensures FiltersOf(a + b) == FiltersOf(a) + FiltersOf(b)
    decreases |b|
  {
    if b == [] {
      assert a + b == a;
    } else {
      var b' := b[..|b| - 1];
      var last := b[|b| - 1];
      assert (a + b)[..|a + b| - 1] == a + b';
      FiltersConcat(a, b');
    }
  }

  /** The occurrence stands for the filter. */
  predicate StandsFor(v: Value, f: Filter)
  {
    SingleNested(v) && FilterOf(v) == f
  }

  /** A filter is there exactly when some occurrence with one nested key
      and a non-empty value stands for it. */
  lemma {:induction false} FiltersMembership(vs: seq<Value>, f: Filter)
    ensures f in FiltersOf(vs) <==> exists k :: 0 <= k < |vs| && StandsFor(vs[k], f)
  {
    if vs != [] {
      var init := vs[..|vs| - 1];
      var last := vs[|vs| - 1];
      var tail := if SingleNested(last) then [FilterOf(last)] else [];
      FiltersMembership(init, f);
      assert FiltersOf(vs) == FiltersOf(init) + tail;
      assert f in tail <==> StandsFor(last, f);
      if f in FiltersOf(init) {
        var k :| 0 <= k < |init| && StandsFor(init[k], f);
        assert vs[k] == init[k];
      } else if f in tail {
        assert StandsFor(vs[|vs| - 1], f);
      }
      if exists k :: 0 <= k < |vs| && StandsFor(vs[k], f) {
        var k :| 0 <= k < |vs| && StandsFor(vs[k], f);
        if k < |init| {
          assert init[k] == vs[k];
        }
      }
    }
  }

  /** At most one filter per occurrence, and every filter has a non-empty
      predicate. */
  lemma {:induction false} FiltersBound(vs: seq<Value>)
    ensures |FiltersOf(vs)| <= |vs|
    ensures forall k :: 0 <= k < |FiltersOf(vs)| ==> FiltersOf(vs)[k].predicateText != ""
  {
    if vs != [] {
      FiltersBound(vs[..|vs| - 1]);
    }
  }
}
