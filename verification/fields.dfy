/** `initResourceFields` and `ResourceFields.FieldsByResource`: the
    `fields[type]=a,b` directive (sparse fieldsets). */
module Fields {
  import opened Types
  import opened Strings

  const FieldsKeyword: string := "fields"
  const FieldsDelimiter: char := ','

  /** `FieldsByResource`: the fields listed for a resource type, and whether
      any are listed; a missing type gives no fields. */
  function FieldsByResource(r: ResourceFields, resourceType: string): (res: (seq<string>, bool))
    ensures res.1 <==> resourceType in r
    ensures res.1 ==> res.0 == r[resourceType]
    ensures !res.1 ==> res.0 == []
  {
    if resourceType in r then (r[resourceType], true) else ([], false)
  }

  /** The fields listed for a resource type, or none. */
  function Listed(fields: ResourceFields, resourceType: string): seq<string>
  {
    if resourceType in fields then fields[resourceType] else []
  }

  /** The non-empty strings of a list, in order. */
  function NonEmpty(items: seq<string>): (r: seq<string>)
    ensures forall x :: x in r <==> x in items && x != ""
  {
    if items == [] then []
    else
      var last := items[|items| - 1];
      assert forall x :: x in items <==> x in items[..|items| - 1] || x == last;
      NonEmpty(items[..|items| - 1]) + (if last == "" then [] else [last])
  }

  /** The items appended to a resource's list: each non-empty item not
      already listed (before or earlier in the same value), in order. */
  function AppendNew(have: seq<string>, items: seq<string>): (r: seq<string>)
    ensures |have| <= |r| && r[..|have|] == have
  {
    if items == [] then have
    else
      var last := items[|items| - 1];
      var r := AppendNew(have, items[..|items| - 1]);
      if last == "" || last in r then r else r + [last]
  }

  /** One occurrence: one nested key (the resource type) and a non-empty
      value, whose comma pieces are appended; a resource gets an entry only
      when something is appended. */
  function AddFields(fields: ResourceFields, v: Value): ResourceFields
  {
    if !SingleNested(v) then fields
    else
      var resourceType := v.nestedKeys.value[0];
      var have := Listed(fields, resourceType);
      var now := AppendNew(have, SplitAll(v.value, FieldsDelimiter));
      if |now| == |have| then fields else fields[resourceType := now]
  }

  /** The fields of the occurrences, processed in order. */
  function FieldsOf(vs: seq<Value>): ResourceFields
  {
    if vs == [] then map[]
    else AddFields(FieldsOf(vs[..|vs| - 1]), vs[|vs| - 1])
  }

  /** The fields of a query; empty when it has no `fields` key. */
  function ResourceFieldsOf(values: Values): ResourceFields
  {
    FieldsOf(Lookup(values, FieldsKeyword))
  }

  /** The per-resource sets of fields seen, as the source keeps them: every
      listed resource has one, and it holds exactly the listed fields. */
  ghost predicate Tracks(duplicates: map<string, set<string>>, fields: ResourceFields)
  {
    && (forall resourceType :: resourceType in fields ==> resourceType in duplicates)
    && (forall resourceType, f :: resourceType in duplicates ==>
          (f in duplicates[resourceType] <==> f in Listed(fields, resourceType)))
  }

  /** `initResourceFields`. */
  method InitResourceFields(values: Values) returns (fields: ResourceFields)
    ensures fields == ResourceFieldsOf(values)
  {
    if FieldsKeyword !in values {
      return map[];
    }
    var fieldsValues := values[FieldsKeyword];
    fields := map[];
    var duplicates: map<string, set<string>> := map[];
    var i := 0;
    while i < |fieldsValues|
      invariant i <= |fieldsValues|
      invariant fields == FieldsOf(fieldsValues[..i])
      invariant Tracks(duplicates, fields)
    {
      var val := fieldsValues[i];
      assert fieldsValues[..i + 1][..i] == fieldsValues[..i];
      if val.value == "" || NestedCount(val) != 1 {
        i := i + 1;
        continue;
      }
      var resourceType := val.nestedKeys.value[0];
      var byResource: set<string>;
      if resourceType in duplicates {
        byResource := duplicates[resourceType];
      } else {
        byResource := {};
        duplicates := duplicates[resourceType := byResource];
      }
      var list := SplitAll(val.value, FieldsDelimiter);
      var toAppend;
      toAppend, byResource := FreshItems(Listed(fields, resourceType), byResource, list);
      FieldsStep(fields, val, toAppend);
      TracksStep(fields, duplicates, resourceType, toAppend, byResource);
      assert resourceType in fields ==> Listed(fields, resourceType) == fields[resourceType];
      assert resourceType !in fields ==> Listed(fields, resourceType) + toAppend == toAppend;
      duplicates := duplicates[resourceType := byResource];
      if |toAppend| == 0 {
        i := i + 1;
        continue;
      }
      if resourceType in fields {
        fields := fields[resourceType := fields[resourceType] + toAppend];
        i := i + 1;
        continue;
      }
      fields := fields[resourceType := toAppend];
      i := i + 1;
    }
    assert fieldsValues[..i] == fieldsValues;
  }

  /** One occurrence of the outer loop: appending the fresh pieces is
      AddFields. */
  lemma FieldsStep(fields: ResourceFields, v: Value, toAppend: seq<string>)
    requires SingleNested(v)
    requires var have := Listed(fields, v.nestedKeys.value[0]);
      have + toAppend == AppendNew(have, SplitAll(v.value, FieldsDelimiter))
    ensures var resourceType := v.nestedKeys.value[0];
      AddFields(fields, v) ==
        if |toAppend| == 0 then fields
        else if resourceType in fields then fields[resourceType := fields[resourceType] + toAppend]
        else fields[resourceType := toAppend]
  {
    var have := Listed(fields, v.nestedKeys.value[0]);
    assert [] + toAppend == toAppend;
    if |toAppend| == 0 {
      assert have + toAppend == have;
    }
  }

  /** The per-resource sets stay right when the set of one resource is
      replaced by the set of its new list. */
  lemma TracksStep(fields: ResourceFields, duplicates: map<string, set<string>>, resourceType: string,
                   toAppend: seq<string>, byResource: set<string>)
    requires Tracks(duplicates, fields)
    requires forall f :: f in byResource <==> f in Listed(fields, resourceType) + toAppend
    ensures Tracks(duplicates[resourceType := byResource],
      if |toAppend| == 0 then fields else fields[resourceType := Listed(fields, resourceType) + toAppend])
  {
    if |toAppend| == 0 {
      assert Listed(fields, resourceType) + toAppend == Listed(fields, resourceType);
    }
  }

  /** The inner loop of `initResourceFields`: the pieces of one value that
      are non-empty and not yet listed for the resource. */
  method FreshItems(have: seq<string>, byResource: set<string>, list: seq<string>)
    returns (toAppend: seq<string>, byResource': set<string>)
    requires forall f :: f in byResource <==> f in have
    ensures have + toAppend == AppendNew(have, list)
    ensures forall f :: f in byResource' <==> f in have + toAppend
  {
    toAppend, byResource' := [], byResource;
    assert have + toAppend == have;
    for j := 0 to |list|
      invariant have + toAppend == AppendNew(have, list[..j])
      invariant forall f :: f in byResource' <==> f in have + toAppend
    {
      var item := list[j];
      assert list[..j + 1][..j] == list[..j];
      if item == "" {
        continue;
      }
      if item in byResource' {
        continue;
      }
      assert have + (toAppend + [item]) == (have + toAppend) + [item];
      toAppend := toAppend + [item];
      byResource' := byResource' + {item};
    }
    assert list[..|list|] == list;
  }

  /** The non-empty pieces the occurrences list for one resource type, in
      order. */
  function FieldItems(vs: seq<Value>, resourceType: string): seq<string>
  {
    if vs == [] then []
    else
      var last := vs[|vs| - 1];
      FieldItems(vs[..|vs| - 1], resourceType) +
        (if SingleNested(last) && NestedList(last)[0] == resourceType
         then NonEmpty(SplitAll(last.value, FieldsDelimiter)) else [])
  }

  /** Appending new items to a list of distinct items is removing the
      duplicates of the whole. */
  lemma {:induction false} AppendNewDedup(s: seq<string>, items: seq<string>)
    ensures AppendNew(Dedup(s), items) == Dedup(s + NonEmpty(items))
    decreases |items|
  {
    if items == [] {
      assert s + NonEmpty(items) == s;
    } else {
      var init := items[..|items| - 1];
      var last := items[|items| - 1];
      AppendNewDedup(s, init);
      if last == "" {
        assert NonEmpty(items) == NonEmpty(init) + [] == NonEmpty(init);
      } else {
        assert NonEmpty(items) == NonEmpty(init) + [last];
        assert s + NonEmpty(items) == (s + NonEmpty(init)) + [last];
        DedupSnoc(s + NonEmpty(init), last);
      }
    }
  }

  /** Nothing is listed for a list of no items, and something for any other. */
  lemma DedupEmpty(s: seq<string>)
    ensures Dedup(s) == [] <==> s == []
  {
    if s != [] {
      assert s[0] in Dedup(s);
    }
  }

  /** The fields listed for a resource type are the non-empty pieces the
      occurrences give for it, each once, in order of first mention; a type
      is listed exactly when some occurrence gives it a non-empty piece. */
  lemma {:induction false} FieldsSpec(vs: seq<Value>, resourceType: string)
    ensures Listed(FieldsOf(vs), resourceType) == Dedup(FieldItems(vs, resourceType))
    ensures resourceType in FieldsOf(vs) <==> FieldItems(vs, resourceType) != []
  {
    if vs != [] {
      var init := vs[..|vs| - 1];
      var last := vs[|vs| - 1];
      FieldsSpec(init, resourceType);
      var before := FieldsOf(init);
      assert FieldsOf(vs) == AddFields(before, last);
      if SingleNested(last) && NestedList(last)[0] == resourceType {
        var pieces := SplitAll(last.value, FieldsDelimiter);
        var have := Listed(before, resourceType);
        AppendNewDedup(FieldItems(init, resourceType), pieces);
        assert FieldItems(vs, resourceType) == FieldItems(init, resourceType) + NonEmpty(pieces);
        var now := AppendNew(have, pieces);
        DedupEmpty(FieldItems(vs, resourceType));
        DedupEmpty(FieldItems(init, resourceType));
        if |now| == |have| {
          assert now == now[..|have|] == have;
        }
      } else {
        assert FieldItems(vs, resourceType) == FieldItems(init, resourceType) + [] == FieldItems(init, resourceType);
        if SingleNested(last) {
          assert Listed(FieldsOf(vs), resourceType) == Listed(before, resourceType);
        }
      }
    }
  }

  /** Every listed resource type has a non-empty list of distinct,
      non-empty fields, and a field is listed for a type exactly when some
      occurrence for that type gives it. */
  lemma FieldsShape(values: Values, resourceType: string)
    ensures var fields := ResourceFieldsOf(values);
      && (resourceType in fields ==> fields[resourceType] != [])
      && NoDup(Listed(fields, resourceType))
      && (forall f :: f in Listed(fields, resourceType) <==>
            f != "" && f in FieldItems(Lookup(values, FieldsKeyword), resourceType))
  {
    var vs := Lookup(values, FieldsKeyword);
    FieldsSpec(vs, resourceType);
    DedupEmpty(FieldItems(vs, resourceType));
    FieldItemsNonEmpty(vs, resourceType);
  }

  /** Pieces listed for a type are never empty. */
  lemma {:induction false} FieldItemsNonEmpty(vs: seq<Value>, resourceType: string)
    ensures "" !in FieldItems(vs, resourceType)
  {
    if vs != [] {
      FieldItemsNonEmpty(vs[..|vs| - 1], resourceType);
    }
  }

  /** `FieldsByResource` on a parsed query answers with the listed fields,
      and with true exactly when some occurrence gives the type a field. */
  lemma FieldsByResourceOf(values: Values, resourceType: string)
    ensures var items := FieldItems(Lookup(values, FieldsKeyword), resourceType);
      FieldsByResource(ResourceFieldsOf(values), resourceType) == (Dedup(items), items != [])
  {
    FieldsSpec(Lookup(values, FieldsKeyword), resourceType);
  }
}
