/** `initIncludes` and `expandInclude`: comma-separated relation chains
    `a.b.c` merged into a forest of includes. */
module Includes {
  import opened Wrappers
  import opened Types
  import opened Strings

  const IncludeKeyword: string := "include"
  const RelationDelimiter: char := ','
  const NestedRelationDelimiter: char := '.'

  /** The relations of a list of includes, in order. */
  function Relations(f: seq<Include>): (r: seq<string>)
    ensures |r| == |f|
    ensures forall i :: 0 <= i < |f| ==> r[i] == f[i].relation
  {
    if f == [] then [] else [f[0].relation] + Relations(f[1..])
  }

  /** Position of the first include with the given relation, or -1. */
  function IndexOfRelation(f: seq<Include>, relation: string): (i: int)
    ensures -1 <= i < |f|
    ensures i >= 0 ==> f[i].relation == relation
    ensures forall j :: 0 <= j < |f| && (i < 0 || j < i) ==> f[j].relation != relation
  {
    if f == [] then -1
    else if f[0].relation == relation then 0
    else
      var j := IndexOfRelation(f[1..], relation);
      if j < 0 then -1 else j + 1
  }

  /** The relations `expandInclude` walks down for a dotted text: each piece
      up to the next `.`, the last one included, none for "". */
  function DotPath(s: string): (path: seq<string>)
    ensures s != "" ==> |path| >= 1
    decreases |s|
  {
    if s == "" then []
    else
      var (cur, rest) := Split(s, NestedRelationDelimiter, true);
      [cur] + DotPath(rest)
  }

  /** A dotted text made of non-empty relations is read back as those
      relations. */
  lemma {:induction false} DotPathJoin(parts: seq<string>)
    requires |parts| >= 1
    requires forall k :: 0 <= k < |parts| ==> parts[k] != "" && NestedRelationDelimiter !in parts[k]
    ensures DotPath(Join(parts, NestedRelationDelimiter)) == parts
  {
    if |parts| == 1 {
      DotPathLast(parts[0]);
    } else {
      var j := Join(parts[1..], NestedRelationDelimiter);
      assert Join(parts, NestedRelationDelimiter) == parts[0] + [NestedRelationDelimiter] + j;
      DotPathFirst(parts[0], j);
      DotPathJoin(parts[1..]);
      assert parts == [parts[0]] + parts[1..];
    }
  }

  /** A dotted text without dots is one relation. */
  lemma DotPathLast(a: string)
    requires a != "" && NestedRelationDelimiter !in a
    ensures DotPath(a) == [a]
  {
    assert Split(a, NestedRelationDelimiter, true) == (a, "");
  }

  /** The relation before the first dot comes first. */
  lemma DotPathFirst(a: string, t: string)
    requires NestedRelationDelimiter !in a
    ensures DotPath(a + [NestedRelationDelimiter] + t) == [a] + DotPath(t)
  {
    var s := a + [NestedRelationDelimiter] + t;
    IndexOfAfter(a, NestedRelationDelimiter, t);
    assert s[..|a|] == a;
    assert s[|a| + 1..] == t;
    assert Split(s, NestedRelationDelimiter, true) == (a, t);
  }

  /** The find-or-append insert of a chain of relations: the first relation
      is looked up among the includes, appended when missing, and the rest
      of the chain goes below it. */
  function InsertPath(f: seq<Include>, path: seq<string>): (r: seq<Include>)
    ensures path == [] ==> r == f
    ensures path != [] && IndexOfRelation(f, path[0]) >= 0 ==> |r| == |f|
    ensures path != [] && IndexOfRelation(f, path[0]) < 0 ==> |r| == |f| + 1 && r[..|f|] == f
    decreases |path|
  {
    if path == [] then f
    else
      var i := IndexOfRelation(f, path[0]);
      if i < 0 then f + [Include(path[0], InsertPath([], path[1..]))]
      else f[i := Include(f[i].relation, InsertPath(f[i].includes, path[1..]))]
  }

  /** `expandInclude` on a node, functionally: the chain of the dotted
      text inserted below it. */
  function Expanded(root: Include, queryPart: string): Include
  {
    Include(root.relation, InsertPath(root.includes, DotPath(queryPart)))
  }

  /** The source's recursion: split off the first relation, find it among
      the node's includes or append it, and expand the found or new child
      with the rest. */
  method ExpandInclude(root: Include, queryPart: string) returns (r: Include)
    ensures r == Expanded(root, queryPart)
    decreases |queryPart|
  {
    if queryPart == "" {
      return root;
    }
    var (cur, rest) := Split(queryPart, NestedRelationDelimiter, true);
    var includes := root.includes;
    var idx := -1;
    if includes == [] {
      includes := [Include(cur, [])];
      idx := 0;
    } else {
      var i := 0;
      while i < |includes|
        invariant 0 <= i <= |includes|
        invariant idx == -1
        invariant forall j :: 0 <= j < i ==> includes[j].relation != cur
      {
        if includes[i].relation == cur {
          idx := i;
          break;
        }
        i := i + 1;
      }
      assert idx == IndexOfRelation(includes, cur);
      if idx < 0 {
        includes := includes + [Include(cur, [])];
        idx := |includes| - 1;
      }
    }
    var child := ExpandInclude(includes[idx], rest);
    includes := includes[idx := child];
    return Include(root.relation, includes);
  }

  /** Chains inserted one after another. */
  function InsertAll(f: seq<Include>, chains: seq<seq<string>>): seq<Include>
    decreases |chains|
  {
    if chains == [] then f else InsertAll(InsertPath(f, chains[0]), chains[1..])
  }

  /** The chains of a list of comma items. */
  function ChainsOf(items: seq<string>): (chains: seq<seq<string>>)
    ensures |chains| == |items|
    ensures forall k :: 0 <= k < |items| ==> chains[k] == DotPath(items[k])
  {
    if items == [] then [] else [DotPath(items[0])] + ChainsOf(items[1..])
  }

  /** The chains of all `include` occurrences, in order; each value is read
      up to its first empty comma item. */
  function IncludeChains(vs: seq<Value>): seq<seq<string>>
  {
    if vs == [] then []
    else
      var last := vs[|vs| - 1];
      IncludeChains(vs[..|vs| - 1]) +
        (if Unnested(last) then ChainsOf(Items(last.value, RelationDelimiter)) else [])
  }

  /** The reference definition of `initIncludes`: None without an `include`
      key, otherwise the forest of all chains, possibly empty. */
  function IncludesOf(values: Values): Option<seq<Include>>
  {
    if IncludeKeyword !in values then None
    else Some(InsertAll([], IncludeChains(values[IncludeKeyword])))
  }

  lemma {:induction false} InsertAllConcat(f: seq<Include>, a: seq<seq<string>>, b: seq<seq<string>>)
    ensures InsertAll(f, a + b) == InsertAll(InsertAll(f, a), b)
    decreases |a|
  {
    if a == [] {
      assert a + b == b;
    } else {
      assert (a + b)[1..] == a[1..] + b;
      InsertAllConcat(InsertPath(f, a[0]), a[1..], b);
    }
  }

  lemma InsertAllCons(f: seq<Include>, chain: seq<string>, chains: seq<seq<string>>)
    ensures InsertAll(f, [chain] + chains) == InsertAll(InsertPath(f, chain), chains)
  {
    assert ([chain] + chains)[1..] == chains;
  }

  /** The roots map of the source indexes the ordered roots by relation. */
  ghost predicate RootsIndex(roots: map<string, nat>, ordered: seq<Include>)
  {
    forall k :: (k in roots <==> IndexOfRelation(ordered, k) >= 0) &&
      (k in roots ==> roots[k] == IndexOfRelation(ordered, k))
  }

  /** Inserting a chain keeps the relations in place and appends the head
      when it is new. */
  lemma InsertPathRelations(f: seq<Include>, path: seq<string>)
    requires path != []
    ensures Relations(InsertPath(f, path)) ==
      if IndexOfRelation(f, path[0]) >= 0 then Relations(f) else Relations(f) + [path[0]]
  {
  }

  /** Where each relation sits after a chain is inserted. */
  lemma InsertPathIndex(f: seq<Include>, path: seq<string>, k: string)
    requires path != []
    ensures IndexOfRelation(InsertPath(f, path), k) ==
      if IndexOfRelation(f, k) >= 0 then IndexOfRelation(f, k)
      else if k == path[0] then |f| else -1
  {
    var g := InsertPath(f, path);
    var i := IndexOfRelation(f, path[0]);
    if i >= 0 {
      IndexOfRelationSame(f, g, k);
    } else {
      var x := Include(path[0], InsertPath([], path[1..]));
      assert g == f + [x];
      IndexOfRelationAppend(f, x, k);
    }
  }

  /** IndexOfRelation depends only on the relations. */
  lemma IndexOfRelationSame(f: seq<Include>, g: seq<Include>, k: string)
    requires |f| == |g| && forall j :: 0 <= j < |f| ==> f[j].relation == g[j].relation
    ensures IndexOfRelation(f, k) == IndexOfRelation(g, k)
  {
  }

  /** An appended include is found only when no earlier one matches. */
  lemma IndexOfRelationAppend(f: seq<Include>, x: Include, k: string)
    ensures IndexOfRelation(f + [x], k) ==
      if IndexOfRelation(f, k) >= 0 then IndexOfRelation(f, k)
      else if x.relation == k then |f| else -1
  {
    var g := f + [x];
    assert forall j :: 0 <= j < |f| ==> g[j] == f[j];
    assert g[|f|] == x;
  }

  /** Where a chain's root relation goes to: the same place after every
      insertion, a new one at the end. */
  lemma InsertedIndices(ordered: seq<Include>, path: seq<string>)
    requires path != []
    ensures forall k :: (IndexOfRelation(InsertPath(ordered, path), k) ==
      if IndexOfRelation(ordered, k) >= 0 then IndexOfRelation(ordered, k)
      else if k == path[0] then |ordered| else -1)
  {
    forall k ensures IndexOfRelation(InsertPath(ordered, path), k) ==
      if IndexOfRelation(ordered, k) >= 0 then IndexOfRelation(ordered, k)
      else if k == path[0] then |ordered| else -1
    {
      InsertPathIndex(ordered, path, k);
    }
  }

  /** A pass of the inner loop of `initIncludes` whose root is in the map:
      expanding it is inserting the chain, and the map stays right. */
  lemma RootFound(roots: map<string, nat>, ordered: seq<Include>, rootKey: string, next: string)
    requires RootsIndex(roots, ordered) && rootKey in roots
    ensures roots[rootKey] < |ordered|
    ensures ordered[roots[rootKey] := Expanded(ordered[roots[rootKey]], next)] ==
      InsertPath(ordered, [rootKey] + DotPath(next))
    ensures RootsIndex(roots, InsertPath(ordered, [rootKey] + DotPath(next)))
  {
    var path := [rootKey] + DotPath(next);
    assert path[1..] == DotPath(next);
    InsertedIndices(ordered, path);
  }

  /** A pass whose root is new: it is appended, expanded and entered into
      the map at its position. */
  lemma RootAdded(roots: map<string, nat>, ordered: seq<Include>, rootKey: string, next: string)
    requires RootsIndex(roots, ordered) && rootKey !in roots
    ensures (ordered + [Include(rootKey, [])])[|ordered| := Expanded(Include(rootKey, []), next)] ==
      InsertPath(ordered, [rootKey] + DotPath(next))
    ensures RootsIndex(roots[rootKey := |ordered|], InsertPath(ordered, [rootKey] + DotPath(next)))
  {
    RootAppended(ordered, rootKey, next);
    RootAddedIndex(roots, ordered, rootKey, next);
  }

  /** A new root goes at the end, expanded with the rest of its chain. */
  lemma RootAppended(ordered: seq<Include>, rootKey: string, next: string)
    requires IndexOfRelation(ordered, rootKey) < 0
    ensures (ordered + [Include(rootKey, [])])[|ordered| := Expanded(Include(rootKey, []), next)] ==
      InsertPath(ordered, [rootKey] + DotPath(next))
  {
    var path := [rootKey] + DotPath(next);
    assert path[1..] == DotPath(next);
    var o := ordered + [Include(rootKey, [])];
    var x := Expanded(Include(rootKey, []), next);
    assert InsertPath(ordered, path) == ordered + [x];
    UpdateLast(ordered, Include(rootKey, []), x);
  }

  /** A new root enters the map at its position. */
  lemma RootAddedIndex(roots: map<string, nat>, ordered: seq<Include>, rootKey: string, next: string)
    requires RootsIndex(roots, ordered) && rootKey !in roots
    ensures RootsIndex(roots[rootKey := |ordered|], InsertPath(ordered, [rootKey] + DotPath(next)))
  {
    var path := [rootKey] + DotPath(next);
    var g := InsertPath(ordered, path);
    var roots' := roots[rootKey := |ordered|];
    forall k
      ensures (k in roots' <==> IndexOfRelation(g, k) >= 0) &&
        (k in roots' ==> roots'[k] == IndexOfRelation(g, k))
    {
      InsertPathIndex(ordered, path, k);
      if k == rootKey {
        assert IndexOfRelation(ordered, k) < 0;
      } else {
        assert (k in roots') == (k in roots);
      }
    }
  }

  /** Overwriting the last element. */
  lemma UpdateLast<T>(s: seq<T>, a: T, b: T)
    ensures (s + [a])[|s| := b] == s + [b]
  {
  }

  /** The next comma item as the source takes it. */
  lemma NextItem(cur: string, rest: string)
    requires cur != ""
    ensures ChainsOf(ItemsFrom(cur, rest, RelationDelimiter)) ==
      [DotPath(cur)] + ChainsOf(ItemsFrom(Split(rest, RelationDelimiter, true).0, Split(rest, RelationDelimiter, true).1, RelationDelimiter))
  {
    var (next, rest') := Split(rest, RelationDelimiter, true);
    var items := ItemsFrom(cur, rest, RelationDelimiter);
    assert items == [cur] + ItemsFrom(next, rest', RelationDelimiter);
    assert items[1..] == ItemsFrom(next, rest', RelationDelimiter);
  }

  /** A non-empty item's chain starts with the text up to its first `.`
      and goes on with the chain of the rest. */
  lemma ChainOfItem(cur: string)
    requires cur != ""
    ensures DotPath(cur) == [Split(cur, NestedRelationDelimiter, true).0] + DotPath(Split(cur, NestedRelationDelimiter, true).1)
  {
  }

  /** The chains of one more occurrence. */
  lemma IncludeChainsSnoc(vs: seq<Value>, i: nat)
    requires i < |vs|
    ensures IncludeChains(vs[..i + 1]) == IncludeChains(vs[..i]) +
      (if Unnested(vs[i]) then ChainsOf(Items(vs[i].value, RelationDelimiter)) else [])
  {
    assert vs[..i + 1][..i] == vs[..i];
  }

  /** The inner loop of the source over the comma items of one value:
      split off the root relation, find the root through the map or append
      it to the ordered list, and expand it with the rest of the chain. */
  method AddRelations(roots: map<string, nat>, ordered: seq<Include>, value: string)
    returns (roots': map<string, nat>, ordered': seq<Include>)
    requires RootsIndex(roots, ordered)
    ensures ordered' == InsertAll(ordered, ChainsOf(Items(value, RelationDelimiter)))
    ensures RootsIndex(roots', ordered')
  {
    roots', ordered' := roots, ordered;
    var (cur, rest) := Split(value, RelationDelimiter, true);
    while cur != ""
      invariant InsertAll(ordered', ChainsOf(ItemsFrom(cur, rest, RelationDelimiter))) ==
        InsertAll(ordered, ChainsOf(Items(value, RelationDelimiter)))
      invariant RootsIndex(roots', ordered')
      decreases |cur| + |rest|
    {
      var item := Split(cur, NestedRelationDelimiter, true);
      var rootKey, next := item.0, item.1;
      ghost var before := ordered';
      NextItem(cur, rest);
      ChainOfItem(cur);
      var idx: nat;
      if rootKey in roots' {
        idx := roots'[rootKey];
        RootFound(roots', ordered', rootKey, next);
      } else {
        RootAdded(roots', ordered', rootKey, next);
        ordered' := ordered' + [Include(rootKey, [])];
        idx := |ordered'| - 1;
        roots' := roots'[rootKey := idx];
      }
      var root := ExpandInclude(ordered'[idx], next);
      ordered' := ordered'[idx := root];
      assert ordered' == InsertPath(before, DotPath(cur));
      var parts := Split(rest, RelationDelimiter, true);
      InsertAllCons(before, DotPath(cur), ChainsOf(ItemsFrom(parts.0, parts.1, RelationDelimiter)));
      cur, rest := parts.0, parts.1;
    }
  }

  /** The outer loop of the source over the `include` occurrences; the
      ones with nested keys or an empty value are skipped. */
  method InitIncludes(values: Values) returns (r: Option<seq<Include>>)
    ensures r == IncludesOf(values)
  {
    if IncludeKeyword !in values {
      return None;
    }
    var incValues := values[IncludeKeyword];
    var roots: map<string, nat> := map[];
    var ordered: seq<Include> := [];
    var vi := 0;
    while vi < |incValues|
      invariant 0 <= vi <= |incValues|
      invariant ordered == InsertAll([], IncludeChains(incValues[..vi]))
      invariant RootsIndex(roots, ordered)
    {
      var val := incValues[vi];
      IncludeChainsSnoc(incValues, vi);
      if NestedCount(val) > 0 || val.value == "" {
        assert IncludeChains(incValues[..vi]) + [] == IncludeChains(incValues[..vi]);
        vi := vi + 1;
        continue;
      }
      InsertAllConcat([], IncludeChains(incValues[..vi]), ChainsOf(Items(val.value, RelationDelimiter)));
      roots, ordered := AddRelations(roots, ordered, val.value);
      vi := vi + 1;
    }
    assert incValues[..vi] == incValues;
    return Some(ordered);
  }

  /** The first relations of chains. */
  function Heads(chains: seq<seq<string>>): (heads: seq<string>)
    requires forall k :: 0 <= k < |chains| ==> chains[k] != []
    ensures |heads| == |chains|
    ensures forall k :: 0 <= k < |chains| ==> heads[k] == chains[k][0]
  {
    if chains == [] then [] else [chains[0][0]] + Heads(chains[1..])
  }

  /** Every chain read from the `include` values has a root relation. */
  lemma {:induction false} IncludeChainsNonEmpty(vs: seq<Value>)
    ensures forall k :: 0 <= k < |IncludeChains(vs)| ==> IncludeChains(vs)[k] != []
  {
    if vs != [] {
      IncludeChainsNonEmpty(vs[..|vs| - 1]);
      var last := vs[|vs| - 1];
      if Unnested(last) {
        var items := Items(last.value, RelationDelimiter);
        assert forall k :: 0 <= k < |items| ==> items[k] != "";
      }
    }
  }

  /** The roots are the root relations of the chains, each once, in order
      of first appearance. */
  lemma {:induction false} RootsInOrder(chains: seq<seq<string>>)
    requires forall k :: 0 <= k < |chains| ==> chains[k] != []
    ensures Relations(InsertAll([], chains)) == Dedup(Heads(chains))
    decreases |chains|
  {
    if chains != [] {
      var init := chains[..|chains| - 1];
      RootsInOrder(init);
      RootsInOrderStep(init, chains[|chains| - 1]);
      assert chains == init + [chains[|chains| - 1]];
    }
  }

  /** The step of RootsInOrder: one more chain at the end. */
  lemma RootsInOrderStep(init: seq<seq<string>>, last: seq<string>)
    requires last != [] && forall k :: 0 <= k < |init| ==> init[k] != []
    requires Relations(InsertAll([], init)) == Dedup(Heads(init))
    ensures Relations(InsertAll([], init + [last])) == Dedup(Heads(init + [last]))
  {
    InsertAllSnoc(init, last);
    HeadsSnoc(init, last);
    DedupSnoc(Heads(init), last[0]);
  }

  /** The roots after one more chain. */
  lemma InsertAllSnoc(init: seq<seq<string>>, last: seq<string>)
    requires last != []
    ensures var r := Relations(InsertAll([], init));
      Relations(InsertAll([], init + [last])) == if last[0] in r then r else r + [last[0]]
  {
    var f := InsertAll([], init);
    InsertAllConcat([], init, [last]);
    assert InsertAll(f, [last]) == InsertPath(f, last) by {
      assert [last][1..] == [];
    }
    InsertPathRelations(f, last);
    assert (IndexOfRelation(f, last[0]) >= 0) == (last[0] in Relations(f));
  }

  lemma HeadsSnoc(init: seq<seq<string>>, last: seq<string>)
    requires last != [] && forall k :: 0 <= k < |init| ==> init[k] != []
    ensures Heads(init + [last]) == Heads(init) + [last[0]]
  {
  }

  /** Every level of the forest has each relation at most once. */
  predicate WellFormed(f: seq<Include>)
    decreases f
  {
    NoDup(Relations(f)) && forall i :: 0 <= i < |f| ==> WellFormed(f[i].includes)
  }

  /** Inserting a chain keeps every level free of duplicates: an existing
      relation is merged into, never added twice. */
  lemma {:induction false} InsertPathWellFormed(f: seq<Include>, path: seq<string>)
    requires WellFormed(f)
    ensures WellFormed(InsertPath(f, path))
    decreases |path|
  {
    if path != [] {
      var i := IndexOfRelation(f, path[0]);
      if i < 0 {
        InsertPathWellFormed([], path[1..]);
        WellFormedAppend(f, Include(path[0], InsertPath([], path[1..])));
      } else {
        InsertPathWellFormed(f[i].includes, path[1..]);
        WellFormedReplace(f, i, Include(f[i].relation, InsertPath(f[i].includes, path[1..])));
      }
    }
  }

  /** Appending an include with a new relation keeps the forest well
      formed. */
  lemma WellFormedAppend(f: seq<Include>, x: Include)
    requires WellFormed(f) && WellFormed(x.includes)
    requires forall j :: 0 <= j < |f| ==> f[j].relation != x.relation
    ensures WellFormed(f + [x])
  {
    assert x.relation !in Relations(f);
    RelationsAppend(f, x);
    ChildrenAppend(f, x);
  }

  /** Appending a fresh relation keeps the relations distinct. */
  lemma RelationsAppend(f: seq<Include>, x: Include)
    requires NoDup(Relations(f)) && x.relation !in Relations(f)
    ensures NoDup(Relations(f + [x]))
  {
    RelationsSnoc(f, x);
    NoDupSnoc(Relations(f), x.relation);
  }

  /** The relations of a forest with one more include at the end. */
  lemma {:induction false} RelationsSnoc(f: seq<Include>, x: Include)
    ensures Relations(f + [x]) == Relations(f) + [x.relation]
  {
    if f != [] {
      assert (f + [x])[1..] == f[1..] + [x];
      RelationsSnoc(f[1..], x);
    }
  }

  /** A sequence without duplicates stays so when a new element is added at
      its end. */
  lemma NoDupSnoc<T>(s: seq<T>, x: T)
    requires NoDup(s) && x !in s
    ensures NoDup(s + [x])
  {
    var t := s + [x];
    forall i, j | 0 <= i < j < |t| ensures t[i] != t[j] {
      assert t[i] == s[i];
    }
  }

  /** Appending a well-formed include keeps every include's children well
      formed. */
  lemma ChildrenAppend(f: seq<Include>, x: Include)
    requires forall j :: 0 <= j < |f| ==> WellFormed(f[j].includes)
    requires WellFormed(x.includes)
    ensures forall j :: 0 <= j < |f + [x]| ==> WellFormed((f + [x])[j].includes)
  {
    var g := f + [x];
    forall j | 0 <= j < |g| ensures WellFormed(g[j].includes) {
      if j < |f| {
        assert g[j] == f[j];
      }
    }
  }

  /** Replacing an include by one with the same relation keeps the forest
      well formed. */
  lemma WellFormedReplace(f: seq<Include>, i: nat, x: Include)
    requires WellFormed(f) && i < |f| && WellFormed(x.includes) && x.relation == f[i].relation
    ensures WellFormed(f[i := x])
  {
    var g := f[i := x];
    assert forall j :: 0 <= j < |f| ==> Relations(g)[j] == Relations(f)[j];
    assert Relations(g) == Relations(f);
  }

  lemma {:induction false} InsertAllWellFormed(f: seq<Include>, chains: seq<seq<string>>)
    requires WellFormed(f)
    ensures WellFormed(InsertAll(f, chains))
    decreases |chains|
  {
    if chains != [] {
      InsertPathWellFormed(f, chains[0]);
      InsertAllWellFormed(InsertPath(f, chains[0]), chains[1..]);
    }
  }

  /** The forest holds the chain: each relation of it is found, the next
      one below the one before. */
  predicate Contains(f: seq<Include>, path: seq<string>)
    decreases |path|
  {
    path == [] ||
      (IndexOfRelation(f, path[0]) >= 0 && Contains(f[IndexOfRelation(f, path[0])].includes, path[1..]))
  }

  /** After an insert the chain is present. */
  lemma {:induction false} InsertPathContains(f: seq<Include>, path: seq<string>)
    ensures Contains(InsertPath(f, path), path)
    decreases |path|
  {
    if path != [] {
      var g := InsertPath(f, path);
      var i := IndexOfRelation(f, path[0]);
      InsertPathIndex(f, path, path[0]);
      if i < 0 {
        InsertPathContains([], path[1..]);
        assert g[|f|].includes == InsertPath([], path[1..]);
      } else {
        InsertPathContains(f[i].includes, path[1..]);
        assert g[i].includes == InsertPath(f[i].includes, path[1..]);
      }
    }
  }

  /** Inserting a chain that is already present changes nothing. */
  lemma {:induction false} InsertPathPresent(f: seq<Include>, path: seq<string>)
    requires Contains(f, path)
    ensures InsertPath(f, path) == f
    decreases |path|
  {
    if path != [] {
      var i := IndexOfRelation(f, path[0]);
      InsertPathPresent(f[i].includes, path[1..]);
      assert f[i] == Include(f[i].relation, f[i].includes);
    }
  }

  /** The includes below a chain of relations, when the forest holds the
      chain. */
  function Under(f: seq<Include>, path: seq<string>): Option<seq<Include>>
    decreases |path|
  {
    if path == [] then Some(f)
    else
      var i := IndexOfRelation(f, path[0]);
      if i < 0 then None else Under(f[i].includes, path[1..])
  }

  /** The relations listed directly below a chain, none when the forest
      lacks it. */
  function LevelOf(f: seq<Include>, path: seq<string>): seq<string>
  {
    var u := Under(f, path);
    if u.Some? then Relations(u.value) else []
  }

  /** `p` is a prefix of the chain `c`. */
  predicate IsPrefix(p: seq<string>, c: seq<string>)
  {
    |p| <= |c| && c[..|p|] == p
  }

  /** Some chain starts with `p`. */
  predicate Extended(chains: seq<seq<string>>, p: seq<string>)
  {
    exists k :: 0 <= k < |chains| && IsPrefix(p, chains[k])
  }

  /** The relations that come right after `p` in the chains that go on
      past it, in chain order. */
  function NextAfter(chains: seq<seq<string>>, p: seq<string>): seq<string>
  {
    if chains == [] then []
    else
      var last := chains[|chains| - 1];
      NextAfter(chains[..|chains| - 1], p) + (if |p| < |last| && last[..|p|] == p then [last[|p|]] else [])
  }

  /** A level after the chain `c` passed through it at depth `n`: the
      relation `c[n]` is added at the end when it is new there. */
  function Added(level: seq<string>, c: seq<string>, n: nat): seq<string>
  {
    if n < |c| && c[n] !in level then level + [c[n]] else level
  }

  /** A forest holds a chain exactly when there are includes below it. */
  lemma {:induction false} ContainsUnder(f: seq<Include>, path: seq<string>)
    ensures Contains(f, path) <==> Under(f, path).Some?
    decreases |path|
  {
    if path != [] {
      var i := IndexOfRelation(f, path[0]);
      if i >= 0 {
        ContainsUnder(f[i].includes, path[1..]);
      }
    }
  }

  /** A relation is found exactly when it is listed. */
  lemma IndexOfListed(f: seq<Include>, x: string)
    ensures IndexOfRelation(f, x) >= 0 <==> x in Relations(f)
  {
    if x in Relations(f) {
      var j :| 0 <= j < |f| && Relations(f)[j] == x;
      assert f[j].relation == x;
    }
  }

  /** Prefixes of chains that agree on their first relation. */
  lemma PrefixTail(p: seq<string>, c: seq<string>)
    requires p != [] && c != [] && p[0] == c[0]
    ensures IsPrefix(p, c) <==> IsPrefix(p[1..], c[1..])
  {
    if |p| <= |c| {
      if c[..|p|] == p {
        assert c[1..][..|p| - 1] == c[..|p|][1..];
      }
    }
  }

  /** What one insert does to the level below a chain `p`: when `p` is a
      prefix of the inserted chain, the level exists afterwards and gains
      the chain's next relation if new; any other part of the forest is
      left as it was. */
  lemma {:induction false} InsertPathUnder(f: seq<Include>, c: seq<string>, p: seq<string>)
    ensures IsPrefix(p, c) ==>
      Under(InsertPath(f, c), p).Some? && LevelOf(InsertPath(f, c), p) == Added(LevelOf(f, p), c, |p|)
    ensures !IsPrefix(p, c) ==> Under(InsertPath(f, c), p) == Under(f, p)
    decreases |c|
  {
    var g := InsertPath(f, c);
    if c == [] {
    } else if p == [] {
      InsertPathRelations(f, c);
      IndexOfListed(f, c[0]);
    } else {
      var i := IndexOfRelation(f, c[0]);
      InsertPathIndex(f, c, p[0]);
      if p[0] == c[0] {
        var base := if i >= 0 then f[i].includes else [];
        var j := if i >= 0 then i else |f|;
        InsertPathIndex(f, c, c[0]);
        assert g[j].includes == InsertPath(base, c[1..]);
        InsertPathUnder(base, c[1..], p[1..]);
        PrefixTail(p, c);
        assert Under(g, p) == Under(InsertPath(base, c[1..]), p[1..]);
        assert LevelOf(f, p) == LevelOf(base, p[1..]);
      } else {
        var k := IndexOfRelation(f, p[0]);
        if k >= 0 {
          assert g[k] == f[k];
        }
      }
    }
  }

  /** The levels of a forest built from chains: the chain `p` is held
      exactly when it is empty or some chain starts with it, and the
      relations below it are those that follow it in the chains, each once,
      in order of first appearance. */
  lemma {:induction false} ForestLevels(chains: seq<seq<string>>, p: seq<string>)
    ensures Under(InsertAll([], chains), p).Some? <==> p == [] || Extended(chains, p)
    ensures LevelOf(InsertAll([], chains), p) == Dedup(NextAfter(chains, p))
    decreases |chains|
  {
    if chains == [] {
      if p != [] {
        assert Under([], p) == None;
      }
    } else {
      var init := chains[..|chains| - 1];
      var last := chains[|chains| - 1];
      ForestLevels(init, p);
      assert chains == init + [last];
      ForestLevelsStep(init, last, p);
    }
  }

  /** The step of ForestLevels: one more chain at the end. */
  lemma ForestLevelsStep(init: seq<seq<string>>, last: seq<string>, p: seq<string>)
    requires Under(InsertAll([], init), p).Some? <==> p == [] || Extended(init, p)
    requires LevelOf(InsertAll([], init), p) == Dedup(NextAfter(init, p))
    ensures Under(InsertAll([], init + [last]), p).Some? <==> p == [] || Extended(init + [last], p)
    ensures LevelOf(InsertAll([], init + [last]), p) == Dedup(NextAfter(init + [last], p))
  {
    var chains := init + [last];
    var f := InsertAll([], init);
    InsertAllConcat([], init, [last]);
    assert InsertAll(f, [last]) == InsertPath(f, last) by {
      assert [last][1..] == [];
    }
    InsertPathUnder(f, last, p);
    ExtendedSnoc(init, last, p);
    assert chains[..|chains| - 1] == init;
    if |p| < |last| && last[..|p|] == p {
      assert NextAfter(chains, p) == NextAfter(init, p) + [last[|p|]];
      DedupSnoc(NextAfter(init, p), last[|p|]);
    } else {
      assert NextAfter(chains, p) == NextAfter(init, p) + [] == NextAfter(init, p);
    }
  }

  /** Some chain of `init + [last]` starts with `p` exactly when one of
      `init` does or `last` does. */
  lemma ExtendedSnoc(init: seq<seq<string>>, last: seq<string>, p: seq<string>)
    ensures Extended(init + [last], p) <==> Extended(init, p) || IsPrefix(p, last)
  {
    var chains := init + [last];
    if Extended(init, p) {
      var k :| 0 <= k < |init| && IsPrefix(p, init[k]);
      assert chains[k] == init[k];
    }
    if IsPrefix(p, last) {
      assert chains[|init|] == last;
    }
    if Extended(chains, p) {
      var k :| 0 <= k < |chains| && IsPrefix(p, chains[k]);
      if k < |init| {
        assert chains[k] == init[k];
      }
    }
  }

  /** The content of a forest built from chains: every chain is in it, a
      chain is in it only when some chain starts with it, and below every
      chain it holds sit the relations that follow it in the chains, each
      once, in order of first appearance. */
  lemma ForestContent(chains: seq<seq<string>>)
    ensures var forest := InsertAll([], chains);
      && (forall k :: 0 <= k < |chains| ==> Contains(forest, chains[k]))
      && (forall p :: Contains(forest, p) <==> p == [] || Extended(chains, p))
      && (forall p :: LevelOf(forest, p) == Dedup(NextAfter(chains, p)))
  {
    var forest := InsertAll([], chains);
    forall p
      ensures (Contains(forest, p) <==> p == [] || Extended(chains, p))
      ensures LevelOf(forest, p) == Dedup(NextAfter(chains, p))
    {
      ForestLevels(chains, p);
      ContainsUnder(forest, p);
    }
    forall k | 0 <= k < |chains| ensures Contains(forest, chains[k]) {
      assert IsPrefix(chains[k], chains[k]);
      assert Extended(chains, chains[k]);
    }
  }

  /** initIncludes: no `include` key gives no list; otherwise the roots are
      the root relations of all chains once each, in order of first
      appearance, no level of the forest repeats a relation, every chain
      asked for is in the forest and nothing else is, and below each chain
      sit the relations that follow it in the chains, in order of first
      appearance. */
  lemma IncludesShape(values: Values)
    ensures IncludesOf(values).None? <==> IncludeKeyword !in values
    ensures IncludesOf(values).Some? ==>
      var chains := IncludeChains(values[IncludeKeyword]);
      var forest := IncludesOf(values).value;
      && (forall k :: 0 <= k < |chains| ==> chains[k] != [])
      && Relations(forest) == Dedup(Heads(chains))
      && WellFormed(forest)
      && (forall k :: 0 <= k < |chains| ==> Contains(forest, chains[k]))
      && (forall p :: Contains(forest, p) <==> p == [] || Extended(chains, p))
      && (forall p :: LevelOf(forest, p) == Dedup(NextAfter(chains, p)))
  {
    if IncludeKeyword in values {
      var chains := IncludeChains(values[IncludeKeyword]);
      IncludeChainsNonEmpty(values[IncludeKeyword]);
      RootsInOrder(chains);
      InsertAllWellFormed([], chains);
      ForestContent(chains);
    }
  }

  /** The example of the source: the value
      "author,comments.author,comments.replies" gives `author`, then
      `comments` with `author` and `replies` below it. */
  lemma MergeExample(v: Value)
    requires v == Value(IncludeKeyword, None, "author,comments.author,comments.replies")
    ensures IncludesOf(map[IncludeKeyword := [v]]) ==
      Some([Include("author", []), Include("comments", [Include("author", []), Include("replies", [])])])
  {
    ExampleChains(v);
    MergeFirstThree();
  }

  /** The chains of the source's example value. */
  lemma ExampleChains(v: Value)
    requires v == Value(IncludeKeyword, None, "author,comments.author,comments.replies")
    ensures IncludeChains([v]) == [["author"], ["comments", "author"], ["comments", "replies"]]
  {
    ExampleItems();
    OneValueChains(v, ["author", "comments.author", "comments.replies"]);
    ChainsOfThree("author", "comments.author", "comments.replies");
    ChainAuthor();
    ChainCommentsAuthor();
    ChainCommentsReplies();
  }

  /** The chains of a single occurrence without nested keys. */
  lemma OneValueChains(v: Value, items: seq<string>)
    requires Unnested(v) && Items(v.value, RelationDelimiter) == items
    ensures IncludeChains([v]) == ChainsOf(items)
  {
    assert [v][..0] == [];
  }

  /** The chains of one item. */
  lemma ChainsOfOne(a: string)
    ensures ChainsOf([a]) == [DotPath(a)]
  {
  }

  /** The chains of two items. */
  lemma ChainsOfTwo(a: string, b: string)
    ensures ChainsOf([a, b]) == [DotPath(a), DotPath(b)]
  {
  }

  /** The chains of three items. */
  lemma ChainsOfThree(a: string, b: string, c: string)
    ensures ChainsOf([a, b, c]) == [DotPath(a), DotPath(b), DotPath(c)]
  {
  }

  /** The comma items of the source's example value. */
  lemma ExampleItems()
    ensures Items("author,comments.author,comments.replies", RelationDelimiter) ==
      ["author", "comments.author", "comments.replies"]
  {
    ExampleText();
    ItemsTriple("author", "comments.author", "comments.replies", RelationDelimiter);
  }

  lemma ExampleText()
    ensures "author,comments.author,comments.replies" ==
      "author" + [RelationDelimiter] + ("comments.author" + [RelationDelimiter] + "comments.replies")
  {
  }

  lemma ChainAuthor()
    ensures DotPath("author") == ["author"]
  {
    DotOne("author");
  }

  lemma ChainCommentsAuthor()
    ensures DotPath("comments.author") == ["comments", "author"]
  {
    assert "comments.author" == "comments" + [NestedRelationDelimiter] + "author";
    DotPair("comments", "author");
  }

  lemma ChainCommentsReplies()
    ensures DotPath("comments.replies") == ["comments", "replies"]
  {
    assert "comments.replies" == "comments" + [NestedRelationDelimiter] + "replies";
    DotPair("comments", "replies");
  }

  lemma ChainAuthorAvatar()
    ensures DotPath("author.avatar") == ["author", "avatar"]
  {
    assert "author.avatar" == "author" + [NestedRelationDelimiter] + "avatar";
    DotPair("author", "avatar");
  }

  /** A dotted text of two non-empty relations. */
  lemma DotPair(a: string, b: string)
    requires a != "" && b != ""
    requires NestedRelationDelimiter !in a && NestedRelationDelimiter !in b
    ensures DotPath(a + [NestedRelationDelimiter] + b) == [a, b]
  {
    DotPathJoin([a, b]);
    assert [a, b][1..] == [b];
  }

  /** A text without `.` is a single relation. */
  lemma DotOne(a: string)
    requires a != "" && NestedRelationDelimiter !in a
    ensures DotPath(a) == [a]
  {
    DotPathJoin([a]);
  }

  /** The first three chains of the examples merge `replies` under the
      existing `comments`. */
  lemma MergeFirstThree()
    ensures InsertAll([], [["author"], ["comments", "author"], ["comments", "replies"]]) ==
      [Include("author", []), Include("comments", [Include("author", []), Include("replies", [])])]
  {
    var author, replies := Include("author", []), Include("replies", []);
    var chains := [["author"], ["comments", "author"], ["comments", "replies"]];
    var f1 := [author];
    var f2 := [author, Include("comments", [author])];
    var f3 := [author, Include("comments", [author, replies])];
    MergeSecond();
    MergeThird();
    assert chains[1..][1..][1..] == [];
    assert InsertAll([], chains) == InsertAll(f1, chains[1..]);
    assert InsertAll(f1, chains[1..]) == InsertAll(f2, chains[1..][1..]);
    assert InsertAll(f2, chains[1..][1..]) == InsertAll(f3, []);
  }

  /** Three `include` occurrences "author,comments.author",
      "comments.replies" and "author.avatar" merge into two roots:
      `author` with `avatar` below it, and `comments` with `author` and
      `replies` below it. */
  lemma FragmentMergeExample(v1: Value, v2: Value, v3: Value)
    requires v1 == Value(IncludeKeyword, None, "author,comments.author")
    requires v2 == Value(IncludeKeyword, None, "comments.replies")
    requires v3 == Value(IncludeKeyword, None, "author.avatar")
    ensures IncludesOf(map[IncludeKeyword := [v1, v2, v3]]) ==
      Some([Include("author", [Include("avatar", [])]),
            Include("comments", [Include("author", []), Include("replies", [])])])
  {
    FragmentChains(v1, v2, v3);
    var author, replies := Include("author", []), Include("replies", []);
    var chains := [["author"], ["comments", "author"], ["comments", "replies"]];
    var f3 := [author, Include("comments", [author, replies])];
    MergeFirstThree();
    MergeFourth();
    InsertAllConcat([], chains, [["author", "avatar"]]);
    assert chains + [["author", "avatar"]] ==
      [["author"], ["comments", "author"], ["comments", "replies"], ["author", "avatar"]];
    assert InsertAll(f3, [["author", "avatar"]]) == InsertPath(f3, ["author", "avatar"]) by {
      assert [["author", "avatar"]][1..] == [];
    }
  }

  /** The chains the three occurrences give, in order. */
  lemma FragmentChains(v1: Value, v2: Value, v3: Value)
    requires v1 == Value(IncludeKeyword, None, "author,comments.author")
    requires v2 == Value(IncludeKeyword, None, "comments.replies")
    requires v3 == Value(IncludeKeyword, None, "author.avatar")
    ensures IncludeChains([v1, v2, v3]) ==
      [["author"], ["comments", "author"], ["comments", "replies"], ["author", "avatar"]]
  {
    FirstFragment(v1);
    SecondFragment(v2);
    ThirdFragment(v3);
    ThreeValueChains(v1, v2, v3, [["author"], ["comments", "author"]], [["comments", "replies"]], [["author", "avatar"]]);
  }

  /** The chains of three occurrences, the last two without nested keys. */
  lemma ThreeValueChains(v1: Value, v2: Value, v3: Value, c1: seq<seq<string>>, c2: seq<seq<string>>, c3: seq<seq<string>>)
    requires IncludeChains([v1]) == c1
    requires Unnested(v2) && ChainsOf(Items(v2.value, RelationDelimiter)) == c2
    requires Unnested(v3) && ChainsOf(Items(v3.value, RelationDelimiter)) == c3
    ensures IncludeChains([v1, v2, v3]) == c1 + c2 + c3
  {
    ChainsSnoc([v1], v2, Items(v2.value, RelationDelimiter));
    ChainsSnoc([v1, v2], v3, Items(v3.value, RelationDelimiter));
    assert [v1] + [v2] == [v1, v2] && [v1, v2, v3] == [v1, v2] + [v3];
  }

  lemma FirstFragment(v1: Value)
    requires v1 == Value(IncludeKeyword, None, "author,comments.author")
    ensures IncludeChains([v1]) == [["author"], ["comments", "author"]]
  {
    FragmentItems();
    OneValueChains(v1, ["author", "comments.author"]);
    ChainsOfTwo("author", "comments.author");
    ChainAuthor();
    ChainCommentsAuthor();
  }

  lemma SecondFragment(v2: Value)
    requires v2 == Value(IncludeKeyword, None, "comments.replies")
    ensures Unnested(v2) && ChainsOf(Items(v2.value, RelationDelimiter)) == [["comments", "replies"]]
  {
    ItemsOne("comments.replies", RelationDelimiter);
    ChainsOfOne("comments.replies");
    ChainCommentsReplies();
  }

  lemma ThirdFragment(v3: Value)
    requires v3 == Value(IncludeKeyword, None, "author.avatar")
    ensures Unnested(v3) && ChainsOf(Items(v3.value, RelationDelimiter)) == [["author", "avatar"]]
  {
    ItemsOne("author.avatar", RelationDelimiter);
    ChainsOfOne("author.avatar");
    ChainAuthorAvatar();
  }

  /** One more occurrence without nested keys adds the chains of its
      items. */
  lemma ChainsSnoc(vs: seq<Value>, v: Value, items: seq<string>)
    requires Unnested(v) && Items(v.value, RelationDelimiter) == items
    ensures IncludeChains(vs + [v]) == IncludeChains(vs) + ChainsOf(items)
  {
    assert (vs + [v])[..|vs|] == vs;
  }

  /** The comma items of the first occurrence. */
  lemma FragmentItems()
    ensures Items("author,comments.author", RelationDelimiter) == ["author", "comments.author"]
  {
    assert "author,comments.author" == "author" + [RelationDelimiter] + "comments.author";
    ItemsPair("author", "comments.author", RelationDelimiter);
  }

  /** The fourth chain adds `avatar` below the existing `author` root. */
  lemma MergeFourth()
    ensures var author, replies := Include("author", []), Include("replies", []);
      InsertPath([author, Include("comments", [author, replies])], ["author", "avatar"]) ==
        [Include("author", [Include("avatar", [])]), Include("comments", [author, replies])]
  {
    var author, replies := Include("author", []), Include("replies", []);
    var f3 := [author, Include("comments", [author, replies])];
    assert IndexOfRelation(f3, "author") == 0;
    assert InsertPath([], ["avatar"]) == [Include("avatar", [])] by {
      assert ["avatar"][1..] == [];
    }
  }

  /** The second chain of the example adds `comments` with `author` below. */
  lemma MergeSecond()
    ensures InsertPath([Include("author", [])], ["comments", "author"]) ==
      [Include("author", []), Include("comments", [Include("author", [])])]
  {
    var author := Include("author", []);
    assert IndexOfRelation([author], "comments") == -1;
    assert InsertPath([], ["author"]) == [author];
  }

  /** The third chain of the example merges `replies` below `comments`. */
  lemma MergeThird()
    ensures var author := Include("author", []);
      InsertPath([author, Include("comments", [author])], ["comments", "replies"]) ==
        [author, Include("comments", [author, Include("replies", [])])]
  {
    var author, replies := Include("author", []), Include("replies", []);
    var f2 := [author, Include("comments", [author])];
    assert IndexOfRelation(f2, "comments") == 1;
    assert IndexOfRelation([author], "replies") == -1;
    assert InsertPath([author], ["replies"]) == [author, replies] by {
      assert ["replies"][1..] == [];
    }
  }
}
