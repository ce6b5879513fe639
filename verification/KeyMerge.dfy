/**
 * Merging a patch by key, as the schema-aware tool downstream does, against merging it by position,
 * as the policy generator does.
 */
module KeyMerge {
  import opened Options
  import opened Yaml
  import opened Merge
  import opened MergeKeys

  // ---------- strategic merge ----------

  /** Maps merge field by field, a null deletes a field, anything else is replaced. */
  function PatchNode(source: Yaml, patch: Yaml): Yaml
    decreases source
  {
    if source.Map? && patch.Map? then Map(PatchMaps(source.entries, patch.entries)) else patch
  }

  function PatchMaps(source: Mapping, patch: Mapping): Mapping
    decreases Map(source), 0
  {
    map name | name in source.Keys + patch.Keys && !(name in patch && patch[name] == Null) ::
      if name !in patch then source[name]
      else if name in source then PatchNode(source[name], patch[name])
      else patch[name]
  }

  type Items = seq<Mapping>

  /** The position of the item whose `key` field equals the one of `item`. */
  function Find(items: Items, item: Mapping, key: string): (found: Option<nat>)
    ensures found.Some? ==> found.value < |items| && SameKey(items[found.value], item, key)
    ensures found.None? ==> forall i :: 0 <= i < |items| ==> !SameKey(items[i], item, key)
  {
    if items == [] then None
    else if SameKey(items[0], item, key) then Some(0)
    else match Find(items[1..], item, key)
      case None => None
      case Some(i) => Some(i + 1)
  }

  predicate SameKey(a: Mapping, b: Mapping, key: string) {
    key in a && key in b && a[key] == b[key]
  }

  /** Items already there, and items added; where the added ones go is left to the tool. */
  datatype Merged = Merged(kept: Items, added: Items)

  function PatchItem(state: Merged, item: Mapping, key: string): Merged {
    match Find(state.kept, item, key)
    case Some(i) => state.(kept := state.kept[i := PatchMaps(state.kept[i], item)])
    case None =>
      match Find(state.added, item, key)
      case Some(i) => state.(added := state.added[i := PatchMaps(state.added[i], item)])
      case None => state.(added := state.added + [item])
  }

  function PatchByKey(state: Merged, patch: Items, key: string): Merged
    decreases |patch|
  {
    if patch == [] then state else PatchByKey(PatchItem(state, patch[0], key), patch[1..], key)
  }

  // ---------- when the two formats agree ----------

  function AsNodes(items: Items): (nodes: seq<Yaml>)
    ensures |nodes| == |items| && forall i :: 0 <= i < |items| ==> nodes[i] == Map(items[i])
  {
    seq(|items|, i requires 0 <= i < |items| => Map(items[i]))
  }

  /** The entries of a list of maps. */
  function EntriesOf(nodes: seq<Yaml>): (items: Items)
    requires AllMaps(nodes)
    ensures |items| == |nodes| && forall i :: 0 <= i < |nodes| ==> items[i] == nodes[i].entries
    ensures AsNodes(items) == nodes
  {
    seq(|nodes|, i requires 0 <= i < |nodes| => nodes[i].entries)
  }

  /** Merging the patch into the source gives the patch: every source key that survives is set, and covered itself. */
  ghost predicate Covered(source: Yaml, patch: Yaml)
    decreases source
  {
    if source.Map? && patch.Map? then
      forall name :: name in source.entries ==>
        if name !in patch.entries then IsPlaceholder(source.entries[name])
        else if patch.entries[name] == Null then source.entries[name] == Null || IsPlaceholder(source.entries[name])
        else Covered(source.entries[name], patch.entries[name])
    else
      IsMapList(source) && patch.List? ==>
        && |source.items| <= |patch.items|
        && forall i :: 0 <= i < |source.items| ==> Covered(source.items[i], patch.items[i])
  }

  lemma {:induction false} CoveredExactly(source: Yaml, patch: Yaml)
    ensures MergeNode(source, patch) == patch <==> Covered(source, patch)
    decreases source
  {
    if source.Map? && patch.Map? {
      var s, v := source.entries, patch.entries;
      forall name
        ensures Entry(MergeMaps(s, v), name) == Entry(v, name) <==>
                (name in s ==>
                   if name !in v then IsPlaceholder(s[name])
                   else if v[name] == Null then s[name] == Null || IsPlaceholder(s[name])
                   else Covered(s[name], v[name]))
      {
        if name in s && name in v { CoveredExactly(s[name], v[name]); }
      }
      if Covered(source, patch) {
        EqualEntries(MergeMaps(s, v), v);
      }
    } else if IsMapList(source) && patch.List? {
      CoveredItems(source.items, patch.items);
    }
  }

  lemma {:induction false} CoveredItems(source: seq<Yaml>, patch: seq<Yaml>)
    ensures MergeLists(source, patch) == patch <==>
            |source| <= |patch| && forall i :: 0 <= i < |source| ==> Covered(source[i], patch[i])
    decreases source
  {
    hide MergeNode, MergeLists, Covered;
    var merged := MergeLists(source, patch);
    if |source| <= |patch| {
      forall i | 0 <= i < |patch|
        ensures merged[i] == patch[i] <==> (i < |source| ==> Covered(source[i], patch[i]))
      {
        MergeListsAt(source, patch, i);
        if i < |source| { CoveredExactly(source[i], patch[i]); }
      }
      if merged == patch {
        forall i | 0 <= i < |source| ensures Covered(source[i], patch[i]) { assert merged[i] == patch[i]; }
      }
    } else {
      assert |merged| == |source|;
    }
  }

  /**
   * Where the merges descend: the source has placeholders only under keys the patch sets, the patch has no null, and
   * a list of maps in the patch already is what merging it by position gives.
   */
  ghost predicate MergedAlike(source: Yaml, patch: Yaml)
    decreases source
  {
    if source.Map? && patch.Map? then
      && (forall name :: name in source.entries && name !in patch.entries ==> !IsPlaceholder(source.entries[name]))
      && (forall name :: name in patch.entries ==>
            && patch.entries[name] != Null
            && (name in source.entries ==> MergedAlike(source.entries[name], patch.entries[name])))
    else IsMapList(source) && patch.List? ==> Covered(source, patch)
  }

  /** That is exactly when the two merges agree. */
  lemma {:induction false} MergesAgree(source: Yaml, patch: Yaml)
    ensures MergeNode(source, patch) == PatchNode(source, patch) <==> MergedAlike(source, patch)
    decreases source
  {
    if source.Map? && patch.Map? {
      MapsAgree(source.entries, patch.entries);
    } else {
      CoveredExactly(source, patch);
    }
  }

  lemma {:induction false} MapsAgree(source: Mapping, patch: Mapping)
    ensures MergeMaps(source, patch) == PatchMaps(source, patch) <==> MergedAlike(Map(source), Map(patch))
    decreases Map(source), 0
  {
    var merged, patched := MergeMaps(source, patch), PatchMaps(source, patch);
    forall name
      ensures Entry(merged, name) == Entry(patched, name) <==>
              && (name in source && name !in patch ==> !IsPlaceholder(source[name]))
              && (name in patch ==> patch[name] != Null && (name in source ==> MergedAlike(source[name], patch[name])))
    {
      if name in source && name in patch { MergesAgree(source[name], patch[name]); }
    }
    if MergedAlike(Map(source), Map(patch)) {
      EqualEntries(merged, patched);
    }
  }

  /** The smallest null that matters: one merge keeps the source value, the other deletes the field. */
  lemma NullsDisagree(name: string)
    ensures var source, patch := map[name := Scalar(1)], map[name := Null];
            MergeMaps(source, patch) == source && PatchMaps(source, patch) == map[]
  {
    assert MergeMaps(map[name := Scalar(1)], map[name := Null]) == map[name := Scalar(1)];
  }

  /** Source items carry distinct string or scalar keys that are no placeholders. */
  ghost predicate KeyedSource(source: Items, key: string) {
    && (forall i :: 0 <= i < |source| ==>
          key in source[i] && IsLeaf(source[i][key]) && !IsPlaceholder(source[i][key]))
    && (forall i, j :: 0 <= i < j < |source| ==> source[i][key] != source[j][key])
  }

  /** A patch item has the key of the source item at its position, or none; items past the source have fresh ones. */
  ghost predicate KeyedPatch(source: Items, patch: Items, key: string)
    requires forall i :: 0 <= i < |source| ==> key in source[i]
  {
    && (forall i :: 0 <= i < |patch| && i < |source| && key in patch[i] ==> patch[i][key] == source[i][key])
    && (forall i :: |source| <= i < |patch| ==>
          key in patch[i] && (forall j :: 0 <= j < |source| ==> patch[i][key] != source[j][key]))
    && (forall i, j :: |source| <= i < j < |patch| ==> patch[i][key] != patch[j][key])
  }

  /** The items of a patch once the key has been injected. */
  function Injected(patch: Items, source: Items, key: string): (r: Items)
    ensures |r| == |patch| && AsNodes(r) == InjectItems(AsNodes(patch), AsNodes(source), key)
    ensures forall i :: 0 <= i < |patch| ==>
                          r[i] == if key !in patch[i] && i < |source| && key in source[i]
                                  then patch[i][key := source[i][key]] else patch[i]
  {
    EntriesOf(InjectItems(AsNodes(patch), AsNodes(source), key))
  }

  /** What has been merged once the first `n` patch items are in. */
  ghost function MergedUpTo(source: Items, patch: Items, key: string, n: nat): Merged
    requires n <= |patch|
  {
    Merged(seq(|source|, j requires 0 <= j < |source| =>
             if j < n then PatchMaps(source[j], Injected(patch, source, key)[j]) else source[j]),
           if n <= |source| then [] else patch[|source|..n])
  }

  lemma KeyKept(source: Mapping, item: Mapping, key: string)
    requires key in source && IsLeaf(source[key]) && key in item && item[key] == source[key]
    ensures key in PatchMaps(source, item) && PatchMaps(source, item)[key] == source[key]
  {
  }

  lemma KeptKeys(source: Items, patch: Items, key: string, n: nat, j: nat)
    requires KeyedSource(source, key) && KeyedPatch(source, patch, key) && n <= |patch| && j < |source|
    ensures var kept := MergedUpTo(source, patch, key, n).kept; key in kept[j] && kept[j][key] == source[j][key]
  {
    if j < n { KeyKept(source[j], Injected(patch, source, key)[j], key); }
  }

  /** All kept items have their source keys. */
  ghost predicate KeysKept(source: Items, kept: Items, key: string) {
    && |kept| == |source|
    && forall j :: 0 <= j < |source| ==> key in source[j] && key in kept[j] && kept[j][key] == source[j][key]
  }

  lemma AllKeysKept(source: Items, patch: Items, key: string, n: nat)
    requires KeyedSource(source, key) && KeyedPatch(source, patch, key) && n <= |patch|
    ensures KeysKept(source, MergedUpTo(source, patch, key, n).kept, key)
  {
    hide PatchMaps, Injected, KeyedPatch;
    forall j | 0 <= j < |source|
      ensures key in MergedUpTo(source, patch, key, n).kept[j]
      ensures MergedUpTo(source, patch, key, n).kept[j][key] == source[j][key]
    {
      KeptKeys(source, patch, key, n, j);
    }
  }

  /** An item finds the kept item with its key. */
  lemma FindsKept(source: Items, kept: Items, item: Mapping, key: string, n: nat)
    requires KeyedSource(source, key) && KeysKept(source, kept, key) && n < |source|
    requires key in item && item[key] == source[n][key]
    ensures Find(kept, item, key) == Some(n)
  {
    hide Find;
    assert SameKey(kept[n], item, key);
    var found := Find(kept, item, key).value;
    assert source[found][key] == source[n][key];
  }

  /** A patch item past the source finds nothing. */
  lemma FindsNothing(source: Items, kept: Items, patch: Items, key: string, n: nat)
    requires KeyedSource(source, key) && KeyedPatch(source, patch, key) && KeysKept(source, kept, key)
    requires |source| <= n < |patch|
    ensures Find(kept, patch[n], key).None? && Find(patch[|source|..n], patch[n], key).None?
  {
    hide Find;
  }

  lemma PatchItemStep(source: Items, patch: Items, key: string, n: nat)
    requires KeyedSource(source, key) && KeyedPatch(source, patch, key) && n < |patch|
    ensures PatchItem(MergedUpTo(source, patch, key, n), Injected(patch, source, key)[n], key) ==
            MergedUpTo(source, patch, key, n + 1)
  {
    hide PatchMaps, Injected, KeysKept, Find;
    var state, item := MergedUpTo(source, patch, key, n), Injected(patch, source, key)[n];
    AllKeysKept(source, patch, key, n);
    if n < |source| {
      FindsKept(source, state.kept, item, key, n);
      assert state.kept[n := PatchMaps(state.kept[n], item)] == MergedUpTo(source, patch, key, n + 1).kept;
    } else {
      FindsNothing(source, state.kept, patch, key, n);
      assert state.added + [item] == patch[|source|..n + 1];
      assert state.kept == MergedUpTo(source, patch, key, n + 1).kept;
    }
  }

  lemma {:induction false} PatchSweep(source: Items, patch: Items, key: string, n: nat)
    requires KeyedSource(source, key) && KeyedPatch(source, patch, key) && n <= |patch|
    ensures PatchByKey(MergedUpTo(source, patch, key, n), Injected(patch, source, key)[n..], key) ==
            MergedUpTo(source, patch, key, |patch|)
    decreases |patch| - n
  {
    hide KeyedSource, KeyedPatch, MergedUpTo, PatchItem, Injected;
    if n < |patch| {
      PatchItemStep(source, patch, key, n);
      PatchSweep(source, patch, key, n + 1);
      assert Injected(patch, source, key)[n..][1..] == Injected(patch, source, key)[n + 1..];
    }
  }

  /** Injecting the source's own key changes neither what the positional merge gives nor whether the merges agree. */
  lemma KeyAgrees(source: Mapping, patch: Mapping, key: string)
    requires key in source && IsLeaf(source[key]) && !IsPlaceholder(source[key]) && key !in patch
    ensures MergeMaps(source, patch[key := source[key]]) == MergeMaps(source, patch)
    ensures MergedAlike(Map(source), Map(patch[key := source[key]])) <==> MergedAlike(Map(source), Map(patch))
  {
    var item := patch[key := source[key]];
    assert MergeMaps(source, item) == MergeMaps(source, patch);
    assert forall name :: name in patch ==> name in item && item[name] == patch[name];
    assert forall name :: name in item && name != key ==> name in patch;
  }

  /** At one position: with the key injected, the two merges agree exactly if they do on the patch item. */
  lemma ItemsAgree(source: Mapping, patch: Mapping, item: Mapping, key: string)
    requires key in source && IsLeaf(source[key]) && !IsPlaceholder(source[key])
    requires key in patch ==> patch[key] == source[key]
    requires item == if key in patch then patch else patch[key := source[key]]
    ensures PatchMaps(source, item) == MergeMaps(source, patch) <==> MergedAlike(Map(source), Map(patch))
  {
    hide PatchMaps, MergeMaps, MergedAlike;
    MapsAgree(source, item);
    if key !in patch { KeyAgrees(source, patch, key); }
  }

  /** The merges agree at every position both lists have. */
  ghost predicate ItemsAlike(source: Items, patch: Items) {
    forall i :: 0 <= i < |source| && i < |patch| ==> MergedAlike(Map(source[i]), Map(patch[i]))
  }

  /**
   * Merging the injected patch by key gives the items of the positional merge of the original patch, the source
   * items in their places and then the items the patch adds, exactly if the two merges agree at every position.
   */
  lemma InjectionPreservesMeaning(source: Items, patch: Items, key: string)
    requires KeyedSource(source, key) && KeyedPatch(source, patch, key)
    ensures var result := PatchByKey(Merged(source, []), Injected(patch, source, key), key);
            && |result.kept| == |source|
            && (AsNodes(result.kept + result.added) == MergeLists(AsNodes(source), AsNodes(patch))
                <==> ItemsAlike(source, patch))
  {
    hide PatchMaps, MergeMaps, MergedAlike, Injected, PatchByKey;
    assert Injected(patch, source, key)[0..] == Injected(patch, source, key);
    assert MergedUpTo(source, patch, key, 0) == Merged(source, []);
    PatchSweep(source, patch, key, 0);
    var result := MergedUpTo(source, patch, key, |patch|);
    var nodes, merged := AsNodes(result.kept + result.added), MergeLists(AsNodes(source), AsNodes(patch));
    assert |nodes| == |merged|;
    forall i | 0 <= i < |merged|
      ensures nodes[i] == merged[i] <==> (i < |source| && i < |patch| ==> MergedAlike(Map(source[i]), Map(patch[i])))
    {
      PositionsAgree(source, patch, key, i);
    }
    if nodes == merged {
      forall i | 0 <= i < |source| && i < |patch| ensures MergedAlike(Map(source[i]), Map(patch[i])) {
        assert nodes[i] == merged[i];
      }
    }
  }

  lemma PositionsAgree(source: Items, patch: Items, key: string, i: nat)
    requires KeyedSource(source, key) && KeyedPatch(source, patch, key)
    requires i < |MergeLists(AsNodes(source), AsNodes(patch))|
    ensures var result := MergedUpTo(source, patch, key, |patch|);
            && i < |result.kept + result.added|
            && (AsNodes(result.kept + result.added)[i] == MergeLists(AsNodes(source), AsNodes(patch))[i] <==>
                  (i < |source| && i < |patch| ==> MergedAlike(Map(source[i]), Map(patch[i]))))
  {
    hide PatchMaps, MergeMaps, MergedAlike, Injected, MergeLists;
    MergeListsAt(AsNodes(source), AsNodes(patch), i);
    if i < |source| && i < |patch| {
      ItemsAgree(source[i], patch[i], Injected(patch, source, key)[i], key);
    }
  }
}
