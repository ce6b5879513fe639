/** Whole patches: injecting all merge keys and merging by key, against the policy generator's merge by position. */
module StrategicMerge {
  import opened Options
  import opened Yaml
  import opened Merge
  import opened MergeKeys
  import opened KeyMerge

  type Properties = map<string, Property>

  /** What the schema says about the fields inside a field. */
  function Inside(props: Properties, name: string): Properties {
    if name in props then props[name].properties else map[]
  }

  predicate IsKeyed(props: Properties, name: string) {
    name in props && HasMergeKey(props[name])
  }

  // ---------- the schema-aware merge ----------

  /** A list of maps in the source, met by a list of maps in a patch, at a field with a merge key. */
  predicate MergedByKey(props: Properties, name: string, source: Yaml, patch: Yaml) {
    IsKeyed(props, name) && IsMapList(source) && AllMaps(source.items) && patch.List? && AllMaps(patch.items)
  }

  /**
   * Lists with a merge key are merged by it; maps are merged field by field; a null deletes; anything else is replaced.
   */
  function StrategicMaps(props: Properties, source: Mapping, patch: Mapping): Mapping
    decreases Map(source), 0
  {
    map name | name in source.Keys + patch.Keys && !(name in patch && patch[name] == Null) ::
      if name !in patch then source[name]
      else if name in source then StrategicField(props, name, source[name], patch[name])
      else patch[name]
  }

  function StrategicField(props: Properties, name: string, source: Yaml, patch: Yaml): Yaml
    decreases source, 1
  {
    if source.Map? && patch.Map? then Map(StrategicMaps(Inside(props, name), source.entries, patch.entries))
    else if MergedByKey(props, name, source, patch) then
      var merged := PatchByKey(Merged(EntriesOf(source.items), []), EntriesOf(patch.items), props[name].mergeKey);
      List(AsNodes(merged.kept + merged.added))
    else patch
  }

  // ---------- what all injections do to one field ----------

  /** The keys injected into the list under `name`. */
  function Own(targets: seq<Target>, name: string): seq<string>
    requires Usable(targets)
  {
    if targets == [] then []
    else (if targets[0].parts == [name] then [targets[0].key] else []) + Own(targets[1..], name)
  }

  /** The injections below the map under `name`. */
  function Below(targets: seq<Target>, name: string): (r: seq<Target>)
    requires Usable(targets)
    ensures Usable(r)
  {
    if targets == [] then []
    else
      var t := targets[0];
      (if |t.parts| > 1 && t.parts[0] == name then [Target(t.parts[1..], t.key)] else []) + Below(targets[1..], name)
  }

  function InjectKeys(items: seq<Yaml>, source: seq<Yaml>, keys: seq<string>): seq<Yaml>
    decreases |keys|
  {
    if keys == [] then items else InjectKeys(InjectItems(items, source, keys[0]), source, keys[1..])
  }

  function FieldInjected(patch: Mapping, source: Mapping, targets: seq<Target>, name: string): Yaml
    requires Usable(targets) && name in patch
  {
    if patch[name].Map? && name in source && source[name].Map?
    then Map(InjectAll(patch[name].entries, source[name].entries, Below(targets, name)))
    else if HasItems(patch, name) && HasItems(source, name)
    then List(InjectKeys(patch[name].items, source[name].items, Own(targets, name)))
    else patch[name]
  }

  /** One injection, seen from one field. */
  lemma InjectField(patch: Mapping, source: Mapping, target: Target, name: string)
    requires target.parts != []
    ensures Inject(patch, source, target.parts, target.key).Keys == patch.Keys
    ensures name in patch ==>
              var after, parts := Inject(patch, source, target.parts, target.key)[name], target.parts;
              after ==
              if patch[name].Map? && name in source && source[name].Map? && |parts| > 1 && parts[0] == name
              then Map(Inject(patch[name].entries, source[name].entries, parts[1..], target.key))
              else if HasItems(patch, name) && HasItems(source, name) && parts == [name]
              then List(InjectItems(patch[name].items, source[name].items, target.key))
              else patch[name]
  {
  }

  /** The first injection, and what is left to do. */
  lemma FieldNext(patch: Mapping, source: Mapping, targets: seq<Target>, name: string)
    requires Usable(targets) && targets != [] && name in patch
    ensures name in Inject(patch, source, targets[0].parts, targets[0].key)
    ensures FieldInjected(Inject(patch, source, targets[0].parts, targets[0].key), source, targets[1..], name) ==
            FieldInjected(patch, source, targets, name)
  {
    var t := targets[0];
    InjectField(patch, source, t, name);
    var next := Inject(patch, source, t.parts, t.key);
    hide Inject;
    var own, rest := Own(targets, name), Own(targets[1..], name);
    if t.parts == [name] {
      assert own == [t.key] + rest;
      assert own[0] == t.key && own[1..] == rest;
    } else {
      assert own == rest;
    }
    if patch[name].Map? && name in source && source[name].Map? {
      if |t.parts| > 1 && t.parts[0] == name {
        var below := Below(targets, name);
        assert below == [Target(t.parts[1..], t.key)] + Below(targets[1..], name);
        assert below[1..] == Below(targets[1..], name);
      } else {
        assert Below(targets, name) == Below(targets[1..], name);
      }
    } else if HasItems(patch, name) && HasItems(source, name) && t.parts == [name] {
      assert next[name] == List(InjectItems(patch[name].items, source[name].items, t.key));
      assert HasItems(next, name) by {
        forall i | 0 <= i < |next[name].items| ensures next[name].items[i].Map? { assert patch[name].items[i].Map?; }
      }
    } else {
      assert next[name] == patch[name];
      assert HasItems(next, name) <==> HasItems(patch, name);
    }
  }

  lemma {:induction false} InjectAllField(patch: Mapping, source: Mapping, targets: seq<Target>, name: string)
    requires Usable(targets)
    ensures InjectAll(patch, source, targets).Keys == patch.Keys
    ensures name in patch ==> InjectAll(patch, source, targets)[name] == FieldInjected(patch, source, targets, name)
    decreases targets
  {
    if targets != [] {
      var t, rest := targets[0], targets[1..];
      var next := Inject(patch, source, t.parts, t.key);
      InjectField(patch, source, t, name);
      InjectAllField(next, source, rest, name);
      if name in patch {
        hide Inject, FieldInjected;
        FieldNext(patch, source, targets, name);
      }
    }
  }

  // ---------- the injections of a schema ----------

  /** The targets are the merge paths of the schema with their keys, each at least once. */
  ghost function Covers(props: Properties, targets: seq<Target>): (covered: bool)
    ensures covered ==> Usable(targets)
  {
    && Usable(targets)
    && (forall i :: 0 <= i < |targets| ==> IsTarget(props, targets[i]))
    && (forall names :: IsMergePath(props, names) ==> Target(names, PropertyAt(props, names).value.mergeKey) in targets)
  }

  ghost predicate IsTarget(props: Properties, target: Target) {
    IsMergePath(props, target.parts) && PropertyAt(props, target.parts).value.mergeKey == target.key
  }

  lemma {:induction false} OwnMembers(targets: seq<Target>, name: string, key: string)
    requires Usable(targets)
    ensures key in Own(targets, name) <==> Target([name], key) in targets
  {
    if targets != [] {
      OwnMembers(targets[1..], name, key);
      assert targets == [targets[0]] + targets[1..];
    }
  }

  lemma {:induction false} BelowMembers(targets: seq<Target>, name: string, parts: Names, key: string)
    requires Usable(targets)
    ensures Target(parts, key) in Below(targets, name) <==> parts != [] && Target([name] + parts, key) in targets
  {
    if targets != [] {
      var t := targets[0];
      BelowMembers(targets[1..], name, parts, key);
      assert targets == [t] + targets[1..];
      assert |t.parts| > 1 && t.parts[0] == name && t.parts[1..] == parts <==>
          parts != [] && t.parts == [name] + parts by {
        if |t.parts| > 1 { assert t.parts == [t.parts[0]] + t.parts[1..]; }
        assert ([name] + parts)[1..] == parts;
      }
    }
  }

  lemma PathInside(props: Properties, name: string, names: Names)
    requires names != []
    ensures PropertyAt(props, [name] + names) == PropertyAt(Inside(props, name), names)
  {
    assert ([name] + names)[1..] == names;
  }

  lemma CoversInside(props: Properties, targets: seq<Target>, name: string)
    requires Covers(props, targets)
    ensures Covers(Inside(props, name), Below(targets, name))
  {
    var inside, below := Inside(props, name), Below(targets, name);
    forall i | 0 <= i < |below| ensures IsTarget(inside, below[i]) {
      BelowMembers(targets, name, below[i].parts, below[i].key);
      assert IsTarget(props, Target([name] + below[i].parts, below[i].key));
      PathInside(props, name, below[i].parts);
    }
    forall names | IsMergePath(inside, names) ensures Target(names, PropertyAt(inside, names).value.mergeKey) in below {
      PathInside(props, name, names);
      assert IsMergePath(props, [name] + names);
      BelowMembers(targets, name, names, PropertyAt(inside, names).value.mergeKey);
    }
  }

  /** The keys injected at a field: none, or the schema's key at least once. */
  lemma CoversOwn(props: Properties, targets: seq<Target>, name: string)
    requires Covers(props, targets)
    ensures IsKeyed(props, name) ==>
              Own(targets, name) != [] && forall k :: k in Own(targets, name) ==> k == props[name].mergeKey
    ensures !IsKeyed(props, name) ==> Own(targets, name) == []
  {
    assert PropertyAt(props, [name]) == if name in props then Some(props[name]) else None;
    if IsKeyed(props, name) {
      assert IsMergePath(props, [name]);
      OwnMembers(targets, name, props[name].mergeKey);
    }
    forall k | k in Own(targets, name) ensures IsKeyed(props, name) && k == props[name].mergeKey {
      OwnMembers(targets, name, k);
      assert IsTarget(props, Target([name], k));
    }
    if Own(targets, name) != [] { assert Own(targets, name)[0] in Own(targets, name); }
  }

  lemma {:induction false} InjectOnce(items: seq<Yaml>, source: seq<Yaml>, keys: seq<string>, key: string)
    requires keys != [] && forall k :: k in keys ==> k == key
    ensures InjectKeys(items, source, keys) == InjectItems(items, source, key)
    decreases |keys|
  {
    assert keys[0] in keys;
    var once := InjectItems(items, source, key);
    if |keys| == 1 {
      assert keys[1..] == [];
    } else {
      assert forall k :: k in keys[1..] ==> k in keys;
      InjectOnce(once, source, keys[1..], key);
      assert InjectItems(once, source, key) == once;
    }
  }

  /** Where source and patch meet at lists with a merge key, the keys fit. */
  ghost predicate KeyedDocument(props: Properties, source: Mapping, patch: Mapping)
    decreases Map(source), 0
  {
    forall name :: name in source && Overrides(patch, name) ==> KeyedField(props, name, source[name], patch[name])
  }

  ghost predicate KeyedField(props: Properties, name: string, source: Yaml, patch: Yaml)
    decreases source, 1
  {
    if source.Map? && patch.Map? then KeyedDocument(Inside(props, name), source.entries, patch.entries)
    else MergedByKey(props, name, source, patch) ==>
      && KeyedSource(EntriesOf(source.items), props[name].mergeKey)
      && KeyedPatch(EntriesOf(source.items), EntriesOf(patch.items), props[name].mergeKey)
  }

  /**
   * Where the merges descend, through maps and the items of keyed lists: the source has placeholders only under keys
   * the patch sets, the patch has no null, and a list of maps without a merge key already is what merging it by
   * position gives.
   */
  ghost predicate DocumentAlike(props: Properties, source: Mapping, patch: Mapping)
    decreases Map(source), 0
  {
    && (forall name :: name in source && name !in patch ==> !IsPlaceholder(source[name]))
    && (forall name :: name in patch ==>
          patch[name] != Null && (name in source ==> FieldAlike(props, name, source[name], patch[name])))
  }

  ghost predicate FieldAlike(props: Properties, name: string, source: Yaml, patch: Yaml)
    decreases source, 1
  {
    if source.Map? && patch.Map? then DocumentAlike(Inside(props, name), source.entries, patch.entries)
    else if MergedByKey(props, name, source, patch) then ItemsAlike(EntriesOf(source.items), EntriesOf(patch.items))
    else IsMapList(source) && patch.List? ==> Covered(source, patch)
  }

  // ---------- the two formats agree on whole patches ----------

  /** A keyed list, injected and merged by key. */
  lemma ListFieldAgrees(props: Properties, name: string, source: Yaml, patch: Yaml, injected: Yaml)
    requires MergedByKey(props, name, source, patch) && KeyedField(props, name, source, patch)
    requires injected == List(InjectItems(patch.items, source.items, props[name].mergeKey))
    ensures StrategicField(props, name, source, injected) == MergeNode(source, patch) <==>
            FieldAlike(props, name, source, patch)
  {
    hide Injected, KeyedSource, KeyedPatch, PatchByKey, ItemsAlike, MergeLists;
    var s, v, key := EntriesOf(source.items), EntriesOf(patch.items), props[name].mergeKey;
    InjectionPreservesMeaning(s, v, key);
    var r := Injected(v, s, key);
    assert AsNodes(r) == injected.items;
    assert AllMaps(injected.items);
    assert EntriesOf(injected.items) == r;
  }

  /** At a field both sides set. */
  lemma {:induction false} FieldAgrees(props: Properties, source: Mapping, patch: Mapping, targets: seq<Target>,
                                       name: string)
    requires Covers(props, targets) && name in source && Overrides(patch, name)
    requires KeyedField(props, name, source[name], patch[name])
    ensures StrategicField(props, name, source[name], FieldInjected(patch, source, targets, name)) ==
            MergeNode(source[name], patch[name]) <==>
            FieldAlike(props, name, source[name], patch[name])
    decreases source[name], 2
  {
    hide Covers, KeyedSource, KeyedPatch, InjectAll, StrategicMaps, MergeMaps, MergeLists, ItemsAlike,
         DocumentAlike, KeyedDocument;
    var s, v := source[name], patch[name];
    if s.Map? && v.Map? {
      CoversInside(props, targets, name);
      DocumentAgrees(Inside(props, name), s.entries, v.entries, Below(targets, name));
    } else if MergedByKey(props, name, s, v) {
      CoversOwn(props, targets, name);
      var injected := List(InjectItems(v.items, s.items, props[name].mergeKey));
      assert FieldInjected(patch, source, targets, name) == injected by {
        if v.items == [] {
          assert injected == v;
        } else {
          InjectOnce(v.items, s.items, Own(targets, name), props[name].mergeKey);
        }
      }
      ListFieldAgrees(props, name, s, v, injected);
    } else {
      CoversOwn(props, targets, name);
      assert FieldInjected(patch, source, targets, name) == v;
      CoveredExactly(s, v);
    }
  }

  ghost predicate EntryAlike(props: Properties, source: Mapping, patch: Mapping, name: string) {
    && (name in source && name !in patch ==> !IsPlaceholder(source[name]))
    && (name in patch ==>
          patch[name] != Null && (name in source ==> FieldAlike(props, name, source[name], patch[name])))
  }

  lemma AlikeByEntries(props: Properties, source: Mapping, patch: Mapping)
    requires forall name :: EntryAlike(props, source, patch, name)
    ensures DocumentAlike(props, source, patch)
  {
    assert forall name :: name in source || name in patch ==> EntryAlike(props, source, patch, name);
  }

  /** What the two merges hold under one name. */
  lemma {:induction false} EntryAgrees(props: Properties, source: Mapping, patch: Mapping, targets: seq<Target>,
                                       name: string)
    requires Covers(props, targets) && KeyedDocument(props, source, patch)
    ensures Entry(StrategicMaps(props, source, InjectAll(patch, source, targets)), name) ==
            Entry(MergeMaps(source, patch), name)
            <==> EntryAlike(props, source, patch, name)
    decreases Map(source), 0
  {
    hide Covers, InjectAll, MergeNode, StrategicField, KeyedField, FieldAlike;
    InjectAllField(patch, source, targets, name);
    if name in source && Overrides(patch, name) {
      FieldAgrees(props, source, patch, targets, name);
    }
  }

  lemma {:induction false} DocumentAgrees(props: Properties, source: Mapping, patch: Mapping, targets: seq<Target>)
    requires Covers(props, targets) && KeyedDocument(props, source, patch)
    ensures StrategicMaps(props, source, InjectAll(patch, source, targets)) == MergeMaps(source, patch) <==>
            DocumentAlike(props, source, patch)
    decreases Map(source), 1
  {
    hide Covers, KeyedDocument, InjectAll, MergeMaps, StrategicMaps, FieldAlike;
    var strategic, merged := StrategicMaps(props, source, InjectAll(patch, source, targets)), MergeMaps(source, patch);
    forall name ensures Entry(strategic, name) == Entry(merged, name) <==> EntryAlike(props, source, patch, name) {
      EntryAgrees(props, source, patch, targets, name);
    }
    if DocumentAlike(props, source, patch) {
      forall name ensures EntryAlike(props, source, patch, name) {}
      EqualEntries(strategic, merged);
    }
    if strategic == merged {
      forall name ensures EntryAlike(props, source, patch, name) {}
      AlikeByEntries(props, source, patch);
    }
  }

  /** Field names that survive being joined into a path and split again. */
  ghost predicate PathsSplit(props: Properties) {
    forall names :: IsMergePath(props, names) ==> NoDots(names) && (|names| == 1 || names[0] != "")
  }

  lemma CollectedTarget(props: Properties, entries: seq<MergeKeyInfo>, paths: seq<Names>, i: nat)
    requires Lists(props, "", entries, paths) && PathsSplit(props) && i < |paths|
    ensures IsMergePath(props, paths[i]) && i < |Targets(entries)|
    ensures Targets(entries)[i] == Target(paths[i], PropertyAt(props, paths[i]).value.mergeKey)
    ensures IsTarget(props, Targets(entries)[i])
  {
    hide FieldPath;
    assert IsMergePath(props, paths[i]);
    assert paths[i] != [];
    SplitFieldPath(paths[i]);
  }

  lemma CollectedPath(props: Properties, entries: seq<MergeKeyInfo>, paths: seq<Names>, names: Names)
    requires Lists(props, "", entries, paths) && AllListed(props, paths) && PathsSplit(props)
            && IsMergePath(props, names)
    ensures Target(names, PropertyAt(props, names).value.mergeKey) in Targets(entries)
  {
    hide Lists, PathsSplit, IsTarget, PropertyAt, Targets;
    assert names in paths;
    var i :| 0 <= i < |paths| && paths[i] == names;
    CollectedTarget(props, entries, paths, i);
  }

  /** The entries collected from a schema are its merge paths. */
  lemma CollectedCovers(props: Properties, entries: seq<MergeKeyInfo>)
    requires ListsAll(props, "", entries) && PathsSplit(props)
    ensures Covers(props, Targets(entries))
  {
    hide Lists, AllListed, PathsSplit, IsTarget, PropertyAt, Targets;
    var paths :| Lists(props, "", entries, paths) && AllListed(props, paths);
    assert |entries| == |paths| by { ListsLength(props, entries, paths); }
    var targets := Targets(entries);
    forall i | 0 <= i < |targets| ensures IsTarget(props, targets[i]) {
      CollectedTarget(props, entries, paths, i);
    }
    forall names | IsMergePath(props, names) ensures Target(names, PropertyAt(props, names).value.mergeKey) in targets {
      CollectedPath(props, entries, paths, names);
    }
  }

  lemma ListsLength(props: Properties, entries: seq<MergeKeyInfo>, paths: seq<Names>)
    requires Lists(props, "", entries, paths)
    ensures |entries| == |paths|
  {
  }

  /**
   * Collecting the merge keys of a schema and injecting them into every patch: merging the new patch by key means
   * what the policy generator's merge of the old one means, exactly if the two merges agree wherever they descend.
   */
  method TranslatePatches(def: Property, patches: seq<Mapping>, source: Mapping) returns (patched: seq<Mapping>)
    requires PathsSplit(def.properties)
    ensures |patched| == |patches|
    ensures forall i :: 0 <= i < |patches| && KeyedDocument(def.properties, source, patches[i]) ==>
                          (StrategicMaps(def.properties, source, patched[i]) == MergeMaps(source, patches[i]) <==>
                             DocumentAlike(def.properties, source, patches[i]))
  {
    var entries := CollectMergeKeys(def, "");
    CollectedCovers(def.properties, entries);
    patched := InjectMergeKeys(patches, source, entries);
    forall i | 0 <= i < |patches| && KeyedDocument(def.properties, source, patches[i])
      ensures StrategicMaps(def.properties, source, patched[i]) == MergeMaps(source, patches[i]) <==>
              DocumentAlike(def.properties, source, patches[i])
    {
      DocumentAgrees(def.properties, source, patches[i], Targets(entries));
    }
  }
}
