/**
 * Merge keys: which list fields of a CRD schema have one, how missing keys are injected into a patch,
 * and why merging the injected patch by key means the same as merging the original by position.
 */
module MergeKeys {
  import opened Options
  import opened Yaml
  import opened Text

  // ---------- collecting the fields that have a merge key ----------

  datatype Property = Property(kind: string, strategy: string, mergeKey: string, properties: map<string, Property>)

  datatype MergeKeyInfo = MergeKeyInfo(fieldPath: string, mergeKey: string)

  type Names = seq<string>

  predicate HasMergeKey(p: Property) {
    p.kind == "array" && p.strategy == "merge" && p.mergeKey != ""
  }

  /** The property reached by following `names` through nested properties. */
  function PropertyAt(props: map<string, Property>, names: Names): Option<Property>
    decreases |names|
  {
    if names == [] || names[0] !in props then None
    else if |names| == 1 then Some(props[names[0]])
    else PropertyAt(props[names[0]].properties, names[1..])
  }

  predicate IsMergePath(props: map<string, Property>, names: Names) {
    PropertyAt(props, names).Some? && HasMergeKey(PropertyAt(props, names).value)
  }

  function Extend(prefix: string, name: string): string {
    if prefix == "" then name else prefix + "." + name
  }

  function FieldPath(prefix: string, names: Names): string
    decreases |names|
  {
    if names == [] then prefix else FieldPath(Extend(prefix, names[0]), names[1..])
  }

  ghost predicate Distinct<T>(s: seq<T>) {
    forall i, j :: 0 <= i < j < |s| ==> s[i] != s[j]
  }

  /** `entries` lists the merge paths `paths` below `props`, one entry each. */
  ghost predicate Lists(props: map<string, Property>, prefix: string, entries: seq<MergeKeyInfo>, paths: seq<Names>) {
    && |entries| == |paths| && Distinct(paths)
    && forall i :: 0 <= i < |paths| ==>
                     && IsMergePath(props, paths[i])
                     && entries[i] ==
                        MergeKeyInfo(FieldPath(prefix, paths[i]), PropertyAt(props, paths[i]).value.mergeKey)
  }

  ghost function Under(name: string, paths: seq<Names>): (result: seq<Names>)
    ensures |result| == |paths| && forall i :: 0 <= i < |paths| ==> result[i] == [name] + paths[i]
  {
    seq(|paths|, i requires 0 <= i < |paths| => [name] + paths[i])
  }

  lemma ListsUnder(props: map<string, Property>, prefix: string, name: string,
                   entries: seq<MergeKeyInfo>, paths: seq<Names>)
    requires name in props && Lists(props[name].properties, Extend(prefix, name), entries, paths)
    ensures Lists(props, prefix, entries, Under(name, paths))
  {
    var below := Under(name, paths);
    forall i | 0 <= i < |paths|
      ensures below[i][1..] == paths[i]
      ensures PropertyAt(props, below[i]) == PropertyAt(props[name].properties, paths[i])
      ensures FieldPath(prefix, below[i]) == FieldPath(Extend(prefix, name), paths[i])
    {
    }
  }

  lemma ListsAppended(props: map<string, Property>, prefix: string, entries: seq<MergeKeyInfo>, paths: seq<Names>,
                      more: seq<MergeKeyInfo>, morePaths: seq<Names>)
    requires Lists(props, prefix, entries, paths) && Lists(props, prefix, more, morePaths)
    requires forall names :: names in morePaths ==> names !in paths
    ensures Lists(props, prefix, entries + more, paths + morePaths)
  {
    var all := paths + morePaths;
    forall i, j | 0 <= i < j < |all| ensures all[i] != all[j] {
      if i < |paths| <= j {
        assert all[j] in morePaths;
      }
    }
  }

  /** The part of the walk below one field: the field itself, then its nested properties. */
  ghost predicate ListsField(props: map<string, Property>, prefix: string, name: string,
                             entries: seq<MergeKeyInfo>, paths: seq<Names>) {
    && Lists(props, prefix, entries, paths)
    && (forall names :: names in paths ==> names[0] == name)
    && (forall names :: IsMergePath(props, names) && names[0] == name ==> names in paths)
  }

  ghost predicate AllListed(props: map<string, Property>, paths: seq<Names>) {
    forall names :: IsMergePath(props, names) ==> names in paths
  }

  /** One entry for every merge path, in some order, and no other. */
  ghost predicate ListsAll(props: map<string, Property>, prefix: string, entries: seq<MergeKeyInfo>) {
    exists paths :: Lists(props, prefix, entries, paths) && AllListed(props, paths)
  }

  /** Walk the schema in any order: exactly one entry per merge path, and no other. */
  method CollectMergeKeys(def: Property, prefix: string) returns (entries: seq<MergeKeyInfo>)
    ensures ListsAll(def.properties, prefix, entries)
    decreases def, 1
  {
    ghost var props := def.properties;
    entries := [];
    ghost var paths: seq<Names> := [];
    var todo := def.properties.Keys;
    while todo != {}
      invariant todo <= props.Keys
      invariant Lists(props, prefix, entries, paths)
      invariant forall names :: names in paths ==> names[0] !in todo
      invariant forall names :: IsMergePath(props, names) && names[0] !in todo ==> names in paths
    {
      hide Lists, IsMergePath;
      var name :| name in todo;
      var field := CollectField(def, prefix, name);
      ghost var fieldPaths :| ListsField(props, prefix, name, field, fieldPaths);
      ListsAppended(props, prefix, entries, paths, field, fieldPaths);
      entries, paths := entries + field, paths + fieldPaths;
      todo := todo - {name};
    }
    assert AllListed(props, paths);
  }

  /** `e` is the entry of the property at `names`, an array that is merged by a key. */
  ghost predicate EntryOf(props: map<string, Property>, prefix: string, names: Names, e: MergeKeyInfo) {
    && PropertyAt(props, names).Some?
    && var p := PropertyAt(props, names).value;
       p.kind == "array" && p.strategy == "merge" && p.mergeKey != ""
       && e == MergeKeyInfo(FieldPath(prefix, names), p.mergeKey)
  }

  /** What is listed is exactly the entries of all such arrays. */
  lemma CollectedExactly(props: map<string, Property>, prefix: string, entries: seq<MergeKeyInfo>, e: MergeKeyInfo)
    requires ListsAll(props, prefix, entries)
    ensures e in entries <==> exists names :: EntryOf(props, prefix, names, e)
  {
    hide PropertyAt, FieldPath;
    var paths :| Lists(props, prefix, entries, paths) && AllListed(props, paths);
    if e in entries {
      var i :| 0 <= i < |entries| && entries[i] == e;
      assert EntryOf(props, prefix, paths[i], e);
    }
    if names :| EntryOf(props, prefix, names, e) {
      assert IsMergePath(props, names);
      var i :| 0 <= i < |paths| && paths[i] == names;
      assert entries[i] == e;
    }
  }

  /** The entry for the field itself, if it has a merge key. */
  function OwnEntry(prop: Property, path: string): seq<MergeKeyInfo> {
    if HasMergeKey(prop) then [MergeKeyInfo(path, prop.mergeKey)] else []
  }

  lemma OwnListed(props: map<string, Property>, prefix: string, name: string)
    requires name in props
    ensures Lists(props, prefix, OwnEntry(props[name], Extend(prefix, name)),
            if HasMergeKey(props[name]) then [[name]] else [])
  {
    var names := [name];
    assert names[1..] == [] && PropertyAt(props, names) == Some(props[name]);
    assert FieldPath(prefix, names) == FieldPath(Extend(prefix, name), names[1..]) == Extend(prefix, name);
    if HasMergeKey(props[name]) { assert IsMergePath(props, names); }
  }

  lemma PathsNotEmpty(props: map<string, Property>, prefix: string, entries: seq<MergeKeyInfo>, paths: seq<Names>)
    requires Lists(props, prefix, entries, paths)
    ensures forall i :: 0 <= i < |paths| ==> paths[i] != []
  {
    forall i | 0 <= i < |paths| ensures paths[i] != [] { assert IsMergePath(props, paths[i]); }
  }

  lemma ListedBelow(props: map<string, Property>, name: string, nestedPaths: seq<Names>, names: Names)
    requires name in props && AllListed(props[name].properties, nestedPaths)
    requires IsMergePath(props, names) && names[0] == name
    ensures if |names| == 1 then names == [name] && HasMergeKey(props[name]) else names[1..] in nestedPaths
  {
    if |names| > 1 { assert IsMergePath(props[name].properties, names[1..]); }
  }

  lemma FieldComplete(props: map<string, Property>, name: string, nestedPaths: seq<Names>)
    requires name in props && AllListed(props[name].properties, nestedPaths)
    ensures forall names :: IsMergePath(props, names) && names[0] == name ==>
                              names in (if HasMergeKey(props[name]) then [[name]] else []) + Under(name, nestedPaths)
  {
    forall names | IsMergePath(props, names) && names[0] == name
      ensures names in (if HasMergeKey(props[name]) then [[name]] else []) + Under(name, nestedPaths)
    {
      ListedBelow(props, name, nestedPaths, names);
      if |names| > 1 {
        var i :| 0 <= i < |nestedPaths| && nestedPaths[i] == names[1..];
        assert Under(name, nestedPaths)[i] == names;
      }
    }
  }

  lemma FieldListed(props: map<string, Property>, prefix: string, name: string,
                    nested: seq<MergeKeyInfo>, nestedPaths: seq<Names>)
    returns (paths: seq<Names>)
    requires name in props
    requires Lists(props[name].properties, Extend(prefix, name), nested, nestedPaths)
    requires AllListed(props[name].properties, nestedPaths)
    ensures ListsField(props, prefix, name, OwnEntry(props[name], Extend(prefix, name)) + nested, paths)
  {
    hide Lists, AllListed, IsMergePath, OwnEntry, HasMergeKey, FieldPath;
    var own := if HasMergeKey(props[name]) then [[name]] else [];
    var below := Under(name, nestedPaths);
    paths := own + below;
    OwnListed(props, prefix, name);
    ListsUnder(props, prefix, name, nested, nestedPaths);
    PathsNotEmpty(props[name].properties, Extend(prefix, name), nested, nestedPaths);
    forall names | names in below ensures names !in own {
      var i :| 0 <= i < |below| && below[i] == names;
    }
    ListsAppended(props, prefix, OwnEntry(props[name], Extend(prefix, name)), own, nested, below);
    FieldComplete(props, name, nestedPaths);
  }

  /** The loop body. */
  method CollectField(def: Property, prefix: string, name: string) returns (entries: seq<MergeKeyInfo>)
    requires name in def.properties
    ensures exists paths :: ListsField(def.properties, prefix, name, entries, paths)
    decreases def, 0
  {
    hide Lists, AllListed, ListsField;
    var prop, path := def.properties[name], Extend(prefix, name);
    entries := [];
    if HasMergeKey(prop) {
      entries := [MergeKeyInfo(path, prop.mergeKey)];
    }
    var nested := CollectMergeKeys(prop, path);
    ghost var nestedPaths :| Lists(prop.properties, path, nested, nestedPaths)
        && AllListed(prop.properties, nestedPaths);
    entries := entries + nested;
    ghost var paths := FieldListed(def.properties, prefix, name, nested, nestedPaths);
  }

  // ---------- a field path leads back to its field ----------

  ghost predicate NoDots(names: Names) {
    forall i :: 0 <= i < |names| ==> '.' !in names[i]
  }

  lemma {:induction false} FieldPathJoins(prefix: string, names: Names)
    requires prefix != "" && names != []
    ensures FieldPath(prefix, names) == prefix + ['.'] + Join(names, '.')
    decreases |names|
  {
    if |names| > 1 {
      FieldPathJoins(Extend(prefix, names[0]), names[1..]);
    }
  }

  lemma {:induction false} SplitFieldPathLength(names: Names)
    requires names != [] && NoDots(names)
    ensures |Split(FieldPath("", names), '.')| <= |names|
    ensures |names| == 1 || names[0] != "" ==> Split(FieldPath("", names), '.') == names
    decreases |names|
  {
    if |names| == 1 {
      SplitPiece(names[0], "", '.');
    } else if names[0] == "" {
      SplitFieldPathLength(names[1..]);
    } else {
      FieldPathJoins(names[0], names[1..]);
      SplitOfJoin(names, '.');
    }
  }

  /**
   * Splitting a field path gives back the names exactly when none holds a dot and it does not start with an empty one.
   */
  lemma SplitFieldPath(names: Names)
    requires names != []
    ensures Split(FieldPath("", names), '.') == names <==> NoDots(names) && (|names| == 1 || names[0] != "")
  {
    if NoDots(names) {
      SplitFieldPathLength(names);
      if names[0] == "" && |names| > 1 {
        SplitFieldPathLength(names[1..]);
      }
    }
  }

  // ---------- injecting missing keys ----------

  /** The map that holds the last name, reached through nested maps. */
  function Navigate(node: Mapping, parts: Names): Option<Mapping>
    requires parts != []
    decreases |parts|
  {
    if |parts| == 1 then Some(node)
    else if parts[0] in node && node[parts[0]].Map? then Navigate(node[parts[0]].entries, parts[1..])
    else None
  }

  method NavigateToParent(node: Mapping, parts: Names) returns (parent: Option<Mapping>)
    requires parts != []
    ensures parent == Navigate(node, parts)
  {
    var current := node;
    for i := 0 to |parts| - 1
      invariant Navigate(node, parts) == Navigate(current, parts[i..])
    {
      if parts[i] !in current || !current[parts[i]].Map? {
        return None;
      }
      current := current[parts[i]].entries;
    }
    parent := Some(current);
  }

  /** The list a key can be injected into: present, non-empty and made of maps only. */
  predicate HasItems(node: Mapping, field: string) {
    && field in node && node[field].List? && node[field].items != []
    && forall i :: 0 <= i < |node[field].items| ==> node[field].items[i].Map?
  }

  method ToSliceOfMaps(node: Mapping, field: string) returns (ok: bool, items: seq<Mapping>)
    ensures ok && items != [] <==> HasItems(node, field)
    ensures ok ==> field in node && node[field].List? && |items| == |node[field].items|
    ensures ok ==> forall i :: 0 <= i < |items| ==> node[field].items[i] == Map(items[i])
  {
    if field !in node || !node[field].List? {
      return false, [];
    }
    items := [];
    for i := 0 to |node[field].items|
      invariant |items| == i
      invariant forall j :: 0 <= j < i ==> node[field].items[j] == Map(items[j])
    {
      if !node[field].items[i].Map? {
        return false, [];
      }
      items := items + [node[field].items[i].entries];
    }
    ok := true;
  }

  function InjectItem(item: Yaml, source: seq<Yaml>, i: nat, key: string): Yaml {
    if item.Map? && key !in item.entries && i < |source| && source[i].Map? && key in source[i].entries
    then Map(item.entries[key := source[i].entries[key]])
    else item
  }

  function InjectItems(items: seq<Yaml>, source: seq<Yaml>, key: string): (r: seq<Yaml>)
    ensures |r| == |items| && forall i :: 0 <= i < |items| ==> r[i] == InjectItem(items[i], source, i, key)
  {
    seq(|items|, i requires 0 <= i < |items| => InjectItem(items[i], source, i, key))
  }

  /** Inject `key` into the items of the list at `parts`, taking the values from the same positions of `source`. */
  function Inject(patch: Mapping, source: Mapping, parts: Names, key: string): Mapping
    requires parts != []
    decreases |parts|
  {
    var name := parts[0];
    if |parts| == 1 then
      if HasItems(patch, name) && HasItems(source, name)
      then patch[name := List(InjectItems(patch[name].items, source[name].items, key))]
      else patch
    else if name in patch && patch[name].Map? && name in source && source[name].Map?
    then patch[name := Map(Inject(patch[name].entries, source[name].entries, parts[1..], key))]
    else patch
  }

  /** Put `value` at the end of a path of nested maps. */
  function PutBack(node: Mapping, parts: Names, value: Yaml): Mapping
    requires parts != [] && Navigate(node, parts).Some?
    decreases |parts|
  {
    if |parts| == 1 then node[parts[0] := value]
    else node[parts[0] := Map(PutBack(node[parts[0]].entries, parts[1..], value))]
  }

  lemma {:induction false} InjectByNavigation(patch: Mapping, source: Mapping, parts: Names, key: string)
    requires parts != []
    ensures var p, s, last := Navigate(patch, parts), Navigate(source, parts), parts[|parts| - 1];
            Inject(patch, source, parts, key) ==
            if p.Some? && s.Some? && HasItems(p.value, last) && HasItems(s.value, last)
            then PutBack(patch, parts, List(InjectItems(p.value[last].items, s.value[last].items, key)))
            else patch
    decreases |parts|
  {
    if |parts| > 1 && parts[0] in patch && patch[parts[0]].Map? && parts[0] in source && source[parts[0]].Map? {
      InjectByNavigation(patch[parts[0]].entries, source[parts[0]].entries, parts[1..], key);
      assert patch == patch[parts[0] := patch[parts[0]]];
    }
  }

  method InjectMergeKeyAtPath(patch: Mapping, source: Mapping, fieldPath: string, key: string)
    returns (patched: Mapping)
    ensures patched == Inject(patch, source, Split(fieldPath, '.'), key)
  {
    var parts := Split(fieldPath, '.');
    InjectByNavigation(patch, source, parts, key);
    var patchNode := NavigateToParent(patch, parts);
    var sourceNode := NavigateToParent(source, parts);
    if patchNode.None? || sourceNode.None? {
      return patch;
    }
    var last := parts[|parts| - 1];
    var ok, items := ToSliceOfMaps(patchNode.value, last);
    if !ok || items == [] {
      return patch;
    }
    var sourceOk, sourceItems := ToSliceOfMaps(sourceNode.value, last);
    if !sourceOk || sourceItems == [] {
      return patch;
    }
    ghost var want := InjectItems(patchNode.value[last].items, sourceNode.value[last].items, key);
    var injected: seq<Yaml> := [];
    for i := 0 to |items|
      invariant injected == want[..i]
    {
      var item := items[i];
      if key !in item && i < |sourceItems| && key in sourceItems[i] {
        item := item[key := sourceItems[i][key]];
      }
      injected := injected + [Map(item)];
    }
    assert injected == want;
    patched := PutBack(patch, parts, List(injected));
  }

  // ---------- injections commute, add only keys, and are idempotent ----------

  lemma InjectItemsCommute(items: seq<Yaml>, source: seq<Yaml>, key1: string, key2: string)
    ensures InjectItems(InjectItems(items, source, key1), source, key2) ==
            InjectItems(InjectItems(items, source, key2), source, key1)
  {
    forall i | 0 <= i < |items|
      ensures InjectItem(InjectItem(items[i], source, i, key1), source, i, key2) ==
              InjectItem(InjectItem(items[i], source, i, key2), source, i, key1)
    {
      if items[i].Map? && i < |source| && source[i].Map? && key1 != key2 {
        var e, s := items[i].entries, source[i].entries;
        if key1 !in e && key1 in s && key2 !in e && key2 in s {
          assert e[key1 := s[key1]][key2 := s[key2]] == e[key2 := s[key2]][key1 := s[key1]];
        }
      }
    }
  }

  /** Two injections into one patch can be done in either order, whatever their paths. */
  lemma {:induction false} InjectionsCommute(patch: Mapping, source: Mapping,
                                             parts1: Names, key1: string, parts2: Names, key2: string)
    requires parts1 != [] && parts2 != []
    ensures Inject(Inject(patch, source, parts1, key1), source, parts2, key2) ==
            Inject(Inject(patch, source, parts2, key2), source, parts1, key1)
    decreases |parts1|
  {
    var n1, n2 := parts1[0], parts2[0];
    if n1 == n2 && |parts1| == 1 && |parts2| == 1 {
      if HasItems(patch, n1) && HasItems(source, n1) {
        InjectItemsCommute(patch[n1].items, source[n1].items, key1, key2);
      }
    } else if n1 == n2 && |parts1| > 1 && |parts2| > 1 {
      if n1 in patch && patch[n1].Map? && n1 in source && source[n1].Map? {
        InjectionsCommute(patch[n1].entries, source[n1].entries, parts1[1..], key1, parts2[1..], key2);
      }
    } else if n1 != n2 {
      var a, b := Inject(patch, source, parts1, key1), Inject(patch, source, parts2, key2);
      assert n2 in a <==> n2 in patch;
      assert n1 in b <==> n1 in patch;
      var left, right := Inject(a, source, parts2, key2), Inject(b, source, parts1, key1);
      assert left.Keys == right.Keys;
      assert left == right;
    }
  }

  lemma {:induction false} InjectionIdempotent(patch: Mapping, source: Mapping, parts: Names, key: string)
    requires parts != []
    ensures Inject(Inject(patch, source, parts, key), source, parts, key) == Inject(patch, source, parts, key)
    decreases |parts|
  {
    var name := parts[0];
    if |parts| == 1 {
      if HasItems(patch, name) && HasItems(source, name) {
        var once := InjectItems(patch[name].items, source[name].items, key);
        assert InjectItems(once, source[name].items, key) == once;
      }
    } else if name in patch && patch[name].Map? && name in source && source[name].Map? {
      InjectionIdempotent(patch[name].entries, source[name].entries, parts[1..], key);
    }
  }

  lemma InjectItemLookup(item: Yaml, source: seq<Yaml>, i: nat, key: string, path: Path, leaf: Yaml)
    requires (leaf.Str? || leaf.Scalar?)
    ensures Lookup(item, path) == Some(leaf) ==> Lookup(InjectItem(item, source, i, key), path) == Some(leaf)
    ensures Lookup(InjectItem(item, source, i, key), path) == Some(leaf) && Lookup(item, path) != Some(leaf) ==>
              path != [] && path[0] == Key(key) && i < |source| && Lookup(source[i], path) == Some(leaf)
  {
    if path != [] {
      var injected := InjectItem(item, source, i, key);
      assert path[0] != Key(key) ==> Child(injected, path[0]) == Child(item, path[0]);
    }
  }

  /** Everything the patch had keeps its place and its value ... */
  lemma {:induction false} InjectionKeepsPatch(patch: Mapping, source: Mapping, parts: Names, key: string,
                                               path: Path, leaf: Yaml)
    requires parts != [] && (leaf.Str? || leaf.Scalar?) && Lookup(Map(patch), path) == Some(leaf)
    ensures Lookup(Map(Inject(patch, source, parts, key)), path) == Some(leaf)
    decreases |parts|
  {
    var name := parts[0];
    if path != [] && path[0] == Key(name) {
      if |parts| == 1 {
        if HasItems(patch, name) && HasItems(source, name) && |path| > 1 {
          var i, rest := path[1].index, path[2..];
          assert path[1..][1..] == rest;
          assert Lookup(patch[name].items[i], rest) == Some(leaf);
          InjectItemLookup(patch[name].items[i], source[name].items, i, key, rest, leaf);
        }
      } else if patch[name].Map? && name in source && source[name].Map? {
        InjectionKeepsPatch(patch[name].entries, source[name].entries, parts[1..], key, path[1..], leaf);
      }
    }
  }

  /** ... and whatever is new is the key field of an item of that list, with the value the source has there. */
  lemma {:induction false} InjectionAddsOnlyKeys(patch: Mapping, source: Mapping, parts: Names, key: string,
                                                 path: Path, leaf: Yaml)
    requires parts != [] && (leaf.Str? || leaf.Scalar?)
    requires Lookup(Map(Inject(patch, source, parts, key)), path) == Some(leaf)
    ensures || Lookup(Map(patch), path) == Some(leaf)
            || (&& |path| >= |parts| + 2
                && (forall i :: 0 <= i < |parts| ==> path[i] == Key(parts[i]))
                && path[|parts|].Index? && path[|parts| + 1] == Key(key)
                && Lookup(Map(source), path) == Some(leaf))
    decreases |parts|
  {
    var name := parts[0];
    if path != [] && path[0] == Key(name) {
      if |parts| == 1 {
        if HasItems(patch, name) && HasItems(source, name) && |path| > 1 {
          var i, rest := path[1].index, path[2..];
          assert path[1..][1..] == rest;
          assert Lookup(InjectItem(patch[name].items[i], source[name].items, i, key), rest) == Some(leaf);
          InjectItemLookup(patch[name].items[i], source[name].items, i, key, rest, leaf);
        }
      } else if name in patch && patch[name].Map? && name in source && source[name].Map? {
        InjectionAddsOnlyKeys(patch[name].entries, source[name].entries, parts[1..], key, path[1..], leaf);
        forall i | 1 <= i < |path| ensures path[i] == path[1..][i - 1] {}
      }
    }
  }

  // ---------- a set of injections, in any order ----------

  datatype Target = Target(parts: Names, key: string)

  ghost predicate Usable(targets: seq<Target>) {
    forall i :: 0 <= i < |targets| ==> targets[i].parts != []
  }

  function InjectAll(patch: Mapping, source: Mapping, targets: seq<Target>): Mapping
    requires Usable(targets)
  {
    if targets == [] then patch
    else InjectAll(Inject(patch, source, targets[0].parts, targets[0].key), source, targets[1..])
  }

  function Targets(infos: seq<MergeKeyInfo>): (targets: seq<Target>)
    ensures Usable(targets) && |targets| == |infos|
  {
    seq(|infos|, i requires 0 <= i < |infos| => Target(Split(infos[i].fieldPath, '.'), infos[i].mergeKey))
  }

  /** Every patch gets every injection. */
  method InjectMergeKeys(patches: seq<Mapping>, source: Mapping, infos: seq<MergeKeyInfo>)
    returns (patched: seq<Mapping>)
    ensures |patched| == |patches|
    ensures forall i :: 0 <= i < |patches| ==> patched[i] == InjectAll(patches[i], source, Targets(infos))
  {
    patched := [];
    for i := 0 to |patches|
      invariant |patched| == i
      invariant forall j :: 0 <= j < i ==> patched[j] == InjectAll(patches[j], source, Targets(infos))
    {
      var patch := patches[i];
      for j := 0 to |infos|
        invariant InjectAll(patch, source, Targets(infos)[j..]) == InjectAll(patches[i], source, Targets(infos))
      {
        assert Targets(infos)[j..][1..] == Targets(infos)[j + 1..];
        patch := InjectMergeKeyAtPath(patch, source, infos[j].fieldPath, infos[j].mergeKey);
      }
      patched := patched + [patch];
    }
  }

  lemma {:induction false} InjectLate(patch: Mapping, source: Mapping, target: Target, targets: seq<Target>)
    requires target.parts != [] && Usable(targets)
    ensures InjectAll(Inject(patch, source, target.parts, target.key), source, targets) ==
            Inject(InjectAll(patch, source, targets), source, target.parts, target.key)
    decreases targets
  {
    if targets != [] {
      InjectionsCommute(patch, source, target.parts, target.key, targets[0].parts, targets[0].key);
      InjectLate(Inject(patch, source, targets[0].parts, targets[0].key), source, target, targets[1..]);
    }
  }

  lemma {:induction false} PullToFront(patch: Mapping, source: Mapping, targets: seq<Target>, i: nat)
    requires Usable(targets) && i < |targets|
    ensures Usable(targets[..i] + targets[i + 1..])
    ensures InjectAll(patch, source, targets) ==
            InjectAll(Inject(patch, source, targets[i].parts, targets[i].key), source, targets[..i] + targets[i + 1..])
    decreases targets
  {
    var others := targets[..i] + targets[i + 1..];
    if i == 0 {
      assert others == targets[1..];
    } else {
      var first := targets[0];
      PullToFront(Inject(patch, source, first.parts, first.key), source, targets[1..], i - 1);
      assert targets[1..][..i - 1] + targets[1..][i..] == others[1..];
      InjectionsCommute(patch, source, first.parts, first.key, targets[i].parts, targets[i].key);
    }
  }

  lemma MultisetWithout<T>(s: seq<T>, i: nat)
    requires i < |s|
    ensures multiset(s[..i] + s[i + 1..]) == multiset(s) - multiset{s[i]}
  {
    assert s == s[..i] + [s[i]] + s[i + 1..];
  }

  lemma FirstTarget(patch: Mapping, source: Mapping, targets: seq<Target>)
    requires targets != [] && Usable(targets)
    ensures targets[0].parts != [] && Usable(targets[1..])
    ensures InjectAll(patch, source, targets) ==
            InjectAll(Inject(patch, source, targets[0].parts, targets[0].key), source, targets[1..])
  {
    hide Inject;
  }

  lemma Position<T>(s: seq<T>, x: T) returns (i: nat)
    requires x in multiset(s)
    ensures i < |s| && s[i] == x
  {
    assert x in s;
    i :| 0 <= i < |s| && s[i] == x;
  }

  /** The rest of one list, and the other list without an occurrence of what the first starts with. */
  lemma RestAgrees<T>(s: seq<T>, t: seq<T>) returns (i: nat)
    requires s != [] && multiset(s) == multiset(t)
    ensures i < |t| && t[i] == s[0]
    ensures multiset(s[1..]) == multiset(t[..i] + t[i + 1..])
  {
    assert s[0] in multiset(s);
    i := Position(t, s[0]);
    MultisetWithout(s, 0);
    MultisetWithout(t, i);
    assert s[..0] + s[0 + 1..] == s[1..];
  }

  lemma NothingLeft<T>(s: seq<T>)
    requires multiset(s) == multiset{}
    ensures s == []
  {
    assert |multiset(s)| == 0;
  }

  /** The order in which the schema walk emits its entries does not matter. */
  lemma {:induction false} AnyOrder(patch: Mapping, source: Mapping, targets: seq<Target>, targets': seq<Target>)
    requires Usable(targets) && Usable(targets') && multiset(targets) == multiset(targets')
    ensures InjectAll(patch, source, targets) == InjectAll(patch, source, targets')
    decreases |targets|
  {
    hide Inject, InjectAll, Usable;
    if targets == [] {
      NothingLeft(targets');
    } else {
      var i := RestAgrees(targets, targets');
      var rest, others := targets[1..], targets'[..i] + targets'[i + 1..];
      FirstTarget(patch, source, targets);
      PullToFront(patch, source, targets', i);
      AnyOrder(Inject(patch, source, targets[0].parts, targets[0].key), source, rest, others);
    }
  }

  lemma {:induction false} InjectAllIdempotent(patch: Mapping, source: Mapping, targets: seq<Target>)
    requires Usable(targets)
    ensures InjectAll(InjectAll(patch, source, targets), source, targets) == InjectAll(patch, source, targets)
    decreases targets
  {
    if targets != [] {
      var t, rest := targets[0], targets[1..];
      var once := InjectAll(patch, source, rest);
      InjectLate(patch, source, t, rest);
      InjectionIdempotent(once, source, t.parts, t.key);
      InjectLate(once, source, t, rest);
      InjectAllIdempotent(patch, source, rest);
    }
  }
}