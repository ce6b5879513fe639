/**
 * What the policy generator's in-place overlay merge means, as a function on YAML values,
 * and the laws that function obeys.
 */
module Merge {
  import opened Options
  import opened Yaml

  // ---------- when the merge does not panic ----------

  /** The merge of a non-null overlay value into an existing source value passes every type assertion. */
  predicate Compatible(source: Yaml, overlay: Yaml)
    decreases source
  {
    match source
    case Map(entries) => overlay.Map? && CompatibleMaps(entries, overlay.entries)
    case List(items) =>
      IsMapList(source) ==>
        && overlay.List?
        && AllMaps(items)
        && AllMaps(overlay.items)
        && forall i :: 0 <= i < |items| && i < |overlay.items| ==> Compatible(items[i], overlay.items[i])
    case _ => true
  }

  predicate CompatibleMaps(source: Mapping, overlay: Mapping)
    decreases Map(source), 0
  {
    forall key :: key in source && Overrides(overlay, key) ==> Compatible(source[key], overlay[key])
  }

  // ---------- the merge ----------

  function MergeNode(source: Yaml, overlay: Yaml): Yaml
    decreases source
  {
    if source.Map? && overlay.Map? then Map(MergeMaps(source.entries, overlay.entries))
    else if IsMapList(source) && overlay.List? then List(MergeLists(source.items, overlay.items))
    else overlay
  }

  /** Merge by position; what only one side has is kept as it is. */
  function MergeLists(source: seq<Yaml>, overlay: seq<Yaml>): (merged: seq<Yaml>)
    ensures |merged| == if |source| < |overlay| then |overlay| else |source|
    decreases source
  {
    if source == [] then overlay
    else if overlay == [] then source
    else [MergeNode(source[0], overlay[0])] + MergeLists(source[1..], overlay[1..])
  }

  function MergeMaps(source: Mapping, overlay: Mapping): Mapping
    decreases Map(source), 0
  {
    map key | key in source.Keys + overlay.Keys && (key in overlay || !IsPlaceholder(source[key])) ::
      if Overrides(overlay, key) then
        if key in source then MergeNode(source[key], overlay[key]) else overlay[key]
      else if key in source && !IsPlaceholder(source[key]) then source[key]
      else Null
  }

  lemma {:induction false} MergeListsAt(source: seq<Yaml>, overlay: seq<Yaml>, i: nat)
    requires i < |MergeLists(source, overlay)|
    ensures MergeLists(source, overlay)[i] ==
            if i >= |source| then overlay[i]
            else if i >= |overlay| then source[i]
            else MergeNode(source[i], overlay[i])
  {
    if source != [] && overlay != [] && i > 0 {
      MergeListsAt(source[1..], overlay[1..], i - 1);
    }
  }

  // ---------- path-wise meaning ----------

  /** The merge descends to `path`: every step goes through a pair of maps, or a pair of lists merged by position. */
  function Visited(source: Yaml, overlay: Yaml, path: Path): (visited: bool)
    ensures visited ==> Lookup(source, path).Some? && Lookup(overlay, path).Some?
  {
    path == [] ||
    match path[0]
    case Key(key) =>
      && source.Map? && overlay.Map? && key in source.entries && Overrides(overlay.entries, key)
      && Visited(source.entries[key], overlay.entries[key], path[1..])
    case Index(i) =>
      && IsMapList(source) && overlay.List? && i < |source.items| && i < |overlay.items|
      && Visited(source.items[i], overlay.items[i], path[1..])
  }

  /** A source map asks for a map; a list that starts with a map asks for a list, and that both hold only maps. */
  predicate Fits(source: Yaml, overlay: Yaml) {
    && (source.Map? ==> overlay.Map?)
    && (IsMapList(source) ==> overlay.List? && AllMaps(source.items) && AllMaps(overlay.items))
  }

  /** Wherever the merge descends, the overlay has the shape the source asks for. */
  ghost predicate FitsEverywhere(source: Yaml, overlay: Yaml) {
    forall path :: Visited(source, overlay, path) ==> Fits(Lookup(source, path).value, Lookup(overlay, path).value)
  }

  lemma {:induction false} FitsAt(source: Yaml, overlay: Yaml, path: Path)
    requires Compatible(source, overlay) && Visited(source, overlay, path)
    ensures Fits(Lookup(source, path).value, Lookup(overlay, path).value)
    decreases path
  {
    if path != [] {
      match path[0]
      case Key(key) => FitsAt(source.entries[key], overlay.entries[key], path[1..]);
      case Index(i) => FitsAt(source.items[i], overlay.items[i], path[1..]);
    }
  }

  lemma FitsBelow(source: Yaml, overlay: Yaml, step: Step)
    requires FitsEverywhere(source, overlay) && Visited(source, overlay, [step])
    ensures FitsEverywhere(Child(source, step).value, Child(overlay, step).value)
  {
    var s, v := Child(source, step).value, Child(overlay, step).value;
    forall path | Visited(s, v, path) ensures Fits(Lookup(s, path).value, Lookup(v, path).value) {
      assert ([step] + path)[1..] == path;
      assert Visited(source, overlay, [step] + path);
    }
  }

  /** The merge does not panic exactly if the overlay fits wherever the merge descends. */
  lemma {:induction false} CompatibleExactly(source: Yaml, overlay: Yaml)
    ensures Compatible(source, overlay) <==> FitsEverywhere(source, overlay)
    decreases source
  {
    if FitsEverywhere(source, overlay) {
      assert Visited(source, overlay, []);
      match source
      case Map(entries) =>
        forall key | key in entries && Overrides(overlay.entries, key)
          ensures Compatible(entries[key], overlay.entries[key])
        {
          assert Visited(entries[key], overlay.entries[key], [Key(key)][1..]);
          FitsBelow(source, overlay, Key(key));
          CompatibleExactly(entries[key], overlay.entries[key]);
        }
      case List(items) =>
        if IsMapList(source) {
          forall i | 0 <= i < |items| && i < |overlay.items|
            ensures Compatible(items[i], overlay.items[i])
          {
            assert Visited(items[i], overlay.items[i], [Index(i)][1..]);
            FitsBelow(source, overlay, Index(i));
            CompatibleExactly(items[i], overlay.items[i]);
          }
        }
      case _ =>
    }
    if Compatible(source, overlay) {
      forall path | Visited(source, overlay, path)
        ensures Fits(Lookup(source, path).value, Lookup(overlay, path).value)
      {
        FitsAt(source, overlay, path);
      }
    }
  }

  lemma MapsFitExactly(source: Mapping, overlay: Mapping)
    ensures CompatibleMaps(source, overlay) <==> FitsEverywhere(Map(source), Map(overlay))
  {
    hide FitsEverywhere;
    CompatibleExactly(Map(source), Map(overlay));
  }

  lemma {:induction false} LookupConcat(y: Yaml, path: Path, rest: Path)
    ensures Lookup(y, path + rest) ==
            if Lookup(y, path).Some? then Lookup(Lookup(y, path).value, rest) else None
    decreases path
  {
    if path == [] {
      assert path + rest == rest;
    } else {
      assert (path + rest)[1..] == path[1..] + rest;
      if Child(y, path[0]).Some? {
        LookupConcat(Child(y, path[0]).value, path[1..], rest);
      }
    }
  }

  /** At a visited path the result is the merge of what the two trees hold there. */
  lemma {:induction false} VisitedLevel(source: Yaml, overlay: Yaml, path: Path)
    requires Visited(source, overlay, path)
    ensures Lookup(MergeNode(source, overlay), path) ==
            Some(MergeNode(Lookup(source, path).value, Lookup(overlay, path).value))
    decreases path
  {
    if path != [] {
      match path[0]
      case Key(key) =>
        VisitedLevel(source.entries[key], overlay.entries[key], path[1..]);
      case Index(i) =>
        MergeListsAt(source.items, overlay.items, i);
        VisitedLevel(source.items[i], overlay.items[i], path[1..]);
    }
  }

  /** A string or scalar in the overlay ends up, unchanged, at the same path of the result. */
  lemma {:induction false} OverlayLeafWins(source: Yaml, overlay: Yaml, path: Path, leaf: Yaml)
    requires Lookup(overlay, path) == Some(leaf) && (leaf.Str? || leaf.Scalar?)
    ensures Lookup(MergeNode(source, overlay), path) == Some(leaf)
    decreases path
  {
    if path != [] {
      var step, rest := path[0], path[1..];
      if source.Map? && overlay.Map? && step.key in source.entries {
        if Overrides(overlay.entries, step.key) {
          OverlayLeafWins(source.entries[step.key], overlay.entries[step.key], rest, leaf);
        }
      } else if IsMapList(source) && overlay.List? {
        MergeListsAt(source.items, overlay.items, step.index);
        if step.index < |source.items| {
          OverlayLeafWins(source.items[step.index], overlay.items[step.index], rest, leaf);
        }
      }
    }
  }

  /** Every string or scalar of the result comes from the same path of the source or of the overlay. */
  lemma {:induction false} LeafProvenance(source: Yaml, overlay: Yaml, path: Path, leaf: Yaml)
    requires Lookup(MergeNode(source, overlay), path) == Some(leaf) && (leaf.Str? || leaf.Scalar?)
    ensures Lookup(overlay, path) == Some(leaf) || Lookup(source, path) == Some(leaf)
    decreases path
  {
    if path != [] {
      var step, rest := path[0], path[1..];
      if source.Map? && overlay.Map? {
        if Overrides(overlay.entries, step.key) && step.key in source.entries {
          LeafProvenance(source.entries[step.key], overlay.entries[step.key], rest, leaf);
        } else if rest != [] {
          assert Child(Null, rest[0]) == None;
        }
      } else if IsMapList(source) && overlay.List? {
        MergeListsAt(source.items, overlay.items, step.index);
        if step.index < |source.items| && step.index < |overlay.items| {
          LeafProvenance(source.items[step.index], overlay.items[step.index], rest, leaf);
        }
      }
    }
  }

  /** A source subtree the overlay does not reach survives verbatim, down to every path below it. */
  lemma UntouchedSurvives(source: Yaml, overlay: Yaml, path: Path, key: string, below: Path)
    requires Visited(source, overlay, path)
    requires Lookup(source, path).value.Map? && Lookup(overlay, path).value.Map?
    requires key in Lookup(source, path).value.entries && !IsPlaceholder(Lookup(source, path).value.entries[key])
    requires !Overrides(Lookup(overlay, path).value.entries, key)
    ensures Lookup(MergeNode(source, overlay), path + ([Key(key)] + below)) ==
            Lookup(source, path + ([Key(key)] + below))
  {
    VisitedLevel(source, overlay, path);
    LookupConcat(MergeNode(source, overlay), path, [Key(key)] + below);
    LookupConcat(source, path, [Key(key)] + below);
  }

  /**
   * At every visited map, a placeholder of the result was written by the overlay, and a key is
   * missing exactly when the overlay does not mention it and the source has a placeholder or nothing.
   */
  lemma PlaceholdersCleared(source: Yaml, overlay: Yaml, path: Path, key: string)
    requires Visited(source, overlay, path)
    requires Lookup(source, path).value.Map? && Lookup(overlay, path).value.Map?
    ensures var s, v, r := Lookup(source, path).value.entries, Lookup(overlay, path).value.entries,
                           Lookup(MergeNode(source, overlay), path);
            && r.Some? && r.value.Map?
            && (key in r.value.entries && IsPlaceholder(r.value.entries[key]) ==>
                key in v && v[key] == r.value.entries[key])
            && (key !in r.value.entries <==> key !in v && (key !in s || IsPlaceholder(s[key])))
  {
    VisitedLevel(source, overlay, path);
    var s, v := Lookup(source, path).value.entries, Lookup(overlay, path).value.entries;
    if key in s && Overrides(v, key) {
      assert MergeNode(s[key], v[key]).Str? ==> MergeNode(s[key], v[key]) == v[key];
    }
  }

  /**
   * Lists of maps merge by position: source items past the overlay stay, overlay items past the source are appended.
   */
  lemma ListTails(source: Yaml, overlay: Yaml, path: Path)
    requires Visited(source, overlay, path)
    requires IsMapList(Lookup(source, path).value) && Lookup(overlay, path).value.List?
    ensures var s, v, r := Lookup(source, path).value.items, Lookup(overlay, path).value.items,
                           Lookup(MergeNode(source, overlay), path);
            && r.Some? && r.value.List? && |s| <= |r.value.items| && |v| <= |r.value.items|
            && (|v| <= |s| ==> r.value.items[|v|..] == s[|v|..])
            && (|s| <= |v| ==> r.value.items[|s|..] == v[|s|..])
  {
    VisitedLevel(source, overlay, path);
    var s, v := Lookup(source, path).value.items, Lookup(overlay, path).value.items;
    forall i | 0 <= i < |MergeLists(s, v)| {
      MergeListsAt(s, v, i);
    }
  }

  /** Any other list, and any string, scalar or null of the source, is replaced by the overlay's value. */
  lemma OthersReplaced(source: Yaml, overlay: Yaml, path: Path, below: Path)
    requires Visited(source, overlay, path)
    requires !Lookup(source, path).value.Map? && !IsMapList(Lookup(source, path).value)
    ensures Lookup(MergeNode(source, overlay), path + below) == Lookup(overlay, path + below)
  {
    VisitedLevel(source, overlay, path);
    LookupConcat(MergeNode(source, overlay), path, below);
    LookupConcat(overlay, path, below);
  }

  // ---------- overlays compose ----------

  /**
   * Applying two overlays in turn is applying the merge of the two, whenever the first is settled. That the right-hand
   * side does not panic is a conclusion, not an assumption.
   */
  lemma {:induction false} OverlaysCompose(source: Yaml, first: Yaml, second: Yaml)
    requires first != Null && second != Null && Settled(first)
    requires Compatible(source, first) && Compatible(MergeNode(source, first), second)
    ensures Compatible(first, second) && Compatible(source, MergeNode(first, second))
    ensures MergeNode(MergeNode(source, first), second) == MergeNode(source, MergeNode(first, second))
    decreases source
  {
    if source.Map? {
      OverlayMapsCompose(source.entries, first.entries, second.entries);
    } else if IsMapList(source) {
      MergeListsAt(source.items, first.items, 0);
      OverlayListsCompose(source.items, first.items, second.items);
    }
  }

  /** What the merge holds under a key the overlay sets, and under one it does not. */
  lemma MergedEntry(source: Mapping, overlay: Mapping, key: string)
    ensures Overrides(overlay, key) ==>
              && key in MergeMaps(source, overlay)
              && MergeMaps(source, overlay)[key] ==
                 if key in source then MergeNode(source[key], overlay[key]) else overlay[key]
    ensures !Overrides(overlay, key) && key in source && !IsPlaceholder(source[key]) ==>
              key in MergeMaps(source, overlay) && MergeMaps(source, overlay)[key] == source[key]
    ensures Overrides(MergeMaps(source, overlay), key) && !Overrides(overlay, key) ==>
              key in source && MergeMaps(source, overlay)[key] == source[key]
  {
    hide MergeNode;
  }

  lemma MergeIntoNull(overlay: Yaml)
    ensures MergeNode(Null, overlay) == overlay
  {
  }

  /** Under one key, what has to fit does fit. */
  lemma FitsCompose(source: Mapping, first: Mapping, second: Mapping, key: string)
    requires key in first ==> !IsPlaceholder(first[key])
    requires CompatibleMaps(source, first) && CompatibleMaps(MergeMaps(source, first), second)
    requires key in source && Overrides(first, key) && Overrides(second, key) ==>
               Compatible(first[key], second[key]) && Compatible(source[key], MergeNode(first[key], second[key]))
    ensures key in first && Overrides(second, key) ==> Compatible(first[key], second[key])
    ensures key in source && Overrides(MergeMaps(first, second), key) ==>
            Compatible(source[key], MergeMaps(first, second)[key])
  {
    hide MergeNode, MergeMaps;
    MergedEntry(source, first, key);
    MergedEntry(first, second, key);
    if key in first && first[key] == Null && Overrides(second, key) { MergeIntoNull(second[key]); }
  }

  lemma {:induction false} OverlayMapsCompose(source: Mapping, first: Mapping, second: Mapping)
    requires SettledMap(first)
    requires CompatibleMaps(source, first) && CompatibleMaps(MergeMaps(source, first), second)
    ensures CompatibleMaps(first, second) && CompatibleMaps(source, MergeMaps(first, second))
    ensures MergeMaps(MergeMaps(source, first), second) == MergeMaps(source, MergeMaps(first, second))
    decreases Map(source), 0
  {
    hide MergeNode, MergeMaps;
    var left, right := MergeMaps(source, first), MergeMaps(first, second);
    forall key | key in source && Overrides(first, key) && Overrides(second, key)
      ensures Compatible(first[key], second[key]) && Compatible(source[key], MergeNode(first[key], second[key]))
      ensures MergeNode(MergeNode(source[key], first[key]), second[key]) ==
              MergeNode(source[key], MergeNode(first[key], second[key]))
    {
      MergedEntry(source, first, key);
      assert Compatible(left[key], second[key]);
      OverlaysCompose(source[key], first[key], second[key]);
    }
    forall key
      ensures key in first && Overrides(second, key) ==> Compatible(first[key], second[key])
      ensures key in source && Overrides(right, key) ==> Compatible(source[key], right[key])
      ensures Entry(MergeMaps(left, second), key) == Entry(MergeMaps(source, right), key)
    {
      FitsCompose(source, first, second, key);
      EntriesCompose(source, first, second, key);
    }
    EqualEntries(MergeMaps(left, second), MergeMaps(source, right));
  }

  ghost function Entry(entries: Mapping, key: string): Option<Yaml> {
    if key in entries then Some(entries[key]) else None
  }

  /** `MergeMaps` seen from one key. */
  ghost function MergeEntry(source: Option<Yaml>, overlay: Option<Yaml>): Option<Yaml> {
    var kept := if source.Some? && IsPlaceholder(source.value) then None else source;
    match overlay
    case None => kept
    case Some(Null) => if kept.Some? then kept else Some(Null)
    case Some(v) => if source.Some? then Some(MergeNode(source.value, v)) else Some(v)
  }

  lemma EqualEntries(m: Mapping, n: Mapping)
    requires forall key :: Entry(m, key) == Entry(n, key)
    ensures m == n
  {
    forall key ensures key in m <==> key in n { assert Entry(m, key) == Entry(n, key); }
    forall key | key in m ensures m[key] == n[key] { assert Entry(m, key) == Entry(n, key); }
  }

  lemma EntryOfMerge(source: Mapping, overlay: Mapping, key: string)
    ensures Entry(MergeMaps(source, overlay), key) == MergeEntry(Entry(source, key), Entry(overlay, key))
  {
    hide MergeNode;
  }

  /** The law for what three maps hold under one key. */
  lemma MergeEntryCompose(s: Option<Yaml>, v1: Option<Yaml>, v2: Option<Yaml>)
    requires v1.Some? ==> !IsPlaceholder(v1.value)
    requires s.Some? && v1.Some? && v2.Some? && v1.value != Null && v2.value != Null ==>
               MergeNode(MergeNode(s.value, v1.value), v2.value) == MergeNode(s.value, MergeNode(v1.value, v2.value))
    ensures MergeEntry(MergeEntry(s, v1), v2) == MergeEntry(s, MergeEntry(v1, v2))
  {
    if s.Some? && v1.Some? { MergeKind(s.value, v1.value); }
    if v1.Some? && v2.Some? { MergeKind(v1.value, v2.value); }
    hide MergeNode;
  }

  lemma MergeKind(source: Yaml, overlay: Yaml)
    ensures overlay != Null ==> MergeNode(source, overlay) != Null
    ensures IsPlaceholder(MergeNode(source, overlay)) <==> IsPlaceholder(overlay)
  {
  }

  lemma {:induction false} EntriesCompose(source: Mapping, first: Mapping, second: Mapping, key: string)
    requires key in first ==> !IsPlaceholder(first[key])
    requires key in source && Overrides(first, key) && Overrides(second, key) ==>
               MergeNode(MergeNode(source[key], first[key]), second[key]) ==
               MergeNode(source[key], MergeNode(first[key], second[key]))
    ensures Entry(MergeMaps(MergeMaps(source, first), second), key) ==
            Entry(MergeMaps(source, MergeMaps(first, second)), key)
  {
    hide MergeNode, MergeMaps, MergeEntry;
    EntryOfMerge(source, first, key);
    EntryOfMerge(first, second, key);
    EntryOfMerge(MergeMaps(source, first), second, key);
    EntryOfMerge(source, MergeMaps(first, second), key);
    MergeEntryCompose(Entry(source, key), Entry(first, key), Entry(second, key));
  }

  lemma ListsComposeAt(source: seq<Yaml>, first: seq<Yaml>, second: seq<Yaml>, i: nat)
    requires i < |MergeLists(MergeLists(source, first), second)|
    requires i < |source| && i < |first| && i < |second| ==>
               MergeNode(MergeNode(source[i], first[i]), second[i]) ==
                   MergeNode(source[i], MergeNode(first[i], second[i]))
    ensures i < |MergeLists(source, MergeLists(first, second))|
    ensures MergeLists(MergeLists(source, first), second)[i] == MergeLists(source, MergeLists(first, second))[i]
  {
    hide MergeNode, MergeLists;
    var left, right := MergeLists(source, first), MergeLists(first, second);
    MergeListsAt(left, second, i);
    MergeListsAt(source, right, i);
    if i < |left| { MergeListsAt(source, first, i); }
    if i < |right| { MergeListsAt(first, second, i); }
  }

  lemma ListOverList(first: seq<Yaml>, second: seq<Yaml>)
    requires AllMaps(first)
    ensures MergeNode(List(first), List(second)) == List(MergeLists(first, second))
  {
  }

  lemma MergedMaps(first: seq<Yaml>, second: seq<Yaml>)
    requires AllMaps(first) && AllMaps(second)
    ensures AllMaps(MergeLists(first, second))
  {
    hide MergeLists;
    forall i | 0 <= i < |MergeLists(first, second)| ensures MergeLists(first, second)[i].Map? {
      MergeListsAt(first, second, i);
    }
  }

  lemma {:induction false} OverlayListsCompose(source: seq<Yaml>, first: seq<Yaml>, second: seq<Yaml>)
    requires IsMapList(List(source)) && Compatible(List(source), List(first)) && Settled(List(first))
    requires Compatible(List(MergeLists(source, first)), List(second))
    ensures Compatible(List(first), List(second)) && Compatible(List(source), MergeNode(List(first), List(second)))
    ensures MergeNode(List(MergeLists(source, first)), List(second)) ==
            MergeNode(List(source), MergeNode(List(first), List(second)))
    decreases List(source), 0
  {
    hide MergeNode, MergeLists;
    var left, right := MergeLists(source, first), MergeLists(first, second);
    MergedMaps(source, first);
    ListOverList(first, second);
    ListOverList(source, right);
    ListOverList(left, second);
    assert left[0].Map?;
    MergedMaps(first, second);
    forall i | 0 <= i < |first| && i < |second|
      ensures Compatible(first[i], second[i])
      ensures i < |source| ==>
                && Compatible(source[i], right[i])
                && MergeNode(MergeNode(source[i], first[i]), second[i]) ==
                    MergeNode(source[i], MergeNode(first[i], second[i]))
    {
      MergeListsAt(source, first, i);
      MergeListsAt(first, second, i);
      assert Compatible(left[i], second[i]);
      if i < |source| { OverlaysCompose(source[i], first[i], second[i]); }
    }
    forall i | 0 <= i < |source| && i < |right|
      ensures Compatible(source[i], right[i])
    {
      MergeListsAt(first, second, i);
      if i >= |first| { MergeListsAt(source, first, i); }
    }
    var outerLeft, outerRight := MergeLists(left, second), MergeLists(source, right);
    forall i | 0 <= i < |outerLeft| ensures outerLeft[i] == outerRight[i] {
      ListsComposeAt(source, first, second, i);
    }
  }

  /** Without the condition on placeholders the order matters: what the first overlay wrote is cleared by the second. */
  lemma PlaceholderInFirstOverlayMatters(key: string)
    ensures var source, first, second := Map(map[key := Scalar(1)]), Map(map[key := Str("$p")]), Map(map[]);
            && Compatible(source, first) && Compatible(MergeNode(source, first), second)
            && MergeNode(MergeNode(source, first), second) != MergeNode(source, MergeNode(first, second))
  {
    var source, first, second := map[key := Scalar(1)], map[key := Str("$p")], map[];
    assert MergeMaps(source, first)[key] == Str("$p");
    assert key !in MergeMaps(MergeMaps(source, first), second);
    assert key in MergeMaps(source, MergeMaps(first, second));
  }

  /** A source and a second overlay for which the composition law fails. */
  ghost predicate Separates(source: Yaml, first: Yaml, second: Yaml) {
    && second != Null && Compatible(source, first) && Compatible(MergeNode(source, first), second)
    && MergeNode(MergeNode(source, first), second) != MergeNode(source, MergeNode(first, second))
  }

  lemma SeparatedPlaceholder(first: Mapping, key: string) returns (source: Yaml, second: Yaml)
    requires key in first && IsPlaceholder(first[key])
    ensures Separates(source, Map(first), second) && source.Map? && second.Map?
  {
    source, second := Map(map[key := Scalar(0)]), Map(map[]);
    var left := MergeMaps(map[key := Scalar(0)], first);
    MergedEntry(map[key := Scalar(0)], first, key);
    assert key !in MergeMaps(left, map[]);
    assert key !in MergeMaps(first, map[]);
    assert key in MergeMaps(source.entries, MergeMaps(first, map[]));
  }

  lemma SeparatedEntry(first: Mapping, key: string, s: Yaml, v: Yaml)
    requires key in first && first[key] != Null && Separates(s, first[key], v)
    ensures Separates(Map(map[key := s]), Map(first), Map(map[key := v]))
  {
    hide MergeNode, MergeMaps;
    var source, second := map[key := s], map[key := v];
    assert MergeNode(first[key], v) != Null by { MergeKind(first[key], v); }
    MergedEntry(source, first, key);
    MergedEntry(MergeMaps(source, first), second, key);
    MergedEntry(first, second, key);
    MergedEntry(source, MergeMaps(first, second), key);
    MapsMerge(source, first);
    MapsMerge(MergeMaps(source, first), second);
    MapsMerge(first, second);
    MapsMerge(source, MergeMaps(first, second));
    assert Overrides(first, key) && Overrides(second, key) && Overrides(MergeMaps(first, second), key);
    forall k | k in source && Overrides(first, k) ensures Compatible(source[k], first[k]) { assert k == key; }
    assert CompatibleMaps(source, first);
    forall k | k in MergeMaps(source, first) && Overrides(second, k)
      ensures Compatible(MergeMaps(source, first)[k], second[k])
    {
      assert k == key;
    }
    assert CompatibleMaps(MergeMaps(source, first), second);
    assert MergeMaps(MergeMaps(source, first), second)[key] != MergeMaps(source, MergeMaps(first, second))[key];
  }

  lemma MapsMerge(source: Mapping, overlay: Mapping)
    ensures MergeNode(Map(source), Map(overlay)) == Map(MergeMaps(source, overlay))
  {
  }

  /** `n` empty maps and then `y`. */
  function Padded(n: nat, y: Yaml): (r: seq<Yaml>)
    ensures |r| == n + 1 && r[n] == y && forall i :: 0 <= i < n ==> r[i] == Map(map[])
  {
    seq(n, i => Map(map[])) + [y]
  }

  lemma SeparatedItem(first: seq<Yaml>, i: nat, s: Yaml, v: Yaml)
    requires AllMaps(first) && i < |first| && s.Map? && v.Map? && Separates(s, first[i], v)
    ensures Separates(List(Padded(i, s)), List(first), List(Padded(i, v)))
  {
    hide MergeNode, MergeLists;
    var source, second := Padded(i, s), Padded(i, v);
    var left, right := MergeLists(source, first), MergeLists(first, second);
    assert source[0].Map? && first[0].Map?;
    MergedMaps(source, first);
    ListOverList(source, first);
    forall j | 0 <= j < |left| && j < |second| ensures Compatible(left[j], second[j]) {
      MergeListsAt(source, first, j);
    }
    ListOverList(left, second);
    ListOverList(first, second);
    ListOverList(source, right);
    MergeListsAt(source, first, i);
    MergeListsAt(left, second, i);
    MergeListsAt(first, second, i);
    MergeListsAt(source, right, i);
    assert left[0].Map? && AllMaps(second) && AllMaps(source);
    assert Compatible(List(source), List(first)) && Compatible(List(left), List(second));
    assert MergeLists(left, second)[i] != MergeLists(source, right)[i];
  }

  /** An overlay that is not settled can be told apart from its composition. */
  lemma {:induction false} Separated(first: Yaml) returns (source: Yaml, second: Yaml)
    requires !Settled(first)
    ensures Separates(source, first, second)
    ensures first.Map? ==> source.Map? && second.Map?
    decreases first
  {
    if first.Map? {
      var key :| key in first.entries && (IsPlaceholder(first.entries[key]) || !Settled(first.entries[key]));
      if IsPlaceholder(first.entries[key]) {
        source, second := SeparatedPlaceholder(first.entries, key);
      } else {
        var s, v := Separated(first.entries[key]);
        SeparatedEntry(first.entries, key, s, v);
        source, second := Map(map[key := s]), Map(map[key := v]);
      }
    } else {
      var i :| 0 <= i < |first.items| && !Settled(first.items[i]);
      var s, v := Separated(first.items[i]);
      SeparatedItem(first.items, i, s, v);
      source, second := List(Padded(i, s)), List(Padded(i, v));
    }
  }

  /** The first overlays that compose with every source and every second overlay are exactly the settled ones. */
  lemma ComposesExactly(first: Yaml)
    requires first != Null
    ensures (forall source, second ::
               second != Null && Compatible(source, first) && Compatible(MergeNode(source, first), second) ==>
                 MergeNode(MergeNode(source, first), second) == MergeNode(source, MergeNode(first, second)))
            <==> Settled(first)
  {
    if Settled(first) {
      forall source, second |
          second != Null && Compatible(source, first) && Compatible(MergeNode(source, first), second)
        ensures MergeNode(MergeNode(source, first), second) == MergeNode(source, MergeNode(first, second))
      {
        OverlaysCompose(source, first, second);
      }
    } else {
      var source, second := Separated(first);
      assert MergeNode(MergeNode(source, first), second) != MergeNode(source, MergeNode(first, second));
    }
  }

  // ---------- applying an overlay twice ----------

  lemma {:induction false} MergeSelf(y: Yaml)
    ensures MergeNode(y, y) == y
    ensures Compatible(y, y) <==> Uniform(y)
  {
    match y
    case Map(entries) =>
      forall key | key in entries { MergeSelf(entries[key]); }
      assert MergeMaps(entries, entries) == entries;
    case List(items) =>
      forall i | 0 <= i < |items|
        ensures MergeLists(items, items)[i] == items[i]
        ensures Compatible(items[i], items[i]) <==> Uniform(items[i])
      {
        MergeListsAt(items, items, i);
        MergeSelf(items[i]);
      }
      assert MergeLists(items, items) == items;
    case _ =>
  }

  lemma {:induction false} OverlayIdempotent(source: Yaml, overlay: Yaml)
    requires overlay != Null && Compatible(source, overlay)
    ensures MergeNode(MergeNode(source, overlay), overlay) == MergeNode(source, overlay)
    ensures Compatible(MergeNode(source, overlay), overlay) <==> Uniform(overlay)
    decreases source
  {
    if source.Map? {
      OverlayIdempotentMaps(source.entries, overlay.entries);
    } else if IsMapList(source) {
      OverlayIdempotentLists(source.items, overlay.items);
    } else {
      MergeSelf(overlay);
    }
  }

  lemma {:induction false} OverlayIdempotentLists(source: seq<Yaml>, overlay: seq<Yaml>)
    requires IsMapList(List(source)) && Compatible(List(source), List(overlay))
    ensures MergeNode(List(MergeLists(source, overlay)), List(overlay)) == List(MergeLists(source, overlay))
    ensures Compatible(List(MergeLists(source, overlay)), List(overlay)) <==> Uniform(List(overlay))
    decreases List(source), 0
  {
    hide MergeNode, MergeLists;
    var once := MergeLists(source, overlay);
    MergedMaps(source, overlay);
    ListOverList(once, overlay);
    forall i | 0 <= i < |overlay|
      ensures MergeNode(once[i], overlay[i]) == once[i]
      ensures Compatible(once[i], overlay[i]) <==> Uniform(overlay[i])
    {
      MergeListsAt(source, overlay, i);
      MergeSelf(overlay[i]);
      if i < |source| { OverlayIdempotent(source[i], overlay[i]); }
    }
    var twice := MergeLists(once, overlay);
    forall i | 0 <= i < |once| ensures twice[i] == once[i] { MergeListsAt(once, overlay, i); }
    assert twice == once;
  }

  lemma {:induction false} OverlayIdempotentMaps(source: Mapping, overlay: Mapping)
    requires CompatibleMaps(source, overlay)
    ensures MergeMaps(MergeMaps(source, overlay), overlay) == MergeMaps(source, overlay)
    ensures CompatibleMaps(MergeMaps(source, overlay), overlay) <==> UniformMap(overlay)
    decreases Map(source), 0
  {
    var once := MergeMaps(source, overlay);
    forall key | key in once && Overrides(overlay, key)
      ensures MergeNode(once[key], overlay[key]) == once[key]
      ensures Compatible(once[key], overlay[key]) <==> Uniform(overlay[key])
    {
      MergeSelf(overlay[key]);
      if key in source { OverlayIdempotent(source[key], overlay[key]); }
    }
    assert MergeMaps(once, overlay) == once;
    forall key | key in overlay && overlay[key] != Null ensures key in once { MergedEntry(source, overlay, key); }
    if CompatibleMaps(once, overlay) {
      forall key | key in overlay ensures Uniform(overlay[key]) {
        if overlay[key] != Null { assert Compatible(once[key], overlay[key]); }
      }
    }
  }

  /** Exactly the uniform overlays can be applied again to whatever they were first applied to. */
  lemma ReapplyingIsSafe(overlay: Yaml)
    requires overlay != Null
    ensures (forall source :: Compatible(source, overlay) ==> Compatible(MergeNode(source, overlay), overlay))
            <==> Uniform(overlay)
  {
    if Uniform(overlay) {
      forall source | Compatible(source, overlay) ensures Compatible(MergeNode(source, overlay), overlay) {
        OverlayIdempotent(source, overlay);
      }
    } else {
      MergeSelf(overlay);
      MergeIntoNull(overlay);
      assert Compatible(Null, overlay) && !Compatible(MergeNode(Null, overlay), overlay);
    }
  }
}
