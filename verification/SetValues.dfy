/** The in-place overlay merge: both trees are heap objects, and parts of the overlay end up shared by reference. */
module SetValues {
  import opened Options
  import opened Yaml
  import opened Merge

  /** A decoded value: maps are references, lists are slices whose elements are never reassigned. */
  datatype Node =
    | NullNode
    | StrNode(text: string)
    | ScalarNode(id: int)
    | ListNode(items: seq<Node>)
    | MapNode(ref: YamlMap)

  class YamlMap {
    var entries: map<string, Node>
    ghost var value: Mapping
    ghost var footprint: set<YamlMap>

    constructor ()
      ensures Valid() && fresh(footprint)
      ensures value == map[] && entries == map[]
    {
      entries, value, footprint := map[], map[], {this};
    }

    /** The entries form a tree with no sharing, and that tree is `value`. */
    ghost predicate Valid()
      reads this, footprint
      decreases footprint, 0
    {
      && this in footprint
      && entries.Keys == value.Keys
      && (forall key :: key in entries ==> Tree(entries[key], footprint - {this}))
      && (forall key :: key in entries ==> Shows(entries[key], value[key]))
      && (forall key, key' :: key in entries && key' in entries && key != key' ==>
                                Footprint(entries[key]) !! Footprint(entries[key']))
    }
  }

  /** The maps `n` refers to directly, or from inside its lists. */
  ghost function Refs(n: Node): set<YamlMap> {
    match n
    case MapNode(r) => {r}
    case ListNode(items) => set i, r | 0 <= i < |items| && r in Refs(items[i]) :: r
    case _ => {}
  }

  /** All maps below `n`. */
  ghost function Footprint(n: Node): set<YamlMap>
    reads Refs(n)
  {
    match n
    case MapNode(r) => r.footprint
    case ListNode(items) => set i, o | 0 <= i < |items| && o in Footprint(items[i]) :: o
    case _ => {}
  }

  /** `n` is a tree whose maps all lie in `bound`. */
  ghost predicate Tree(n: Node, bound: set<YamlMap>)
    reads bound
    decreases bound, 1, n
  {
    match n
    case MapNode(r) => r in bound && r.footprint <= bound && r.Valid()
    case ListNode(items) =>
      && (forall i :: 0 <= i < |items| ==> Refs(items[i]) <= bound && Tree(items[i], bound))
      && (forall i, j :: 0 <= i < j < |items| ==> Footprint(items[i]) !! Footprint(items[j]))
    case _ => true
  }

  /** `n` stands for the YAML value `y`. */
  ghost predicate Shows(n: Node, y: Yaml)
    reads Refs(n)
  {
    match n
    case NullNode => y == Null
    case StrNode(text) => y == Str(text)
    case ScalarNode(id) => y == Scalar(id)
    case ListNode(items) =>
      y.List? && |items| == |y.items| && forall i :: 0 <= i < |items| ==> Shows(items[i], y.items[i])
    case MapNode(r) => y == Map(r.value)
  }

  lemma {:induction false} TreeFootprint(n: Node, bound: set<YamlMap>)
    requires Tree(n, bound)
    ensures Refs(n) <= bound && Refs(n) <= Footprint(n) <= bound
    ensures Tree(n, Footprint(n))
    decreases n
  {
    match n
    case ListNode(items) =>
      forall i | 0 <= i < |items|
        ensures Refs(items[i]) <= bound && Refs(items[i]) <= Footprint(items[i]) <= bound
        ensures Footprint(items[i]) <= Footprint(n) && Tree(items[i], Footprint(n))
      {
        TreeFootprint(items[i], bound);
        TreeGrows(items[i], Footprint(items[i]), Footprint(n));
      }
    case _ =>
  }

  lemma {:induction false} TreeGrows(n: Node, bound: set<YamlMap>, larger: set<YamlMap>)
    requires Tree(n, bound) && bound <= larger
    ensures Tree(n, larger)
    decreases n
  {
    match n
    case ListNode(items) =>
      forall i | 0 <= i < |items| { TreeGrows(items[i], bound, larger); }
    case _ =>
  }

  /** `n` stands for `y` and is a tree inside `region`. */
  ghost predicate Holds(n: Node, y: Yaml, region: set<YamlMap>)
    reads region
  {
    Refs(n) <= region && Tree(n, region) && Shows(n, y)
  }

  lemma HoldsGrows(n: Node, y: Yaml, region: set<YamlMap>, larger: set<YamlMap>)
    requires Holds(n, y, region) && region <= larger
    ensures Holds(n, y, larger)
  {
    TreeGrows(n, region, larger);
  }

  /** The regions of two lists, position by position. */
  ghost function Beside(own: seq<set<YamlMap>>, theirs: seq<set<YamlMap>>, i: nat): set<YamlMap> {
    (if i < |own| then own[i] else {}) + (if i < |theirs| then theirs[i] else {})
  }

  ghost predicate Separate(regions: seq<set<YamlMap>>, bound: set<YamlMap>) {
    && (forall i :: 0 <= i < |regions| ==> regions[i] <= bound)
    && (forall i, j :: 0 <= i < j < |regions| ==> regions[i] !! regions[j])
  }

  ghost predicate HeadsFit(source: seq<Yaml>, overlay: seq<Yaml>) {
    AllMaps(source) && forall i :: 0 <= i < |source| && i < |overlay| ==>
        overlay[i].Map? && Compatible(source[i], overlay[i])
  }

  ghost predicate TailFits(source: seq<Yaml>, overlay: seq<Yaml>) {
    forall i :: |source| <= i < |overlay| ==> overlay[i].Map?
  }

  lemma ListsFit(source: seq<Yaml>, overlay: seq<Yaml>)
    requires IsMapList(List(source))
    ensures Compatible(List(source), List(overlay)) <==> HeadsFit(source, overlay) && TailFits(source, overlay)
  {
  }

  /** The loop body for the source element at `id`. */
  method MergeItem(items: seq<Node>, overlayItems: seq<Node>, id: nat, ghost source: seq<Yaml>,
                   ghost overlay: seq<Yaml>,
                   ghost own: seq<set<YamlMap>>, ghost theirs: seq<set<YamlMap>>)
    returns (ok: bool)
    requires |items| == |source| == |own| && |overlayItems| == |overlay| == |theirs| && id < |items|
    requires Holds(items[id], source[id], own[id])
    requires id < |overlay| ==> Holds(overlayItems[id], overlay[id], theirs[id]) && own[id] !! theirs[id]
    modifies own[id]
    ensures ok <==> source[id].Map? && (id < |overlay| ==> overlay[id].Map? && Compatible(source[id], overlay[id]))
    ensures ok ==> Holds(items[id], MergeLists(source, overlay)[id], Beside(own, theirs, id))
    decreases source[id], 3
  {
    MergeListsAt(source, overlay, id);
    if !items[id].MapNode? {
      return false;
    }
    if id < |overlayItems| {
      if !overlayItems[id].MapNode? {
        return false;
      }
      ok := SetValues(items[id].ref, overlayItems[id].ref);
    } else {
      assert Beside(own, theirs, id) == own[id];
      ok := true;
    }
  }

  /** The loop over the elements of a source list of maps. */
  method MergeHead(items: seq<Node>, overlayItems: seq<Node>, ghost source: seq<Yaml>, ghost overlay: seq<Yaml>,
                   ghost own: seq<set<YamlMap>>, ghost theirs: seq<set<YamlMap>>,
                   ghost bound: set<YamlMap>, ghost overlayBound: set<YamlMap>)
    returns (ok: bool, merged: seq<Node>)
    requires |items| == |source| == |own| && |overlayItems| == |overlay| == |theirs|
    requires Separate(own, bound) && Separate(theirs, overlayBound) && bound !! overlayBound
    requires forall i :: 0 <= i < |items| ==> Holds(items[i], source[i], own[i])
    requires forall i :: 0 <= i < |overlayItems| ==> Holds(overlayItems[i], overlay[i], theirs[i])
    modifies bound
    ensures ok <==> AllMaps(source) && forall i :: 0 <= i < |source| && i < |overlay| ==>
                                                     overlay[i].Map? && Compatible(source[i], overlay[i])
    ensures ok ==> |merged| == |items|
    ensures ok ==> forall i :: 0 <= i < |items| ==>
                                 Holds(merged[i], MergeLists(source, overlay)[i], Beside(own, theirs, i))
    decreases List(source), 0
  {
    hide Holds;
    ghost var result := MergeLists(source, overlay);
    merged := [];
    for id := 0 to |items|
      invariant |merged| == id
      invariant forall j :: 0 <= j < id ==> source[j].Map?
      invariant forall j :: 0 <= j < id && j < |overlay| ==> overlay[j].Map? && Compatible(source[j], overlay[j])
      invariant forall j :: 0 <= j < id ==> Holds(merged[j], result[j], Beside(own, theirs, j))
      invariant forall j :: id <= j < |items| ==> Holds(items[j], source[j], own[j])
    {
      var done := MergeItem(items, overlayItems, id, source, overlay, own, theirs);
      if !done {
        return false, [];
      }
      merged := merged + [items[id]];
    }
    ok := true;
  }

  ghost function Footprints(items: seq<Node>): (regions: seq<set<YamlMap>>)
    reads Refs(ListNode(items))
    ensures |regions| == |items| && forall i :: 0 <= i < |items| ==> regions[i] == Footprint(items[i])
  {
    if items == [] then []
    else
      assert forall i :: 0 <= i < |items[1..]| ==> items[1..][i] == items[i + 1];
      [Footprint(items[0])] + Footprints(items[1..])
  }

  /** The elements of a list lie in separate regions ... */
  lemma SplitList(items: seq<Node>, ys: seq<Yaml>, bound: set<YamlMap>)
    requires Holds(ListNode(items), List(ys), bound)
    ensures |items| == |ys| && Separate(Footprints(items), bound)
    ensures forall i :: 0 <= i < |items| ==> Holds(items[i], ys[i], Footprints(items)[i])
  {
    forall i | 0 <= i < |items|
      ensures Footprint(items[i]) <= bound && Holds(items[i], ys[i], Footprint(items[i]))
    {
      TreeFootprint(items[i], bound);
    }
  }

  /** ... and elements in separate regions make a list. */
  lemma JoinList(items: seq<Node>, ys: seq<Yaml>, regions: seq<set<YamlMap>>, bound: set<YamlMap>)
    requires |items| == |ys| == |regions| && Separate(regions, bound)
    requires forall i :: 0 <= i < |items| ==> Holds(items[i], ys[i], regions[i])
    ensures Holds(ListNode(items), List(ys), bound)
  {
    forall i | 0 <= i < |items|
      ensures Footprint(items[i]) <= regions[i] && Refs(items[i]) <= bound && Tree(items[i], bound)
    {
      TreeFootprint(items[i], regions[i]);
      HoldsGrows(items[i], ys[i], regions[i], bound);
    }
  }

  /** The loop that appends the overlay elements past the end of the source list. */
  method AppendTail(head: seq<Node>, overlayItems: seq<Node>, ghost source: seq<Yaml>, ghost overlay: seq<Yaml>,
                    ghost own: seq<set<YamlMap>>, ghost theirs: seq<set<YamlMap>>)
    returns (ok: bool, merged: seq<Node>)
    requires |head| == |source| == |own| && |overlayItems| == |overlay| == |theirs|
    requires forall i :: 0 <= i < |head| ==> Holds(head[i], MergeLists(source, overlay)[i], Beside(own, theirs, i))
    requires forall i :: 0 <= i < |overlayItems| ==> Holds(overlayItems[i], overlay[i], theirs[i])
    ensures ok <==> TailFits(source, overlay)
    ensures ok ==> |merged| == |MergeLists(source, overlay)|
    ensures ok ==> forall i :: 0 <= i < |merged| ==>
                                 Holds(merged[i], MergeLists(source, overlay)[i], Beside(own, theirs, i))
  {
    ghost var result := MergeLists(source, overlay);
    merged := head;
    for id := 0 to |overlayItems|
      invariant |merged| == if id < |head| then |head| else id
      invariant forall j :: |head| <= j < id ==> overlay[j].Map?
      invariant forall j :: 0 <= j < |merged| ==> Holds(merged[j], result[j], Beside(own, theirs, j))
    {
      if id >= |head| {
        MergeListsAt(source, overlay, id);
        if !overlayItems[id].MapNode? {
          return false, [];
        }
        assert Beside(own, theirs, id) == theirs[id];
        merged := merged + [overlayItems[id]];
      }
    }
    ok := true;
  }

  /** The branch for a source list of maps: merge the elements both lists have, append the rest of the overlay. */
  method MergeItems(items: seq<Node>, overlayItems: seq<Node>, ghost source: seq<Yaml>, ghost overlay: seq<Yaml>,
                    ghost bound: set<YamlMap>, ghost overlayBound: set<YamlMap>)
    returns (ok: bool, merged: seq<Node>)
    requires Holds(ListNode(items), List(source), bound)
    requires Holds(ListNode(overlayItems), List(overlay), overlayBound)
    requires bound !! overlayBound && IsMapList(List(source))
    modifies bound
    ensures ok <==> Compatible(List(source), List(overlay))
    ensures ok ==> Holds(ListNode(merged), List(MergeLists(source, overlay)), bound + overlayBound)
    decreases List(source), 1
  {
    hide Holds, Compatible, MergeLists, AllMaps;
    SplitList(items, source, bound);
    SplitList(overlayItems, overlay, overlayBound);
    ListsFit(source, overlay);
    ghost var own, theirs := Footprints(items), Footprints(overlayItems);
    ok, merged := MergeHead(items, overlayItems, source, overlay, own, theirs, bound, overlayBound);
    if !ok {
      return;
    }
    assert forall i :: 0 <= i < |overlay| ==> Holds(overlayItems[i], overlay[i], theirs[i]);
    ok, merged := AppendTail(merged, overlayItems, source, overlay, own, theirs);
    if ok {
      JoinList(merged, MergeLists(source, overlay), seq(|merged|, i requires 0 <= i => Beside(own, theirs, i)),
               bound + overlayBound);
    }
  }

  predicate IsMapSlice(n: Node) {
    n.ListNode? && n.items != [] && n.items[0].MapNode?
  }

  lemma KindsAgree(n: Node, y: Yaml)
    requires Shows(n, y)
    ensures n.MapNode? <==> y.Map?
    ensures n.ListNode? <==> y.List?
    ensures n.NullNode? <==> y == Null
    ensures IsMapSlice(n) <==> IsMapList(y)
    ensures IsStringPlaceholder(n) <==> IsPlaceholder(y)
  {
    if n.ListNode? && n.items != [] {
      assert Shows(n.items[0], y.items[0]);
    }
  }

  predicate IsStringPlaceholder(n: Node) {
    n.StrNode? && (n.text == "" || n.text[0] == '$')
  }

  /** What the first loop leaves under a source key it keeps. */
  ghost function AfterFirstLoop(y: Yaml, overlay: Mapping, key: string): Yaml {
    if Overrides(overlay, key) then MergeNode(y, overlay[key]) else y
  }

  ghost predicate KeptByFirstLoop(y: Yaml, overlay: Mapping, key: string) {
    Overrides(overlay, key) || !IsPlaceholder(y)
  }

  /** The branches of the first loop that do not delete: the new node for one overridden source entry. */
  method MergeEntry(n: Node, m: Node, ghost y: Yaml, ghost v: Yaml, ghost own: set<YamlMap>, ghost theirs: set<YamlMap>)
    returns (ok: bool, merged: Node)
    requires Holds(n, y, own) && Holds(m, v, theirs) && own !! theirs && v != Null
    modifies own
    ensures ok <==> Compatible(y, v)
    ensures ok ==> Holds(merged, MergeNode(y, v), own + theirs)
    decreases y, 3
  {
    KindsAgree(n, y);
    KindsAgree(m, v);
    if n.MapNode? {
      if !m.MapNode? {
        return false, n;
      }
      ok := SetValues(n.ref, m.ref);
      merged := n;
    } else if IsMapSlice(n) {
      if !m.ListNode? {
        return false, n;
      }
      var items;
      ok, items := MergeItems(n.items, m.items, y.items, v.items, own, theirs);
      merged := ListNode(items);
    } else {
      HoldsGrows(m, v, theirs, own + theirs);
      ok, merged := true, m;
    }
  }

  /** Each entry stands for its value inside its own region. */
  ghost predicate Parts(entries: map<string, Node>, values: Mapping, regions: map<string, set<YamlMap>>)
    reads set key, o | key in regions && o in regions[key] :: o
  {
    && entries.Keys == values.Keys == regions.Keys
    && forall key :: key in entries ==> Holds(entries[key], values[key], regions[key])
  }

  ghost predicate SeparateParts(regions: map<string, set<YamlMap>>, bound: set<YamlMap>) {
    && (forall key :: key in regions ==> regions[key] <= bound)
    && (forall key, key' :: key in regions && key' in regions && key != key' ==> regions[key] !! regions[key'])
  }

  /** The entries of `m` stand for `values`, each in a region of its own inside `bound`. */
  ghost predicate Laid(m: YamlMap, values: Mapping, regions: map<string, set<YamlMap>>, bound: set<YamlMap>)
    reads m, bound
  {
    SeparateParts(regions, bound) && Parts(m.entries, values, regions)
  }

  lemma LaidAt(m: YamlMap, values: Mapping, regions: map<string, set<YamlMap>>, bound: set<YamlMap>, key: string)
    requires Laid(m, values, regions, bound)
    ensures key in m.entries <==> key in values
    ensures key in values ==> key in regions && Holds(m.entries[key], values[key], At(regions, key))
    ensures At(regions, key) <= bound
  {
  }

  ghost function At(regions: map<string, set<YamlMap>>, key: string): set<YamlMap> {
    if key in regions then regions[key] else {}
  }

  ghost predicate SameElsewhere(m: map<string, Node>, n: map<string, Node>, key: string) {
    forall other :: other != key ==> (other in m <==> other in n) && (other in m ==> m[other] == n[other])
  }

  /** The body of the first loop. */
  method OverrideEntry(source: YamlMap, overlay: YamlMap, key: string, ghost y: Yaml, ghost v: Mapping,
                       ghost own: set<YamlMap>, ghost theirs: set<YamlMap>)
    returns (ok: bool)
    requires key in source.entries && Holds(source.entries[key], y, own)
    requires key in overlay.entries <==> key in v
    requires key in v ==> Holds(overlay.entries[key], v[key], theirs)
    requires own !! theirs && source !in own + theirs && overlay !in own && source != overlay
    modifies source`entries, own
    ensures ok <==> (Overrides(v, key) ==> Compatible(y, v[key]))
    ensures ok ==> SameElsewhere(source.entries, old(source.entries), key)
    ensures ok ==> (key in source.entries <==> KeptByFirstLoop(y, v, key))
    ensures ok && key in source.entries ==> Holds(source.entries[key], AfterFirstLoop(y, v, key), own + theirs)
    decreases y, 4
  {
    hide Compatible, Tree, Refs;
    var n := source.entries[key];
    KindsAgree(n, y);
    if key in overlay.entries {
      KindsAgree(overlay.entries[key], v[key]);
    }
    if key !in overlay.entries || overlay.entries[key].NullNode? {
      ok := true;
      if IsStringPlaceholder(n) {
        source.entries := source.entries - {key};
      } else {
        HoldsGrows(n, y, own, own + theirs);
      }
    } else {
      var merged;
      ok, merged := MergeEntry(n, overlay.entries[key], y, v[key], own, theirs);
      if ok {
        source.entries := source.entries[key := merged];
      }
    }
  }

  /** How far the first loop is with one key of the source. */
  ghost predicate Progress(entries: map<string, Node>, todo: set<string>, key: string, y: Yaml, v: Mapping,
                           own: set<YamlMap>, theirs: set<YamlMap>)
    reads own + theirs
  {
    if key in todo then key in entries && Holds(entries[key], y, own)
    else
      && (key in entries <==> KeptByFirstLoop(y, v, key))
      && (key in entries ==> Holds(entries[key], AfterFirstLoop(y, v, key), own + theirs))
      && (Overrides(v, key) ==> Compatible(y, v[key]))
  }

  /** Working on `key` leaves every other key where it was. */
  lemma ProgressElsewhere(m: map<string, Node>, n: map<string, Node>, todo: set<string>, key: string, other: string,
                          y: Yaml, v: Mapping, own: set<YamlMap>, theirs: set<YamlMap>)
    requires SameElsewhere(n, m, key) && other != key && Progress(m, todo, other, y, v, own, theirs)
    ensures Progress(n, todo - {key}, other, y, v, own, theirs)
  {
  }

  /** Every key of the source is where the first loop should have it. */
  ghost predicate AllProgress(entries: map<string, Node>, todo: set<string>, s: Mapping, v: Mapping,
                              own: map<string, set<YamlMap>>, theirs: map<string, set<YamlMap>>)
    reads set key, o | key in s && o in At(own, key) :: o
    reads set key, o | key in s && o in At(theirs, key) :: o
  {
    forall key :: key in s ==> Progress(entries, todo, key, s[key], v, At(own, key), At(theirs, key))
  }

  /** One iteration of the first loop. */
  method OverrideStep(source: YamlMap, overlay: YamlMap, key: string, ghost todo: set<string>,
                      ghost s: Mapping, ghost v: Mapping,
                      ghost own: map<string, set<YamlMap>>, ghost theirs: map<string, set<YamlMap>>,
                      ghost bound: set<YamlMap>, ghost overlayBound: set<YamlMap>)
    returns (ok: bool)
    requires key in todo && key in s
    requires AllProgress(source.entries, todo, s, v, own, theirs)
    requires SeparateParts(own, bound) && Laid(overlay, v, theirs, overlayBound)
    requires bound !! overlayBound && source !in bound + overlayBound && overlay !in bound && source != overlay
    modifies source`entries, bound
    ensures Overrides(v, key) && !Compatible(s[key], v[key]) ==> !ok
    ensures !ok ==> Overrides(v, key) && !Compatible(s[key], v[key])
    ensures ok ==> AllProgress(source.entries, todo - {key}, s, v, own, theirs)
    ensures ok ==> source.entries.Keys <= old(source.entries.Keys)
    ensures ok ==> old(source.entries.Keys) <= source.entries.Keys + {key}
    decreases Map(s), 0
  {
    hide Holds, Laid;
    forall other ensures At(theirs, other) <= overlayBound {
      LaidAt(overlay, v, theirs, overlayBound, other);
    }
    LaidAt(overlay, v, theirs, overlayBound, key);
    ghost var before := source.entries;
    assert Progress(before, todo, key, s[key], v, At(own, key), At(theirs, key));
    ok := OverrideEntry(source, overlay, key, s[key], v, At(own, key), At(theirs, key));
    if ok {
      forall other | other in s && other != key
        ensures Progress(source.entries, todo - {key}, other, s[other], v, At(own, other), At(theirs, other))
      {
        assert old(Progress(before, todo, other, s[other], v, At(own, other), At(theirs, other)));
        assert Progress(before, todo, other, s[other], v, At(own, other), At(theirs, other));
        ProgressElsewhere(before, source.entries, todo, key, other, s[other], v, At(own, other), At(theirs, other));
      }
    }
  }

  /** The first loop, over the entries of the source in any order. */
  method OverrideEntries(source: YamlMap, overlay: YamlMap, ghost s: Mapping, ghost v: Mapping,
                         ghost own: map<string, set<YamlMap>>, ghost theirs: map<string, set<YamlMap>>,
                         ghost bound: set<YamlMap>, ghost overlayBound: set<YamlMap>)
    returns (ok: bool)
    requires Laid(source, s, own, bound) && Laid(overlay, v, theirs, overlayBound)
    requires bound !! overlayBound && source !in bound + overlayBound && overlay !in bound && source != overlay
    modifies source`entries, bound
    ensures ok <==> CompatibleMaps(s, v)
    ensures ok ==> source.entries.Keys <= s.Keys && AllProgress(source.entries, {}, s, v, own, theirs)
    decreases Map(s), 1
  {
    var todo := source.entries.Keys;
    FirstLoopStarts(source, s, v, own, theirs, bound);
    while todo != {}
      invariant todo <= source.entries.Keys <= s.Keys
      invariant AllProgress(source.entries, todo, s, v, own, theirs)
      invariant Laid(overlay, v, theirs, overlayBound)
    {
      hide Laid, Progress, AllProgress;
      var key :| key in todo;
      var done := OverrideStep(source, overlay, key, todo, s, v, own, theirs, bound, overlayBound);
      if !done {
        return false;
      }
      todo := todo - {key};
    }
    ok := true;
    FirstLoopEnds(source.entries, s, v, own, theirs);
  }

  lemma FirstLoopStarts(source: YamlMap, s: Mapping, v: Mapping,
                        own: map<string, set<YamlMap>>, theirs: map<string, set<YamlMap>>, bound: set<YamlMap>)
    requires Laid(source, s, own, bound)
    ensures source.entries.Keys == s.Keys && SeparateParts(own, bound)
    ensures AllProgress(source.entries, source.entries.Keys, s, v, own, theirs)
  {
  }

  lemma FirstLoopEnds(entries: map<string, Node>, s: Mapping, v: Mapping,
                      own: map<string, set<YamlMap>>, theirs: map<string, set<YamlMap>>)
    requires AllProgress(entries, {}, s, v, own, theirs)
    ensures CompatibleMaps(s, v)
  {
    forall key | key in s && Overrides(v, key) ensures Compatible(s[key], v[key]) {
      assert Progress(entries, {}, key, s[key], v, At(own, key), At(theirs, key));
    }
  }

  /** What a key holds once the first loop is over. */
  ghost function Midway(s: Mapping, v: Mapping, key: string): Option<Yaml> {
    if key in s && KeptByFirstLoop(s[key], v, key) then Some(AfterFirstLoop(s[key], v, key)) else None
  }

  ghost predicate HoldsAt(entries: map<string, Node>, key: string, want: Option<Yaml>, region: set<YamlMap>)
    reads region
  {
    match want
    case None => key !in entries
    case Some(y) => key in entries && Holds(entries[key], y, region)
  }

  /** How far the second loop is with one key. */
  ghost function Wanted(s: Mapping, v: Mapping, todo: set<string>, key: string): Option<Yaml> {
    if key in v && key !in todo then Entry(MergeMaps(s, v), key) else Midway(s, v, key)
  }

  ghost predicate AllWanted(entries: map<string, Node>, todo: set<string>, s: Mapping, v: Mapping,
                            regions: map<string, set<YamlMap>>)
    requires regions.Keys == s.Keys + v.Keys
    reads set key, o | key in regions && o in regions[key] :: o
  {
    && entries.Keys <= regions.Keys
    && forall key :: key in regions ==> HoldsAt(entries, key, Wanted(s, v, todo, key), regions[key])
  }

  /** The body of the second loop. */
  method AddEntry(source: YamlMap, overlay: YamlMap, key: string, ghost s: Mapping, ghost v: Mapping,
                  ghost region: set<YamlMap>)
    requires key in overlay.entries && key in v && Holds(overlay.entries[key], v[key], region)
    requires HoldsAt(source.entries, key, Midway(s, v, key), region) && source !in region && source != overlay
    modifies source`entries
    ensures SameElsewhere(source.entries, old(source.entries), key)
    ensures HoldsAt(source.entries, key, Entry(MergeMaps(s, v), key), region)
  {
    hide Tree, Refs, MergeNode;
    if key in source.entries {
      KindsAgree(source.entries[key], Midway(s, v, key).value);
    }
    assert key in s && Overrides(v, key) ==> MergeNode(s[key], v[key]) != Null by { MergeIsNotNull(s, v, key); }
    if key !in source.entries || source.entries[key].NullNode? {
      source.entries := source.entries[key := overlay.entries[key]];
    }
  }

  lemma MergeIsNotNull(s: Mapping, v: Mapping, key: string)
    ensures key in s && Overrides(v, key) ==> MergeNode(s[key], v[key]) != Null
  {
  }

  lemma Elsewhere(m: map<string, Node>, n: map<string, Node>, key: string, other: string, want: Option<Yaml>,
                  region: set<YamlMap>)
    requires SameElsewhere(n, m, key) && other != key && HoldsAt(m, other, want, region)
    ensures HoldsAt(n, other, want, region)
  {
  }

  /** One iteration of the second loop. */
  method AddStep(source: YamlMap, overlay: YamlMap, key: string, ghost todo: set<string>, ghost s: Mapping,
                 ghost v: Mapping,
                 ghost regions: map<string, set<YamlMap>>)
    requires regions.Keys == s.Keys + v.Keys && key in todo
    requires key in overlay.entries && key in v && Holds(overlay.entries[key], v[key], regions[key])
    requires source != overlay && forall other :: other in regions ==> source !in regions[other]
    requires AllWanted(source.entries, todo, s, v, regions)
    modifies source`entries
    ensures AllWanted(source.entries, todo - {key}, s, v, regions)
  {
    hide Holds, HoldsAt, MergeMaps, Midway;
    ghost var before := source.entries;
    assert HoldsAt(before, key, Wanted(s, v, todo, key), regions[key]);
    AddEntry(source, overlay, key, s, v, regions[key]);
    forall other | other in regions
      ensures HoldsAt(source.entries, other, Wanted(s, v, todo - {key}, other), regions[other])
    {
      if other != key {
        assert HoldsAt(before, other, Wanted(s, v, todo, other), regions[other]);
        Elsewhere(before, source.entries, key, other, Wanted(s, v, todo, other), regions[other]);
      }
    }
  }

  /** The second loop, over the entries of the overlay in any order. */
  method AddEntries(source: YamlMap, overlay: YamlMap, ghost s: Mapping, ghost v: Mapping,
                    ghost theirs: map<string, set<YamlMap>>, ghost overlayBound: set<YamlMap>,
                    ghost regions: map<string, set<YamlMap>>)
    requires regions.Keys == s.Keys + v.Keys && Laid(overlay, v, theirs, overlayBound)
    requires forall key :: key in regions ==> At(theirs, key) <= regions[key] && source !in regions[key]
    requires source !in overlayBound && source != overlay
    requires AllWanted(source.entries, overlay.entries.Keys, s, v, regions)
    modifies source`entries
    ensures AllWanted(source.entries, {}, s, v, regions)
  {
    hide Laid, Holds, AllWanted;
    var todo := overlay.entries.Keys;
    while todo != {}
      invariant todo <= overlay.entries.Keys
      invariant Laid(overlay, v, theirs, overlayBound)
      invariant AllWanted(source.entries, todo, s, v, regions)
    {
      var key :| key in todo;
      LaidAt(overlay, v, theirs, overlayBound, key);
      HoldsGrows(overlay.entries[key], v[key], At(theirs, key), regions[key]);
      AddStep(source, overlay, key, todo, s, v, regions);
      todo := todo - {key};
    }
  }

  lemma RefsInside(m: YamlMap)
    requires m.Valid()
    ensures m in m.footprint && forall key :: key in m.entries ==> Refs(m.entries[key]) <= m.footprint
  {
    forall key | key in m.entries ensures Refs(m.entries[key]) <= m.footprint {
      TreeFootprint(m.entries[key], m.footprint - {m});
    }
  }

  ghost function Regions(m: YamlMap): (regions: map<string, set<YamlMap>>)
    requires m.Valid()
    reads m, m.footprint
    ensures regions.Keys == m.value.Keys
  {
    RefsInside(m);
    map key | key in m.entries :: Footprint(m.entries[key])
  }

  /** The entries of a valid map lie in separate regions ... */
  lemma SplitMap(m: YamlMap)
    requires m.Valid()
    ensures m in m.footprint && m.entries.Keys == m.value.Keys
    ensures Laid(m, m.value, Regions(m), m.footprint - {m}) && SeparateParts(Regions(m), m.footprint - {m})
  {
    forall key | key in m.entries
      ensures Footprint(m.entries[key]) <= m.footprint - {m}
      ensures Holds(m.entries[key], m.value[key], Footprint(m.entries[key]))
    {
      TreeFootprint(m.entries[key], m.footprint - {m});
    }
  }

  /** ... and entries in separate regions make a valid map. */
  lemma JoinMap(m: YamlMap, regions: map<string, set<YamlMap>>, bound: set<YamlMap>)
    requires m in m.footprint && m.entries.Keys == m.value.Keys && m.entries.Keys <= regions.Keys
    requires SeparateParts(regions, bound) && bound <= m.footprint - {m}
    requires forall key :: key in m.entries ==> Holds(m.entries[key], m.value[key], regions[key])
    ensures m.Valid()
  {
    forall key | key in m.entries
      ensures Footprint(m.entries[key]) <= regions[key]
      ensures Holds(m.entries[key], m.value[key], m.footprint - {m})
    {
      TreeFootprint(m.entries[key], regions[key]);
      HoldsGrows(m.entries[key], m.value[key], regions[key], m.footprint - {m});
    }
  }

  ghost function Joint(own: map<string, set<YamlMap>>, theirs: map<string, set<YamlMap>>): map<string, set<YamlMap>> {
    map key | key in own.Keys + theirs.Keys :: At(own, key) + At(theirs, key)
  }

  lemma JointSeparate(own: map<string, set<YamlMap>>, theirs: map<string, set<YamlMap>>,
                      bound: set<YamlMap>, overlayBound: set<YamlMap>)
    requires SeparateParts(own, bound) && SeparateParts(theirs, overlayBound) && bound !! overlayBound
    ensures SeparateParts(Joint(own, theirs), bound + overlayBound)
    ensures forall key :: key in Joint(own, theirs) ==>
                            At(theirs, key) <= Joint(own, theirs)[key] <= bound + overlayBound
  {
    forall key, key' | key != key' ensures At(own, key) !! At(own, key') && At(theirs, key) !! At(theirs, key') {}
  }

  lemma BetweenLoops(entries: map<string, Node>, s: Mapping, v: Mapping,
                     own: map<string, set<YamlMap>>, theirs: map<string, set<YamlMap>>)
    requires own.Keys == s.Keys && theirs.Keys == v.Keys && entries.Keys <= s.Keys
    requires AllProgress(entries, {}, s, v, own, theirs)
    ensures AllWanted(entries, v.Keys, s, v, Joint(own, theirs))
  {
    forall key | key in Joint(own, theirs)
      ensures HoldsAt(entries, key, Wanted(s, v, v.Keys, key), Joint(own, theirs)[key])
    {
      if key in s {
        assert Progress(entries, {}, key, s[key], v, At(own, key), At(theirs, key));
      }
    }
  }

  lemma AfterLoops(entries: map<string, Node>, s: Mapping, v: Mapping, regions: map<string, set<YamlMap>>)
    requires regions.Keys == s.Keys + v.Keys && AllWanted(entries, {}, s, v, regions)
    ensures entries.Keys == MergeMaps(s, v).Keys && entries.Keys <= regions.Keys
    ensures forall key :: key in entries ==> Holds(entries[key], MergeMaps(s, v)[key], regions[key])
  {
    forall key | key in regions
      ensures HoldsAt(entries, key, Entry(MergeMaps(s, v), key), regions[key])
    {
      assert Wanted(s, v, {}, key) == Entry(MergeMaps(s, v), key);
    }
  }

  /**
   * Merge `overlay` into `source` in place, in any iteration order. `ok` is false when a type assertion
   * panics. No object of the overlay is written, although parts of it become parts of the result.
   */
  method SetValues(source: YamlMap, overlay: YamlMap) returns (ok: bool)
    requires source.Valid() && overlay.Valid() && source.footprint !! overlay.footprint
    modifies source.footprint
    ensures ok <==> CompatibleMaps(old(source.value), overlay.value)
    ensures ok <==> FitsEverywhere(Map(old(source.value)), Map(overlay.value))
    ensures ok ==> source.Valid() && source.value == MergeMaps(old(source.value), overlay.value)
    ensures ok ==> source.footprint == old(source.footprint + overlay.footprint)
    ensures overlay.Valid() && unchanged(overlay.footprint)
    decreases Map(source.value), 2
  {
    hide YamlMap.Valid, AllProgress, AllWanted, MergeMaps, CompatibleMaps, FitsEverywhere, Laid, Holds,
         SeparateParts, Regions;
    MapsFitExactly(source.value, overlay.value);
    SplitMap(source);
    SplitMap(overlay);
    ghost var s, v, own, theirs := source.value, overlay.value, Regions(source), Regions(overlay);
    ghost var bound, overlayBound := source.footprint - {source}, overlay.footprint - {overlay};
    ok := OverrideEntries(source, overlay, s, v, own, theirs, bound, overlayBound);
    if ok {
      BetweenLoops(source.entries, s, v, own, theirs);
      JointSeparate(own, theirs, bound, overlayBound);
      AddEntries(source, overlay, s, v, theirs, overlayBound, Joint(own, theirs));
      source.value := MergeMaps(s, v);
      source.footprint := source.footprint + overlay.footprint;
      AfterLoops(source.entries, s, v, Joint(own, theirs));
      JoinMap(source, Joint(own, theirs), bound + overlayBound);
    }
  }
}