/**
 * Building a custom resource: the user's overlay is merged into the source section by section. And what the
 * translator's single patch makes of the same overlay.
 */
module CustomResources {
  import opened Options
  import opened Yaml
  import opened Merge
  import opened MergeKeys
  import opened StrategicMerge

  /** What the user gives for one source file; a section is absent if it is missing or null. */
  datatype Overlay = Overlay(
    name: string,
    namespace: string,
    labels: map<string, string>,
    annotations: map<string, string>,
    sections: map<string, Mapping>)

  const SECTIONS := {"spec", "data", "status", "binaryData", "stringData"}

  /** The sections the translator's patch has. */
  const TRANSLATED := {"spec", "status"}

  function AsMapping(texts: map<string, string>): Mapping {
    map key | key in texts :: Str(texts[key])
  }

  function Given(overlay: Overlay, name: string): Mapping {
    if name in overlay.sections then overlay.sections[name] else map[]
  }

  predicate Present(node: Mapping, name: string) {
    name in node && node[name] != Null
  }

  // ---------- what the policy generator builds ----------

  /** A field into which a map is merged: it must be a map the overlay fits, or be missing or null. */
  predicate MapFits(node: Mapping, name: string, overlay: Mapping) {
    Present(node, name) ==> node[name].Map? && CompatibleMaps(node[name].entries, overlay)
  }

  function EntriesAt(node: Mapping, name: string): Mapping {
    if Present(node, name) && node[name].Map? then node[name].entries else map[]
  }

  /** `setValues` on a field, which is created if missing; none if a type assertion panics. */
  method MergeInto(node: Mapping, name: string, overlay: Mapping) returns (r: Option<Mapping>)
    ensures r.Some? <==> MapFits(node, name, overlay)
    ensures r.Some? ==> r.value == node[name := Map(MergeMaps(EntriesAt(node, name), overlay))]
  {
    var entries: Mapping := map[];
    if Present(node, name) {
      if !node[name].Map? || !CompatibleMaps(node[name].entries, overlay) {
        return None;
      }
      entries := node[name].entries;
    }
    r := Some(node[name := Map(MergeMaps(entries, overlay))]);
  }

  /** A section is merged if the source has it, even with nothing; it is created if only the user has it. */
  method MergeSection(resource: Mapping, overlay: Overlay, name: string) returns (r: Option<Mapping>)
    ensures r.Some? <==> MapFits(resource, name, Given(overlay, name))
    ensures r.Some? ==> forall other :: other != name ==> Entry(r.value, other) == Entry(resource, other)
    ensures r.Some? ==> Entry(r.value, name) == SectionBuilt(resource, overlay, name)
  {
    if !Present(resource, name) && name !in overlay.sections {
      return Some(resource);
    }
    r := MergeInto(resource, name, Given(overlay, name));
  }

  /** What a section of the resource is. */
  function SectionBuilt(source: Mapping, overlay: Overlay, name: string): Option<Yaml> {
    if Present(source, name) || name in overlay.sections
    then Some(Map(MergeMaps(EntriesAt(source, name), Given(overlay, name))))
    else if name in source then Some(source[name])
    else None
  }

  predicate NoMetadata(overlay: Overlay) {
    overlay.name == "" && overlay.namespace == "" && overlay.labels == map[] && overlay.annotations == map[]
  }

  predicate TextsFit(node: Mapping, key: string, texts: map<string, string>) {
    texts != map[] ==> MapFits(node, key, AsMapping(texts))
  }

  /** A text replaces the field if it is not empty. */
  ghost predicate TextSet(before: Mapping, after: Mapping, key: string, text: string) {
    Entry(after, key) == if text == "" then Entry(before, key) else Some(Str(text))
  }

  /** Each text given is there; of the entries not given, all but the placeholders survive. Nothing given, no change. */
  ghost predicate TextsSet(before: Mapping, after: Mapping, key: string, texts: map<string, string>) {
    if texts == map[] then Entry(after, key) == Entry(before, key)
    else
      && key in after && after[key].Map?
      && forall name ::
           Entry(after[key].entries, name) ==
           if name in texts then Some(Str(texts[name]))
           else if Present(before, key) && before[key].Map? && name in before[key].entries
                   && !IsPlaceholder(before[key].entries[name])
           then Some(before[key].entries[name])
           else None
  }

  /** Name and namespace are those given, labels and annotations are merged, and nothing else changes. */
  ghost predicate MetadataSet(before: Mapping, after: Mapping, overlay: Overlay) {
    && TextSet(before, after, "name", overlay.name) && TextSet(before, after, "namespace", overlay.namespace)
    && TextsSet(before, after, "labels", overlay.labels) && TextsSet(before, after, "annotations", overlay.annotations)
    && forall key :: key !in {"name", "namespace", "labels", "annotations"} ==> Entry(after, key) == Entry(before, key)
  }

  /** Merging texts into a field sets them. */
  lemma TextsMerged(node: Mapping, key: string, texts: map<string, string>)
    requires texts != map[] && MapFits(node, key, AsMapping(texts))
    ensures TextsSet(node, node[key := Map(MergeMaps(EntriesAt(node, key), AsMapping(texts)))], key, texts)
  {
    var entries, overlay := EntriesAt(node, key), AsMapping(texts);
    forall name
      ensures Entry(MergeMaps(entries, overlay), name) ==
              if name in texts then Some(Str(texts[name]))
              else if name in entries && !IsPlaceholder(entries[name]) then Some(entries[name])
              else None
    {
      hide MergeMaps;
      EntryOfMerge(entries, overlay, name);
      if name in texts && name in entries { TextReplaces(entries[name], texts[name]); }
    }
  }

  lemma TextReplaces(source: Yaml, text: string)
    requires Compatible(source, Str(text))
    ensures MergeNode(source, Str(text)) == Str(text)
  {
  }

  /** The fields set before are not touched when another is set. */
  lemma TextsStay(before: Mapping, node: Mapping, node': Mapping, after: Mapping, key: string,
                  texts: map<string, string>)
    requires Entry(before, key) == Entry(node, key) && Entry(after, key) == Entry(node', key)
    requires TextsSet(node, node', key, texts)
    ensures TextsSet(before, after, key, texts)
  {
  }

  /** The block for labels, and that for annotations. */
  method MergeTexts(node: Mapping, key: string, texts: map<string, string>) returns (r: Option<Mapping>)
    ensures r.Some? <==> TextsFit(node, key, texts)
    ensures r.Some? ==> TextsSet(node, r.value, key, texts)
    ensures r.Some? ==> forall other :: other != key ==> Entry(r.value, other) == Entry(node, other)
  {
    hide MapFits, EntriesAt, AsMapping, MergeMaps;
    if texts == map[] {
      return Some(node);
    }
    r := MergeInto(node, key, AsMapping(texts));
    if r.Some? {
      TextsMerged(node, key, texts);
    }
  }

  method MergeMetadata(metadata: Mapping, overlay: Overlay) returns (r: Option<Mapping>)
    ensures r.Some? <==>
              TextsFit(metadata, "labels", overlay.labels) && TextsFit(metadata, "annotations", overlay.annotations)
    ensures r.Some? ==> MetadataSet(metadata, r.value, overlay)
  {
    hide MapFits, EntriesAt, AsMapping, MergeMaps, TextsSet;
    var node := metadata;
    if overlay.name != "" {
      node := node["name" := Str(overlay.name)];
    }
    if overlay.namespace != "" {
      node := node["namespace" := Str(overlay.namespace)];
    }
    FieldKept(metadata, node, "labels", AsMapping(overlay.labels));
    var labelled := MergeTexts(node, "labels", overlay.labels);
    if labelled.None? {
      return None;
    }
    FieldKept(metadata, labelled.value, "annotations", AsMapping(overlay.annotations));
    r := MergeTexts(labelled.value, "annotations", overlay.annotations);
    if r.Some? {
      TextsStay(metadata, node, labelled.value, r.value, "labels", overlay.labels);
      TextsStay(metadata, labelled.value, r.value, r.value, "annotations", overlay.annotations);
    }
  }

  lemma FieldKept(node: Mapping, other: Mapping, key: string, overlay: Mapping)
    requires Entry(node, key) == Entry(other, key)
    ensures MapFits(node, key, overlay) <==> MapFits(other, key, overlay)
    ensures EntriesAt(node, key) == EntriesAt(other, key)
  {
  }

  lemma NothingSet(metadata: Mapping, overlay: Overlay)
    requires NoMetadata(overlay)
    ensures TextsFit(metadata, "labels", overlay.labels) && TextsFit(metadata, "annotations", overlay.annotations)
    ensures MetadataSet(metadata, metadata, overlay)
  {
  }

  /** When building does not fail: there is metadata, and every merge fits. */
  predicate Builds(source: Mapping, overlay: Overlay) {
    && "metadata" in source
    && (if source["metadata"].Map? then
          && TextsFit(source["metadata"].entries, "labels", overlay.labels)
          && TextsFit(source["metadata"].entries, "annotations", overlay.annotations)
        else overlay.name == "" && overlay.namespace == "" && overlay.labels == map[] && overlay.annotations == map[])
    && forall name :: name in SECTIONS ==> MapFits(source, name, Given(overlay, name))
  }

  /** The resource, field by field; none if an error or a panic ends it. */
  method GetCustomResource(source: Mapping, overlay: Overlay) returns (r: Option<Mapping>)
    ensures r.Some? <==> Builds(source, overlay)
    ensures r.Some? ==> forall name :: name in SECTIONS ==> Entry(r.value, name) == SectionBuilt(source, overlay, name)
    ensures r.Some? ==> "metadata" in r.value
    ensures r.Some? && source["metadata"].Map? ==>
              && r.value["metadata"].Map?
              && MetadataSet(source["metadata"].entries, r.value["metadata"].entries, overlay)
    ensures r.Some? && !source["metadata"].Map? ==> r.value["metadata"] == source["metadata"]
    ensures r.Some? ==> forall name :: name != "metadata" && name !in SECTIONS ==>
            Entry(r.value, name) == Entry(source, name)
  {
    hide MapFits, EntriesAt, SectionBuilt, TextsFit, MetadataSet, Given, MergeMaps, CompatibleMaps;
    if "metadata" !in source {
      return None;
    }
    var resource := source;
    if !NoMetadata(overlay) {
      if !source["metadata"].Map? {
        return None;
      }
      var metadata := MergeMetadata(source["metadata"].entries, overlay);
      if metadata.None? {
        return None;
      }
      resource := resource["metadata" := Map(metadata.value)];
    } else if source["metadata"].Map? {
      NothingSet(source["metadata"].entries, overlay);
    }
    assert forall name :: name != "metadata" ==> Entry(resource, name) == Entry(source, name);
    r := MergeSections(source, resource, overlay);
    assert r.Some? ==> Entry(r.value, "metadata") == Entry(resource, "metadata");
  }

  /** The five sections, one after the other; none is read after another has been written to it. */
  method MergeSections(source: Mapping, resource: Mapping, overlay: Overlay) returns (r: Option<Mapping>)
    requires forall name :: name != "metadata" ==> Entry(resource, name) == Entry(source, name)
    ensures r.Some? <==> forall name :: name in SECTIONS ==> MapFits(source, name, Given(overlay, name))
    ensures r.Some? ==> forall name :: name in SECTIONS ==> Entry(r.value, name) == SectionBuilt(source, overlay, name)
    ensures r.Some? ==> forall name :: name !in SECTIONS ==> Entry(r.value, name) == Entry(resource, name)
  {
    hide MapFits, EntriesAt, SectionBuilt, Given, Entry;
    r := NextSection(source, resource, overlay, "spec", {}, resource);
    if r.None? {
      return;
    }
    r := NextSection(source, r.value, overlay, "data", {"spec"}, resource);
    if r.None? {
      return;
    }
    r := NextSection(source, r.value, overlay, "status", {"spec", "data"}, resource);
    if r.None? {
      return;
    }
    r := NextSection(source, r.value, overlay, "binaryData", {"spec", "data", "status"}, resource);
    if r.None? {
      return;
    }
    r := NextSection(source, r.value, overlay, "stringData", {"spec", "data", "status", "binaryData"}, resource);
  }

  /** The sections in `done` are as they should be, all else is as at the start. */
  ghost predicate SectionsDone(source: Mapping, resource: Mapping, overlay: Overlay, done: set<string>,
                               start: Mapping) {
    && (forall name :: name in done ==>
          MapFits(source, name, Given(overlay, name)) && Entry(resource, name) == SectionBuilt(source, overlay, name))
    && (forall name :: name !in done ==> Entry(resource, name) == Entry(start, name))
  }

  method NextSection(source: Mapping, resource: Mapping, overlay: Overlay, name: string,
                     ghost done: set<string>, ghost start: Mapping)
    returns (r: Option<Mapping>)
    requires SectionsDone(source, resource, overlay, done, start)
    requires name !in done && Entry(start, name) == Entry(source, name)
    ensures r.Some? <==> MapFits(source, name, Given(overlay, name))
    ensures r.Some? ==> SectionsDone(source, r.value, overlay, done + {name}, start)
  {
    hide MapFits, EntriesAt, SectionBuilt, Given, Entry;
    SectionKept(source, resource, overlay, name);
    r := MergeSection(resource, overlay, name);
  }

  lemma SectionKept(source: Mapping, resource: Mapping, overlay: Overlay, name: string)
    requires Entry(source, name) == Entry(resource, name)
    ensures MapFits(source, name, Given(overlay, name)) <==> MapFits(resource, name, Given(overlay, name))
    ensures SectionBuilt(source, overlay, name) == SectionBuilt(resource, overlay, name)
  {
  }

  // ---------- what the translator's patch makes of it ----------

  /** One patch with the parts that are not empty. */
  method TranslatedPatch(metadata: Mapping, overlay: Overlay) returns (patch: Mapping)
    ensures patch == PatchOf(metadata, overlay)
  {
    patch := map[];
    if metadata != map[] {
      patch := patch["metadata" := Map(metadata)];
    }
    if Given(overlay, "spec") != map[] {
      patch := patch["spec" := Map(Given(overlay, "spec"))];
    }
    if Given(overlay, "status") != map[] {
      patch := patch["status" := Map(Given(overlay, "status"))];
    }
  }

  function Part(metadata: Mapping, overlay: Overlay, name: string): Mapping {
    if name == "metadata" then metadata else Given(overlay, name)
  }

  function PatchOf(metadata: Mapping, overlay: Overlay): Mapping {
    map name | name in {"metadata", "spec", "status"} && Part(metadata, overlay, name) != map[] ::
      Map(Part(metadata, overlay, name))
  }

  /** The section after merging the translated and injected patch. */
  ghost function SectionTranslated(props: Properties, source: Mapping, metadata: Mapping, overlay: Overlay,
                                   targets: seq<Target>, name: string): Option<Yaml>
    requires Usable(targets)
  {
    Entry(StrategicMaps(props, source, InjectAll(PatchOf(metadata, overlay), source, targets)), name)
  }

  /** A section the source has: the merges agree on it. One it has not: the user does not give an empty one. */
  ghost predicate SectionAlike(props: Properties, source: Mapping, overlay: Overlay, name: string) {
    if Present(source, name) then DocumentAlike(Inside(props, name), EntriesAt(source, name), Given(overlay, name))
    else Given(overlay, name) == map[] ==> name !in overlay.sections
  }

  /** Where the section's keyed lists meet the user's, the keys fit. */
  ghost predicate KeyedSection(props: Properties, source: Mapping, overlay: Overlay, name: string) {
    KeyedDocument(Inside(props, name), EntriesAt(source, name), Given(overlay, name))
  }

  /** Translating a section keeps its meaning exactly if the section is alike for the two merges. */
  lemma SectionAgrees(props: Properties, source: Mapping, metadata: Mapping, overlay: Overlay, targets: seq<Target>,
                      name: string)
    requires Covers(props, targets) && name in TRANSLATED
    requires MapFits(source, name, Given(overlay, name)) && KeyedSection(props, source, overlay, name)
    ensures SectionTranslated(props, source, metadata, overlay, targets, name) == SectionBuilt(source, overlay, name)
            <==> SectionAlike(props, source, overlay, name)
  {
    hide Covers, InjectAll, StrategicMaps, MergeMaps, CompatibleMaps, KeyedDocument, DocumentAlike;
    var patch, given := PatchOf(metadata, overlay), Given(overlay, name);
    InjectAllField(patch, source, targets, name);
    StrategicEntry(props, source, InjectAll(patch, source, targets), name);
    if given == map[] {
      assert name !in patch;
      if Present(source, name) { NothingGiven(Inside(props, name), EntriesAt(source, name)); }
    } else {
      assert name in patch && patch[name] == Map(given);
      if Present(source, name) {
        CoversInside(props, targets, name);
        DocumentAgrees(Inside(props, name), EntriesAt(source, name), given, Below(targets, name));
      } else {
        IntoNothing(given);
      }
    }
  }

  /** What the schema-aware merge holds under one name. */
  lemma StrategicEntry(props: Properties, source: Mapping, patch: Mapping, name: string)
    ensures Entry(StrategicMaps(props, source, patch), name) ==
            if name !in patch then Entry(source, name)
            else if patch[name] == Null then None
            else if name in source then Some(StrategicField(props, name, source[name], patch[name]))
            else Some(patch[name])
  {
    hide StrategicField;
  }

  lemma IntoNothing(given: Mapping)
    ensures MergeMaps(map[], given) == given
  {
  }

  /** With nothing given, the generator still clears the placeholders at the top of a section. */
  lemma NothingGiven(props: Properties, entries: Mapping)
    ensures MergeMaps(entries, map[]) == entries <==> DocumentAlike(props, entries, map[])
  {
    var merged := MergeMaps(entries, map[]);
    if DocumentAlike(props, entries, map[]) {
      assert merged == entries;
    } else {
      var name :| name in entries && IsPlaceholder(entries[name]);
      assert name !in merged;
    }
  }

  /** All other sections stay as in the source: what the user gives for them is lost. */
  lemma SectionDropped(props: Properties, source: Mapping, metadata: Mapping, overlay: Overlay, targets: seq<Target>,
                       name: string)
    requires Usable(targets) && name in SECTIONS - TRANSLATED && MapFits(source, name, Given(overlay, name))
    ensures SectionTranslated(props, source, metadata, overlay, targets, name) == Entry(source, name)
    ensures SectionTranslated(props, source, metadata, overlay, targets, name) ==
            SectionBuilt(source, overlay, name) <==>
            if Present(source, name)
            then MergeMaps(EntriesAt(source, name), Given(overlay, name)) == EntriesAt(source, name)
            else name !in overlay.sections
  {
    hide InjectAll, StrategicMaps, MergeMaps, CompatibleMaps;
    var patch := PatchOf(metadata, overlay);
    InjectAllField(patch, source, targets, name);
    StrategicEntry(props, source, InjectAll(patch, source, targets), name);
  }
}
