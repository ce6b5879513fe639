/** YAML values as the policy generator sees them after decoding. */
module Yaml {
  import opened Options

  /** `Scalar` stands for every leaf that is neither null nor a string. */
  datatype Yaml =
    | Null
    | Str(text: string)
    | Scalar(id: int)
    | List(items: seq<Yaml>)
    | Map(entries: Mapping)

  type Mapping = map<string, Yaml>

  /** A string the merge treats as "not set by the user": empty, or starting with a dollar sign. */
  predicate IsPlaceholder(y: Yaml) {
    y.Str? && (y.text == "" || y.text[0] == '$')
  }

  lemma PlaceholderText(y: Yaml)
    ensures IsPlaceholder(y) <==> y == Str("") || exists rest :: y == Str("$" + rest)
  {
    if IsPlaceholder(y) && y != Str("") {
      assert y.text == "$" + y.text[1..];
    }
  }

  predicate IsLeaf(y: Yaml) {
    y.Str? || y.Scalar?
  }

  /** The user gave `key` a non-null value. */
  predicate Overrides(overlay: Mapping, key: string) {
    key in overlay && overlay[key] != Null
  }

  /** A non-empty list whose first element is a map: the only lists that are merged element by element. */
  predicate IsMapList(y: Yaml) {
    y.List? && y.items != [] && y.items[0].Map?
  }

  predicate AllMaps(items: seq<Yaml>) {
    forall i :: 0 <= i < |items| ==> items[i].Map?
  }

  /**
   * No placeholder in any map the merge can descend to: through maps, and through non-empty lists of nothing but maps.
   */
  ghost predicate Settled(y: Yaml) {
    match y
    case Map(entries) => SettledMap(entries)
    case List(items) => IsMapList(y) && AllMaps(items) ==> forall i :: 0 <= i < |items| ==> Settled(items[i])
    case _ => true
  }

  ghost predicate SettledMap(entries: Mapping)
    decreases Map(entries), 0
  {
    forall key :: key in entries ==> !IsPlaceholder(entries[key]) && Settled(entries[key])
  }

  /** Every list whose first element is a map, reached through maps and such lists, holds only maps. */
  ghost predicate Uniform(y: Yaml) {
    match y
    case Map(entries) => UniformMap(entries)
    case List(items) => IsMapList(y) ==> AllMaps(items) && forall i :: 0 <= i < |items| ==> Uniform(items[i])
    case _ => true
  }

  ghost predicate UniformMap(entries: Mapping)
    decreases Map(entries), 0
  {
    forall key :: key in entries ==> Uniform(entries[key])
  }

  // ---------- paths ----------

  datatype Step = Key(key: string) | Index(index: nat)

  type Path = seq<Step>

  function Child(y: Yaml, step: Step): Option<Yaml> {
    match step
    case Key(key) => if y.Map? && key in y.entries then Some(y.entries[key]) else None
    case Index(i) => if y.List? && i < |y.items| then Some(y.items[i]) else None
  }

  /** The subtree at `path`, if there is one. */
  function Lookup(y: Yaml, path: Path): Option<Yaml> {
    if path == [] then Some(y)
    else match Child(y, path[0])
      case None => None
      case Some(child) => Lookup(child, path[1..])
  }
}
