/** Translating the source files of a template into policies with manifests. */
module Translator {
  import opened Strings
  import opened Rendering

  const UNSET := "__unset_value__"
  const SOURCE_CRS := "source-crs"

  datatype SourceFile = SourceFile(policyName: string, fileName: string, compliant: string, nonCompliant: string,
                                   patched: bool)

  datatype Manifest = Manifest(path: string, patched: bool)

  datatype Policy = Policy(name: string, manifests: seq<Manifest>, compliant: string, nonCompliant: string)

  datatype Result<+T> = Ok(value: T) | Malformed

  /** The manifest made from one source file. */
  function ManifestOf(f: SourceFile): Manifest {
    Manifest(if SOURCE_CRS <= f.fileName then f.fileName else SOURCE_CRS + "/" + f.fileName, f.patched)
  }

  /** The positions of the files of one policy, in file order. */
  function PositionsOf(files: seq<SourceFile>, name: string): (positions: seq<nat>)
    ensures forall k :: 0 <= k < |positions| ==> positions[k] < |files| && files[positions[k]].policyName == name
  {
    if files == [] then []
    else
      var last := |files| - 1;
      PositionsOf(files[..last], name) + if files[last].policyName == name then [last] else []
  }

  function ManifestsOf(files: seq<SourceFile>, positions: seq<nat>): (manifests: seq<Manifest>)
    requires forall k :: 0 <= k < |positions| ==> positions[k] < |files|
    ensures |manifests| == |positions|
    ensures forall k :: 0 <= k < |positions| ==> manifests[k] == ManifestOf(files[positions[k]])
  {
    seq(|positions|, k requires 0 <= k < |positions| => ManifestOf(files[positions[k]]))
  }

  /** The last explicit override of a value, or what it was before. */
  function LastOverride(values: seq<string>, initial: string): string {
    if values == [] then initial
    else if values[|values| - 1] != UNSET then values[|values| - 1]
    else LastOverride(values[..|values| - 1], initial)
  }

  function CompliantOf(files: seq<SourceFile>, name: string): seq<string> {
    if files == [] then []
    else
      var last := |files| - 1;
      CompliantOf(files[..last], name) + if files[last].policyName == name then [files[last].compliant] else []
  }

  function NonCompliantOf(files: seq<SourceFile>, name: string): seq<string> {
    if files == [] then []
    else
      var last := |files| - 1;
      NonCompliantOf(files[..last], name) + if files[last].policyName == name then [files[last].nonCompliant] else []
  }

  ghost predicate NamedFiles(files: seq<SourceFile>, name: string) {
    forall k :: 0 <= k < |files| && files[k].policyName == name ==> files[k].fileName != ""
  }

  /**
   * The policy `name` as the files describe it: its manifests in file order, the last explicit interval of each kind.
   */
  ghost predicate IsPolicyOf(policy: Policy, files: seq<SourceFile>, rootName: string, name: string) {
    && policy.name == rootName + "-" + name
    && policy.manifests == ManifestsOf(files, PositionsOf(files, name))
    && policy.compliant == LastOverride(CompliantOf(files, name), "")
    && policy.nonCompliant == LastOverride(NonCompliantOf(files, name), "")
  }

  /** What one more file adds. */
  lemma NextFile(files: seq<SourceFile>, i: nat, name: string)
    requires i < |files|
    ensures files[i].policyName == name ==>
              && PositionsOf(files[..i + 1], name) == PositionsOf(files[..i], name) + [i]
              && CompliantOf(files[..i + 1], name) == CompliantOf(files[..i], name) + [files[i].compliant]
              && NonCompliantOf(files[..i + 1], name) == NonCompliantOf(files[..i], name) + [files[i].nonCompliant]
    ensures files[i].policyName != name ==>
              && PositionsOf(files[..i + 1], name) == PositionsOf(files[..i], name)
              && CompliantOf(files[..i + 1], name) == CompliantOf(files[..i], name)
              && NonCompliantOf(files[..i + 1], name) == NonCompliantOf(files[..i], name)
  {
    assert files[..i + 1][..i] == files[..i];
  }

  lemma NextOverride(values: seq<string>, value: string, initial: string)
    ensures LastOverride(values + [value], initial) == if value != UNSET then value else LastOverride(values, initial)
  {
    assert (values + [value])[..|values|] == values;
  }

  /** One policy: the manifests of its files in file order; a file without a name is malformed. */
  method ConvertPolicy(files: seq<SourceFile>, rootName: string, name: string) returns (r: Result<Policy>)
    ensures r.Ok? <==> NamedFiles(files, name)
    ensures r.Ok? ==> IsPolicyOf(r.value, files, rootName, name)
  {
    hide PositionsOf, CompliantOf, NonCompliantOf, LastOverride, ManifestOf;
    assert PositionsOf([], name) == [] && CompliantOf([], name) == [] && NonCompliantOf([], name) == []
           && LastOverride([], "") == "" by { Empty(name); }
    assert files[..0] == [];
    var manifests, compliant, nonCompliant: string := [], "", "";
    for i := 0 to |files|
      invariant forall k :: 0 <= k < i && files[k].policyName == name ==> files[k].fileName != ""
      invariant manifests == ManifestsOf(files[..i], PositionsOf(files[..i], name))
      invariant compliant == LastOverride(CompliantOf(files[..i], name), "")
      invariant nonCompliant == LastOverride(NonCompliantOf(files[..i], name), "")
    {
      NextFile(files, i, name);
      if files[i].policyName != name {
        assert ManifestsOf(files[..i + 1], PositionsOf(files[..i + 1], name)) == manifests;
        continue;
      }
      if files[i].fileName == "" {
        return Malformed;
      }
      NextOverride(CompliantOf(files[..i], name), files[i].compliant, "");
      NextOverride(NonCompliantOf(files[..i], name), files[i].nonCompliant, "");
      if files[i].compliant != UNSET {
        compliant := files[i].compliant;
      }
      if files[i].nonCompliant != UNSET {
        nonCompliant := files[i].nonCompliant;
      }
      manifests := manifests + [ManifestOf(files[i])];
      assert ManifestsOf(files[..i + 1], PositionsOf(files[..i + 1], name)) == manifests;
    }
    assert files[..|files|] == files;
    r := Ok(Policy(rootName + "-" + name, manifests, compliant, nonCompliant));
  }

  lemma Empty(name: string)
    ensures PositionsOf([], name) == [] && CompliantOf([], name) == [] && NonCompliantOf([], name) == []
    ensures LastOverride([], "") == ""
  {
  }

  ghost function PolicyNames(files: seq<SourceFile>): set<string> {
    set k | 0 <= k < |files| :: files[k].policyName
  }

  /** The policies in strict name order, one for each name a file mentions. */
  ghost predicate Converted(files: seq<SourceFile>, rootName: string, names: seq<string>, policies: seq<Policy>) {
    && SortedKeys(names, PolicyNames(files)) && |policies| == |names|
    && forall i :: 0 <= i < |names| ==> IsPolicyOf(policies[i], files, rootName, names[i])
  }

  method ConvertPolicies(files: seq<SourceFile>, rootName: string)
    returns (r: Result<seq<Policy>>, ghost names: seq<string>)
    ensures r.Ok? <==> forall k :: 0 <= k < |files| ==> files[k].fileName != ""
    ensures r.Ok? ==> Converted(files, rootName, names, r.value)
  {
    var seen: set<string> := {};
    for i := 0 to |files|
      invariant seen == set k | 0 <= k < i :: files[k].policyName
    {
      seen := seen + {files[i].policyName};
    }
    var sorted := SortKeys(seen);
    names := sorted;
    var policies: seq<Policy> := [];
    for i := 0 to |sorted|
      invariant |policies| == i
      invariant forall j :: 0 <= j < i ==>
                              NamedFiles(files, names[j]) && IsPolicyOf(policies[j], files, rootName, names[j])
    {
      var policy := ConvertPolicy(files, rootName, sorted[i]);
      if policy.Malformed? {
        return Malformed, names;
      }
      policies := policies + [policy.value];
    }
    forall k | 0 <= k < |files| ensures files[k].fileName != "" {
      assert files[k].policyName in seen;
      var j :| 0 <= j < |names| && names[j] == files[k].policyName;
      assert NamedFiles(files, names[j]);
    }
    r := Ok(policies);
  }

  // ---------- a stable partition ----------

  /** The positions of a policy's files increase, and include every file of that policy. */
  lemma {:induction false} PositionsStable(files: seq<SourceFile>, name: string)
    ensures forall j, k :: 0 <= j < k < |PositionsOf(files, name)| ==>
            PositionsOf(files, name)[j] < PositionsOf(files, name)[k]
    ensures forall f :: 0 <= f < |files| && files[f].policyName == name ==> f in PositionsOf(files, name)
  {
    if files != [] {
      PositionsStable(files[..|files| - 1], name);
    }
  }

  /** File `f` is the `k`-th manifest of the `i`-th policy. */
  ghost predicate PlacedAt(files: seq<SourceFile>, names: seq<string>, policies: seq<Policy>, f: nat, i: nat, k: nat) {
    && i < |policies| && i < |names| && k < |policies[i].manifests| && k < |PositionsOf(files, names[i])|
    && PositionsOf(files, names[i])[k] == f
  }

  lemma PolicyAt(files: seq<SourceFile>, rootName: string, names: seq<string>, policies: seq<Policy>, i: nat)
    requires Converted(files, rootName, names, policies) && i < |names|
    ensures i < |policies| && policies[i].name == rootName + "-" + names[i]
    ensures policies[i].manifests == ManifestsOf(files, PositionsOf(files, names[i]))
  {
    assert IsPolicyOf(policies[i], files, rootName, names[i]);
  }

  lemma NameIndex(files: seq<SourceFile>, names: seq<string>, f: nat) returns (i: nat)
    requires SortedKeys(names, PolicyNames(files)) && f < |files|
    ensures i < |names| && names[i] == files[f].policyName
  {
    assert files[f].policyName in PolicyNames(files);
    i :| 0 <= i < |names| && names[i] == files[f].policyName;
  }

  /** Every file becomes a manifest of the policy it names. */
  lemma EveryFilePlaced(files: seq<SourceFile>, rootName: string, names: seq<string>, policies: seq<Policy>, f: nat)
    returns (i: nat, k: nat)
    requires Converted(files, rootName, names, policies) && f < |files|
    ensures PlacedAt(files, names, policies, f, i, k)
    ensures names[i] == files[f].policyName && policies[i].name == rootName + "-" + files[f].policyName
    ensures policies[i].manifests[k].patched == files[f].patched
    ensures SOURCE_CRS <= files[f].fileName ==> policies[i].manifests[k].path == files[f].fileName
    ensures !(SOURCE_CRS <= files[f].fileName) ==>
              policies[i].manifests[k].path == SOURCE_CRS + "/" + files[f].fileName
  {
    hide PositionsOf, SortedKeys, PolicyNames;
    i := NameIndex(files, names, f);
    PolicyAt(files, rootName, names, policies, i);
    PositionsStable(files, names[i]);
    k :| 0 <= k < |PositionsOf(files, names[i])| && PositionsOf(files, names[i])[k] == f;
  }

  /** At one place only. */
  lemma PlacedOnce(files: seq<SourceFile>, rootName: string, names: seq<string>, policies: seq<Policy>,
                   f: nat, i: nat, k: nat, i': nat, k': nat)
    requires Converted(files, rootName, names, policies)
    requires PlacedAt(files, names, policies, f, i, k) && PlacedAt(files, names, policies, f, i', k')
    ensures i == i' && k == k'
  {
    hide IsPolicyOf;
    assert names[i] == files[f].policyName == names[i'];
    LessIrreflexive(names[i]);
    PositionsStable(files, names[i]);
  }

  /** Within a policy the manifests keep the order of the files, and the policies are in strict name order. */
  lemma OrderKept(files: seq<SourceFile>, rootName: string, names: seq<string>, policies: seq<Policy>,
                  f: nat, f': nat, i: nat, k: nat, i': nat, k': nat)
    requires Converted(files, rootName, names, policies)
    requires PlacedAt(files, names, policies, f, i, k) && PlacedAt(files, names, policies, f', i', k')
    ensures i < i' <==> Less(files[f].policyName, files[f'].policyName)
    ensures i == i' ==> (k < k' <==> f < f')
  {
    hide IsPolicyOf;
    assert names[i] == files[f].policyName && names[i'] == files[f'].policyName;
    LessIrreflexive(names[i]);
    if i' < i && Less(names[i], names[i']) { LessTransitive(names[i], names[i'], names[i]); }
    if i == i' { PositionsStable(files, names[i]); }
  }

  // ---------- rendering after every policy ----------

  function Sum(counts: seq<nat>): nat {
    if counts == [] then 0 else Sum(counts[..|counts| - 1]) + counts[|counts| - 1]
  }

  lemma {:induction false} SumPrefix(counts: seq<nat>, n: nat)
    requires n <= |counts|
    ensures Sum(counts[..n]) <= Sum(counts)
    decreases |counts| - n
  {
    if n < |counts| {
      SumPrefix(counts, n + 1);
      assert counts[..n + 1][..n] == counts[..n];
    } else {
      assert counts[..n] == counts;
    }
  }

  lemma CountsGrow(counts: seq<nat>, a: nat)
    requires a < |counts|
    ensures Sum(counts[..a]) <= Sum(counts[..a + 1]) <= Sum(counts)
  {
    SumPrefix(counts, a + 1);
    assert counts[..a + 1][..a] == counts[..a];
  }

  /** The first `n` manifests, in order. */
  ghost function First(n: nat): (ops: seq<nat>)
    ensures |ops| == n && forall i :: 0 <= i < n ==> ops[i] == i
  {
    if n == 0 then [] else First(n - 1) + [n - 1]
  }

  /** Once there is no next workspace, there is none for a longer list either. */
  lemma {:induction false} StuckForGood(start: Workspace, n: nat, total: nat, before: Workspace, w: Workspace,
                                        mcp: string)
    requires n < total && Renders(start, First(n), before, mcp)
    requires n >= |before.paths| || before.paths[n] !in before.files
    ensures !Renders(start, First(total), w, mcp)
    decreases total
  {
    hide RenderManifest, Renders, First;
    if Renders(start, First(total), w, mcp) {
      FirstLast(total);
      var previous := BeforeLast(start, First(total), w, mcp);
      if n == total - 1 {
        RendersUnique(start, First(n), before, previous, mcp);
      } else {
        StuckForGood(start, n, total - 1, before, previous, mcp);
      }
    }
  }

  lemma FirstLast(n: nat)
    requires n > 0
    ensures First(n)[|First(n)| - 1] == n - 1 && First(n)[..|First(n)| - 1] == First(n - 1)
  {
  }

  /** A manifest of the first `n` that has been rendered before stays as it is. */
  lemma RenderedBefore(start: Workspace, n: nat, i: nat, w: Workspace, mcp: string)
    requires FilesReplaceable(start.files, mcp) && Renders(start, First(n), w, mcp) && i < n
    ensures i < |w.paths| && w.paths[i] in w.files && RenderManifest(w, i, mcp) == w
  {
    hide RenderManifest, AllStable, FilesReplaceable;
    RendersStable(start, First(n), w, mcp);
    assert First(n)[i] == i;
    assert i in Elements(First(n));
    StableAgain(w, Elements(First(n)), i, mcp);
  }

  /**
   * The loop over all manifests so far, `n` of which have been rendered after earlier policies. It fails exactly at
   * a manifest without a file, and otherwise leaves what rendering each manifest once, in order, would leave.
   */
  method RenderFirst(fs: FileSystem, paths: seq<string>, total: nat, mcp: string, ghost start: Workspace, ghost n: nat)
    returns (ok: bool, rendered: seq<string>)
    requires FilesReplaceable(start.files, mcp) && n <= total <= |paths|
    requires Renders(start, First(n), Workspace(fs.files, paths), mcp)
    modifies fs
    ensures ok ==> |rendered| == |paths| && Renders(start, First(total), Workspace(fs.files, rendered), mcp)
    ensures !ok ==> forall w, longer :: longer >= total ==> !Renders(start, First(longer), w, mcp)
  {
    hide Renders, RenderManifest, RenderedText, RenderedPath, FilesReplaceable, First;
    rendered := paths;
    for i := 0 to total
      invariant |rendered| == |paths|
      invariant Renders(start, First(if i < n then n else i), Workspace(fs.files, rendered), mcp)
    {
      ghost var w := Workspace(fs.files, rendered);
      var output := fs.RenderMCPLines(rendered[i], mcp);
      if i < n { RenderedBefore(start, n, i, w, mcp); }
      if output.None? {
        forall w', longer | longer >= total ensures !Renders(start, First(longer), w', mcp) {
          StuckForGood(start, i, longer, w, w', mcp);
        }
        return false, rendered;
      }
      RenderManifestIs(w, i, mcp);
      rendered := rendered[i := output.value];
      if i >= n { FirstNext(start, i, w, mcp); }
    }
    ok := true;
  }

  lemma FirstNext(start: Workspace, i: nat, w: Workspace, mcp: string)
    requires Renders(start, First(i), w, mcp) && i < |w.paths| && w.paths[i] in w.files
    ensures Renders(start, First(i + 1), RenderManifest(w, i, mcp), mcp)
  {
    hide RenderManifest;
    RendersNext(start, First(i), w, i, mcp);
  }

  /**
   * After each new policy, all manifests so far are rendered again: `counts` says how many each policy has, `paths`
   * where they are. Whatever the file names, this succeeds exactly if rendering every manifest once, in order, does,
   * and leaves the same names and files.
   */
  method RenderAfterEachPolicy(fs: FileSystem, counts: seq<nat>, paths: seq<string>, mcp: string)
    returns (ok: bool, rendered: seq<string>)
    requires |paths| == Sum(counts) && FilesReplaceable(fs.files, mcp)
    modifies fs
    ensures ok <==> exists w :: Renders(old(Workspace(fs.files, paths)), First(|paths|), w, mcp)
    ensures ok ==> Renders(old(Workspace(fs.files, paths)), First(|paths|), Workspace(fs.files, rendered), mcp)
  {
    ghost var start := Workspace(fs.files, paths);
    assert Renders(start, First(0), start, mcp);
    assert counts[..0] == [] && Sum([]) == 0;
    hide Renders, FilesReplaceable, First, Sum;
    rendered := paths;
    for a := 0 to |counts|
      invariant |rendered| == |paths|
      invariant Renders(start, First(Sum(counts[..a])), Workspace(fs.files, rendered), mcp)
    {
      CountsGrow(counts, a);
      ok, rendered := RenderFirst(fs, rendered, Sum(counts[..a + 1]), mcp, start, Sum(counts[..a]));
      if !ok {
        return;
      }
    }
    assert counts[..|counts|] == counts;
    ok := true;
  }

  lemma RenderManifestIs(w: Workspace, i: nat, mcp: string)
    requires i < |w.paths| && w.paths[i] in w.files
    ensures var text := w.files[w.paths[i]];
            var path := RenderedPath(w.paths[i], text, mcp);
            RenderManifest(w, i, mcp) == Workspace(w.files[path := RenderedText(text, mcp)], w.paths[i := path])
  {
  }

  /** Each manifest once is each of them as its job says, if no names clash. */
  lemma FirstRendersOnce(start: Workspace, jobs: seq<Job>, w: Workspace, mcp: string)
    requires NoClash(start, jobs, mcp) && Renders(start, First(|jobs|), w, mcp)
    ensures RenderedOnce(start, jobs, w, Elements(First(|jobs|)))
    ensures forall i :: 0 <= i < |jobs| ==> i in Elements(First(|jobs|))
  {
    hide NoClash, RenderedOnce, Renders;
    RendersOnce(start, jobs, First(|jobs|), w, mcp);
    forall i | 0 <= i < |jobs| ensures i in Elements(First(|jobs|)) { assert First(|jobs|)[i] == i; }
  }
}
