/** The policy generator's main loop, whose annotation maps, templates and resources are shared and keep changing. */
module Build {
  import opened Options
  import opened Yaml
  import opened PolicySummary
  import Selectors

  const TEMPLATE_ANNOTATIONS: map<string, string> := map[
    "policy.open-cluster-management.io/categories" := "CM Configuration Management",
    "policy.open-cluster-management.io/controls" := "CM-2 Baseline Configuration",
    "policy.open-cluster-management.io/standards" := "NIST SP 800-53"
  ]

  class CustomResource {
    const document: Document
    var annotations: Annotations

    constructor (document: Document)
      ensures this.document == document && annotations == document.annotations
    {
      this.document := document;
      annotations := document.annotations;
    }
  }

  class StringMap {
    var entries: map<string, string>

    constructor (entries: map<string, string>)
      ensures this.entries == entries
    {
      this.entries := entries;
    }
  }

  datatype ObjectTemplate = ObjectTemplate(complianceType: string, definition: CustomResource)

  class PolicyTemplate {
    var remediationAction: string
    var compliant: string
    var nonCompliant: string
    var objectTemplates: seq<ObjectTemplate>

    constructor ()
      ensures remediationAction == "inform" && objectTemplates == []
    {
      remediationAction, compliant, nonCompliant, objectTemplates := "inform", "", "", [];
    }
  }

  /** The annotations and the template are shared by every copy of a policy; the remediation action is not. */
  datatype AcmPolicy = AcmPolicy(
    name: string,
    namespace: string,
    annotations: StringMap,
    remediationAction: string,
    template: PolicyTemplate)

  datatype Output =
    | Resources(resources: seq<CustomResource>)
    | Policy(policy: AcmPolicy)
    | Rule(name: string, expressions: seq<Selectors.Requirement>)
    | Binding(ruleName: string, subjects: seq<string>)

  // ---------- what the heap should show ----------

  function AnnotationsFor(wave: Option<string>): map<string, string> {
    if wave.Some? then TEMPLATE_ANNOTATIONS[WAVE := wave.value] else TEMPLATE_ANNOTATIONS
  }

  ghost predicate Loaded(resources: seq<CustomResource>, documents: seq<Document>)
    reads set resource | resource in resources
  {
    && |resources| == |documents|
    && forall i :: 0 <= i < |resources| ==>
                     resources[i].document == documents[i] && resources[i].annotations == documents[i].annotations
  }

  ghost predicate Distinct(resources: seq<CustomResource>) {
    forall i, j :: 0 <= i < j < |resources| ==> resources[i] != resources[j]
  }

  /** The template refers to the resource, which has lost its wave. */
  ghost predicate ShowsTemplate(template: ObjectTemplate, e: Embedded)
    reads template.definition
  {
    && template.complianceType == e.complianceType && template.definition.document == e.document
    && template.definition.annotations == Stripped(e.document.annotations)
  }

  ghost predicate ShowsTemplates(templates: seq<ObjectTemplate>, es: seq<Embedded>)
    reads set template | template in templates :: template.definition
  {
    |templates| == |es| && forall i :: 0 <= i < |templates| ==> ShowsTemplate(templates[i], es[i])
  }

  ghost predicate Shows(p: AcmPolicy, s: Summary)
    reads p.template, p.annotations, set template | template in p.template.objectTemplates :: template.definition
  {
    && p.remediationAction == s.remediationAction && p.template.remediationAction == s.remediationAction
    && p.template.compliant == s.compliant && p.template.nonCompliant == s.nonCompliant
    && p.annotations.entries == AnnotationsFor(s.wave)
    && ShowsTemplates(p.template.objectTemplates, s.templates)
  }

  // ---------- one policy ----------

  method Load(documents: seq<Document>) returns (resources: seq<CustomResource>)
    ensures Loaded(resources, documents) && Distinct(resources)
    ensures forall i :: 0 <= i < |resources| ==> fresh(resources[i])
  {
    resources := [];
    for i := 0 to |documents|
      invariant |resources| == i && Distinct(resources)
      invariant forall j :: 0 <= j < i ==>
                              && fresh(resources[j]) && resources[j].document == documents[j]
                              && resources[j].annotations == documents[j].annotations
    {
      var resource := new CustomResource(documents[i]);
      resources := resources + [resource];
    }
  }

  function BuildObjectTemplate(t: Template, f: SourceFile, resource: CustomResource): ObjectTemplate {
    ObjectTemplate(if f.complianceType != UNSET then f.complianceType else t.complianceType, resource)
  }

  /** The resource's wave must fit the policy's, and goes to the policy; it is deleted from the resource. */
  method SetPolicyDeployWave(policyAnnotations: StringMap, resource: CustomResource, ghost wave: Option<string>)
    returns (ok: bool)
    requires policyAnnotations.entries == AnnotationsFor(wave) && resource.annotations == resource.document.annotations
    modifies policyAnnotations, resource
    ensures ok <==> NextWave(Agreed(wave), resource.document).Agreed?
    ensures ok ==> policyAnnotations.entries == AnnotationsFor(NextWave(Agreed(wave), resource.document).wave)
    ensures ok ==> resource.annotations == Stripped(resource.document.annotations)
  {
    var annotations := resource.annotations;
    var entries := if annotations.Entries? then annotations.entries else map[];
    if WAVE in entries && entries[WAVE].Str? {
      var resourceWave := entries[WAVE].text;
      if WAVE !in policyAnnotations.entries {
        policyAnnotations.entries := policyAnnotations.entries[WAVE := resourceWave];
      } else if policyAnnotations.entries[WAVE] != resourceWave {
        return false;
      }
    }
    if annotations.Entries? {
      resource.annotations := Entries(entries - {WAVE});
    }
    if entries - {WAVE} == map[] {
      resource.annotations := Absent;
    }
    ok := true;
  }

  lemma ClashInPrefix(wave: Wave, documents: seq<Document>, n: nat)
    requires n <= |documents| && WaveAfter(wave, documents[..n]) == Clash
    ensures WaveAfter(wave, documents) == Clash
  {
    assert documents == documents[..n] + documents[n..];
    WaveConcat(wave, documents[..n], documents[n..]);
    ClashStays(documents[n..]);
  }

  /** The loop over one file's resources: a template for each, and its wave. */
  method AddResources(t: Template, f: SourceFile, policyAnnotations: StringMap, resources: seq<CustomResource>,
                      ghost documents: seq<Document>, ghost wave: Option<string>)
    returns (ok: bool, added: seq<ObjectTemplate>)
    requires policyAnnotations.entries == AnnotationsFor(wave)
    requires Loaded(resources, documents) && Distinct(resources)
    modifies policyAnnotations, resources
    ensures ok <==> WaveAfter(Agreed(wave), documents).Agreed?
    ensures ok ==> policyAnnotations.entries == AnnotationsFor(WaveAfter(Agreed(wave), documents).wave)
    ensures ok ==> ShowsTemplates(added, EmbedFile(t, f, documents))
    ensures f.complianceType != UNSET ==> forall template :: template in added ==>
              template.complianceType == f.complianceType
    ensures f.complianceType == UNSET ==> forall template :: template in added ==>
              template.complianceType == t.complianceType
    ensures forall template :: template in added ==> template.definition in resources
  {
    hide AnnotationsFor, WaveOf, Stripped;
    added := [];
    for i := 0 to |resources|
      invariant WaveAfter(Agreed(wave), documents[..i]).Agreed?
      invariant policyAnnotations.entries == AnnotationsFor(WaveAfter(Agreed(wave), documents[..i]).wave)
      invariant |added| == i
      invariant forall j :: 0 <= j < i ==> added[j] == BuildObjectTemplate(t, f, resources[j])
      invariant forall j :: 0 <= j < i ==> resources[j].annotations == Stripped(documents[j].annotations)
      invariant forall j :: i <= j < |resources| ==> resources[j].annotations == documents[j].annotations
    {
      var template := BuildObjectTemplate(t, f, resources[i]);
      added := added + [template];
      assert documents[..i + 1][..i] == documents[..i];
      var fits := SetPolicyDeployWave(policyAnnotations, resources[i], WaveAfter(Agreed(wave), documents[..i]).wave);
      if !fits {
        ClashInPrefix(Agreed(wave), documents, i + 1);
        return false, added;
      }
    }
    assert documents[..|documents|] == documents;
    ok := true;
  }

  /** A new policy from the built-in template. */
  method CreateAcmPolicy(t: Template, f: SourceFile, name: string, resources: seq<CustomResource>,
                         ghost documents: seq<Document>)
    returns (ok: bool, policy: AcmPolicy)
    requires Loaded(resources, documents) && Distinct(resources)
    modifies resources
    ensures fresh(policy.annotations) && fresh(policy.template)
    ensures ok <==> |t.namespace| + 1 + |name| <= 63 && WaveAfter(Agreed(None), documents).Agreed?
    ensures ok ==> policy.name == name && policy.namespace == t.namespace
    ensures ok ==> policy.annotations.entries == AnnotationsFor(WaveAfter(Agreed(None), documents).wave)
    ensures ok ==> ShowsTemplates(policy.template.objectTemplates, EmbedFile(t, f, documents))
    ensures ok && f.complianceType != UNSET ==> forall template :: template in policy.template.objectTemplates ==>
              template.complianceType == f.complianceType
    ensures ok && f.complianceType == UNSET ==> forall template :: template in policy.template.objectTemplates ==>
              template.complianceType == t.complianceType
    ensures ok ==> forall template :: template in policy.template.objectTemplates ==> template.definition in resources
  {
    hide WaveAfter, EmbedFile;
    var annotations := new StringMap(TEMPLATE_ANNOTATIONS);
    var template := new PolicyTemplate();
    policy := AcmPolicy(name, t.namespace, annotations, "inform", template);
    if !NameFits(t.namespace, name) {
      return false, policy;
    }
    var objectTemplates;
    ok, objectTemplates := AddResources(t, f, annotations, resources, documents, None);
    if ok {
      template.objectTemplates := objectTemplates;
    }
  }

  /** The template's intervals start as the defaults, which must be valid, as must be what the file sets instead. */
  method SetIntervals(t: Template, parses: string -> bool, f: SourceFile, template: PolicyTemplate) returns (ok: bool)
    modifies template`compliant, template`nonCompliant
    ensures ok <==> && ValidInterval(parses, t.compliant) && ValidInterval(parses, t.nonCompliant)
                    && ValidOverride(parses, f.compliant) && ValidOverride(parses, f.nonCompliant)
    ensures ok <==> forall interval ::
              interval in {t.compliant, t.nonCompliant}
              || (interval in {f.compliant, f.nonCompliant} && interval != UNSET) ==>
                interval == "never" || interval == "watch" || parses(interval)
    ensures ok ==> template.compliant == if f.compliant != UNSET then f.compliant else t.compliant
    ensures ok ==> template.nonCompliant == if f.nonCompliant != UNSET then f.nonCompliant else t.nonCompliant
  {
    if !ValidInterval(parses, t.compliant) || !ValidInterval(parses, t.nonCompliant) {
      return false;
    }
    template.compliant, template.nonCompliant := t.compliant, t.nonCompliant;
    if f.compliant != UNSET {
      if !ValidInterval(parses, f.compliant) {
        return false;
      }
      template.compliant := f.compliant;
    }
    if f.nonCompliant != UNSET {
      if !ValidInterval(parses, f.nonCompliant) {
        return false;
      }
      template.nonCompliant := f.nonCompliant;
    }
    ok := true;
  }

  /** What a further file sets must be valid, and fit what is set already. */
  method OverrideIntervals(t: Template, parses: string -> bool, f: SourceFile, template: PolicyTemplate)
    returns (ok: bool)
    modifies template`compliant, template`nonCompliant
    ensures var compliant := Override(t.compliant, Some(old(template.compliant)), f.compliant);
            var nonCompliant := Override(t.nonCompliant, Some(old(template.nonCompliant)), f.nonCompliant);
            && (ok <==> && ValidOverride(parses, f.compliant) && ValidOverride(parses, f.nonCompliant)
                        && compliant.Some? && nonCompliant.Some?)
            && (ok ==> template.compliant == compliant.value && template.nonCompliant == nonCompliant.value)
  {
    var compliant, nonCompliant := template.compliant, template.nonCompliant;
    if f.compliant != UNSET {
      if !ValidInterval(parses, f.compliant) || (f.compliant != compliant && compliant != t.compliant) {
        return false;
      }
      template.compliant := f.compliant;
    }
    if f.nonCompliant != UNSET {
      if !ValidInterval(parses, f.nonCompliant) || (f.nonCompliant != nonCompliant && nonCompliant != t.nonCompliant) {
        return false;
      }
      template.nonCompliant := f.nonCompliant;
    }
    ok := true;
  }

  method NewPolicy(t: Template, parses: string -> bool, f: SourceFile, resources: seq<CustomResource>)
    returns (ok: bool, policy: AcmPolicy)
    requires f.documents.Some? && Loaded(resources, f.documents.value) && Distinct(resources)
    modifies resources
    ensures fresh(policy.annotations) && fresh(policy.template)
    ensures ok <==> Create(t, parses, f).Built?
    ensures ok ==> policy.name == t.name + "-" + f.policyName && policy.namespace == t.namespace
    ensures ok ==> Shows(policy, Create(t, parses, f).summary)
    ensures ok ==> forall template :: template in policy.template.objectTemplates ==> template.definition in resources
  {
    hide WaveAfter, EmbedFile, AnnotationsFor, ValidInterval, ValidOverride, ShowsTemplates, Loaded, Distinct;
    ok, policy := CreateAcmPolicy(t, f, t.name + "-" + f.policyName, resources, f.documents.value);
    if !ok {
      return;
    }
    var remediationAction := if f.remediationAction != UNSET then f.remediationAction else t.remediationAction;
    policy := policy.(remediationAction := remediationAction);
    policy.template.remediationAction := remediationAction;
    ok := SetIntervals(t, parses, f, policy.template);
  }

  lemma ConcatTemplates(a: seq<ObjectTemplate>, b: seq<ObjectTemplate>, es: seq<Embedded>, fs: seq<Embedded>)
    requires ShowsTemplates(a, es) && ShowsTemplates(b, fs)
    ensures ShowsTemplates(a + b, es + fs)
  {
    hide ShowsTemplate;
  }

  /** Further resources go behind the ones the shared template already has. */
  method AppendAcmPolicy(t: Template, f: SourceFile, policy: AcmPolicy, resources: seq<CustomResource>,
                         ghost documents: seq<Document>, ghost s: Summary)
    returns (ok: bool)
    requires Shows(policy, s) && Loaded(resources, documents) && Distinct(resources)
    requires forall template :: template in policy.template.objectTemplates ==> template.definition !in resources
    modifies policy.annotations, policy.template, resources
    ensures ok <==> s.templates != [] && WaveAfter(Agreed(s.wave), documents).Agreed?
    ensures ok ==> policy.annotations.entries == AnnotationsFor(WaveAfter(Agreed(s.wave), documents).wave)
    ensures ok ==> ShowsTemplates(policy.template.objectTemplates, s.templates + EmbedFile(t, f, documents))
    ensures ok ==> var before := |old(policy.template.objectTemplates)|;
                   && before <= |policy.template.objectTemplates|
                   && policy.template.objectTemplates[..before] == old(policy.template.objectTemplates)
                   && forall template :: template in policy.template.objectTemplates[before..] ==>
                        && (f.complianceType != UNSET ==> template.complianceType == f.complianceType)
                        && (f.complianceType == UNSET ==> template.complianceType == t.complianceType)
    ensures policy.template.remediationAction == old(policy.template.remediationAction)
    ensures policy.template.compliant == old(policy.template.compliant)
    ensures policy.template.nonCompliant == old(policy.template.nonCompliant)
  {
    hide WaveAfter, EmbedFile, AnnotationsFor, ShowsTemplates, Loaded, Distinct;
    assert s.templates == [] <==> policy.template.objectTemplates == [] by {
      SameLength(policy.template.objectTemplates, s.templates);
    }
    var objectTemplates := policy.template.objectTemplates;
    if objectTemplates == [] {
      return false;
    }
    var added;
    ok, added := AddResources(t, f, policy.annotations, resources, documents, s.wave);
    if ok {
      ConcatTemplates(objectTemplates, added, s.templates, EmbedFile(t, f, documents));
      policy.template.objectTemplates := objectTemplates + added;
    }
  }

  lemma SameLength(templates: seq<ObjectTemplate>, es: seq<Embedded>)
    requires ShowsTemplates(templates, es)
    ensures |templates| == |es|
  {
  }

  /** The remediation action of the policy and that of its shared template change together. */
  method OverrideRemediation(t: Template, f: SourceFile, policy: AcmPolicy) returns (ok: bool, r: AcmPolicy)
    requires policy.template.remediationAction == policy.remediationAction
    modifies policy.template`remediationAction
    ensures var action := Override(t.remediationAction, Some(policy.remediationAction), f.remediationAction);
            && (ok <==> action.Some?)
            && (ok ==> r.remediationAction == action.value && policy.template.remediationAction == action.value)
    ensures r == policy.(remediationAction := r.remediationAction)
  {
    r := policy;
    if f.remediationAction != UNSET {
      if f.remediationAction != policy.remediationAction && policy.remediationAction != t.remediationAction {
        return false, r;
      }
      r := r.(remediationAction := f.remediationAction);
      r.template.remediationAction := f.remediationAction;
    }
    ok := true;
  }

  method AppendPolicy(t: Template, parses: string -> bool, f: SourceFile, policy: AcmPolicy,
                      resources: seq<CustomResource>,
                      ghost s: Summary)
    returns (ok: bool, r: AcmPolicy)
    requires f.documents.Some? && Loaded(resources, f.documents.value) && Distinct(resources) && Shows(policy, s)
    requires forall template :: template in policy.template.objectTemplates ==> template.definition !in resources
    modifies policy.annotations, policy.template, resources
    ensures ok <==> Append(t, parses, s, f).Built?
    ensures ok ==> Shows(r, Append(t, parses, s, f).summary)
    ensures r == policy.(remediationAction := r.remediationAction)
  {
    hide WaveAfter, EmbedFile, AnnotationsFor, ValidInterval, ValidOverride, ShowsTemplates, Loaded, Distinct, Override;
    r := policy;
    ok := AppendAcmPolicy(t, f, policy, resources, f.documents.value, s);
    if !ok {
      return;
    }
    ok, r := OverrideRemediation(t, f, policy);
    if ok {
      ok := OverrideIntervals(t, parses, f, policy.template);
    }
  }

  // ---------- output names ----------

  const RULE := "placementrules"
  const BINDING := "placementbinding"

  predicate IsPlain(t: Template, f: SourceFile) {
    f.policyName == "" || !t.wrapInPolicy
  }

  /** Where the extension of the last path element starts, looking at the first `n` characters. */
  function StemEnd(fileName: string, n: nat): (end: nat)
    requires n <= |fileName|
    ensures end <= |fileName|
  {
    if n == 0 || fileName[n - 1] == '/' then |fileName|
    else if fileName[n - 1] == '.' then n - 1
    else StemEnd(fileName, n - 1)
  }

  /** The extension starts at the last dot of the last path element, if that has one. */
  lemma {:induction false} StemExactly(fileName: string, n: nat)
    requires n <= |fileName|
    ensures var end := StemEnd(fileName, n);
            if end < n then fileName[end] == '.' && forall i :: end < i < n ==> fileName[i] !in {'.', '/'}
            else end == |fileName| && forall i :: 0 <= i < n && fileName[i] == '.' ==>
                                        exists k :: i < k < n && fileName[k] == '/'
  {
    if n > 0 && fileName[n - 1] !in {'.', '/'} { StemExactly(fileName, n - 1); }
  }

  /** Several resources go to a file named after theirs, without its extension; a lone one to a file of its own name. */
  lemma PlainNameExactly(f: SourceFile, stem: string, extension: string)
    requires f.documents.Some?
    requires f.fileName == stem + "." + extension && '.' !in extension && '/' !in extension
    ensures |f.documents.value| > 1 ==> PlainName(f) == Some("Multiple-" + stem)
    ensures |f.documents.value| == 1 ==> PlainName(f) == f.documents.value[0].plainName
    ensures f.documents.value == [] ==> PlainName(f) == None
  {
    var end := StemEnd(f.fileName, |f.fileName|);
    StemExactly(f.fileName, |f.fileName|);
    var dot := |stem|;
    assert f.fileName[dot] == '.' && forall i :: dot < i < |f.fileName| ==> f.fileName[i] == extension[i - dot - 1];
    assert end == dot;
    assert f.fileName[..dot] == stem;
  }

  /** The name of a file of plain resources; none if a lone resource is missing or lacks what its name needs. */
  function PlainName(f: SourceFile): Option<string>
    requires f.documents.Some?
  {
    var documents := f.documents.value;
    if |documents| > 1 then Some("Multiple-" + f.fileName[..StemEnd(f.fileName, |f.fileName|)])
    else if |documents| == 1 then documents[0].plainName
    else None
  }

  function PlainKey(t: Template, name: string): string {
    "customResource/" + t.name + "/" + name
  }

  function PolicyKey(t: Template, policyName: string): string {
    t.name + "/" + t.name + "-" + policyName
  }

  /** The fixed part of one kind of output name starts with that of the other. */
  predicate KeysMayClash(t: Template) {
    PlainKey(t, "") <= PolicyKey(t, "") || PolicyKey(t, "") <= PlainKey(t, "")
  }

  /** Plain resources and policies never overwrite each other. */
  lemma KeysApart(t: Template, name: string, policyName: string)
    requires !KeysMayClash(t)
    ensures PlainKey(t, name) != PolicyKey(t, policyName)
  {
    assert PlainKey(t, name) == PlainKey(t, "") + name;
    assert PolicyKey(t, policyName) == PolicyKey(t, "") + policyName;
    if PlainKey(t, name) == PolicyKey(t, policyName) {
      PrefixesMeet(PlainKey(t, ""), PolicyKey(t, ""), name, policyName);
    }
  }

  lemma PrefixesMeet(a: string, b: string, x: string, y: string)
    requires a + x == b + y
    ensures a <= b || b <= a
  {
    assert forall i :: 0 <= i < |a| ==> (a + x)[i] == a[i];
    assert forall i :: 0 <= i < |b| ==> (b + y)[i] == b[i];
  }

  /** They can, for some names, exactly for the templates that are ruled out. */
  lemma KeysClashExactly(t: Template)
    ensures KeysMayClash(t) <==> exists name, policyName :: PlainKey(t, name) == PolicyKey(t, policyName)
  {
    var plain, policy := PlainKey(t, ""), PolicyKey(t, "");
    if plain <= policy {
      assert PlainKey(t, policy[|plain|..]) == plain + policy[|plain|..] == policy;
    } else if policy <= plain {
      assert PolicyKey(t, plain[|policy|..]) == policy + plain[|policy|..] == plain == PlainKey(t, "");
    } else {
      forall name, policyName ensures PlainKey(t, name) != PolicyKey(t, policyName) { KeysApart(t, name, policyName); }
    }
  }

  /** Names of Kubernetes objects, which have no slash, are not ruled out. */
  lemma KubernetesNamesFit(t: Template)
    requires '/' !in t.name
    ensures !KeysMayClash(t)
  {
    var a, b, n := PlainKey(t, ""), PolicyKey(t, ""), |t.name|;
    assert a[14] == '/' && b[n] == '/';
    if n < 14 {
      assert a[n] == "customResource"[n] != '/';
    } else if n > 14 {
      assert b[14] == t.name[14];
    } else {
      assert a[29] == '/' && b[29] == '-';
    }
  }

  lemma KeysDistinct(t: Template, a: string, b: string)
    ensures PolicyKey(t, a) == PolicyKey(t, b) <==> a == b
  {
    assert PolicyKey(t, a)[2 * |t.name| + 2..] == a && PolicyKey(t, b)[2 * |t.name| + 2..] == b;
  }

  // ---------- the files of each policy ----------

  function FilesOf(t: Template, files: seq<SourceFile>, policyName: string): seq<SourceFile> {
    if files == [] then []
    else
      var front, last := FilesOf(t, files[..|files| - 1], policyName), files[|files| - 1];
      if !IsPlain(t, last) && last.policyName == policyName then front + [last] else front
  }

  /** The policies in the order in which files first mention them. */
  function FirstSeen(t: Template, files: seq<SourceFile>): seq<string> {
    if files == [] then []
    else
      var front, last := FirstSeen(t, files[..|files| - 1]), files[|files| - 1];
      if IsPlain(t, last) || last.policyName in front then front else front + [last.policyName]
  }

  /** The last file of plain resources written under a name. */
  function LastPlain(t: Template, files: seq<SourceFile>, key: string): (r: Option<SourceFile>)
    ensures r.Some? ==>
              && r.value.documents.Some? && PlainName(r.value).Some?
              && key == PlainKey(t, PlainName(r.value).value)
  {
    if files == [] then None
    else
      var last := files[|files| - 1];
      if IsPlain(t, last) && last.documents.Some? && PlainName(last).Some? && PlainKey(t, PlainName(last).value) == key
      then Some(last)
      else LastPlain(t, files[..|files| - 1], key)
  }

  predicate FileReadable(t: Template, f: SourceFile) {
    f.documents.Some? && (IsPlain(t, f) ==> PlainName(f).Some?)
  }

  /**
   * When building succeeds: every file is readable, every policy's files are accepted, and clusters can be selected.
   */
  ghost predicate Succeeds(t: Template, parses: string -> bool) {
    && t.name != "" && t.namespace != ""
    && (forall i :: 0 <= i < |t.sourceFiles| ==> FileReadable(t, t.sourceFiles[i]))
    && (forall name :: name in FirstSeen(t, t.sourceFiles) ==> Acceptable(t, parses, FilesOf(t, t.sourceFiles, name)))
    && (FirstSeen(t, t.sourceFiles) != [] ==>
          && Selectors.Accepted(t.bindingRules, t.bindingExcludedRules)
          && NameFits(t.namespace, t.name + "-" + RULE) && NameFits(t.namespace, t.name + "-" + BINDING))
  }

  lemma NextSeen(t: Template, files: seq<SourceFile>, i: nat)
    requires i < |files|
    ensures FirstSeen(t, files[..i + 1]) ==
            if IsPlain(t, files[i]) || files[i].policyName in FirstSeen(t, files[..i]) then FirstSeen(t, files[..i])
            else FirstSeen(t, files[..i]) + [files[i].policyName]
  {
    assert files[..i + 1][..i] == files[..i];
  }

  lemma NextFile(t: Template, files: seq<SourceFile>, i: nat, name: string)
    requires i < |files|
    ensures FilesOf(t, files[..i + 1], name) ==
            if !IsPlain(t, files[i]) && files[i].policyName == name then FilesOf(t, files[..i], name) + [files[i]]
            else FilesOf(t, files[..i], name)
  {
    assert files[..i + 1][..i] == files[..i];
  }

  lemma NextPlain(t: Template, files: seq<SourceFile>, i: nat, key: string)
    requires i < |files| && FileReadable(t, files[i])
    ensures LastPlain(t, files[..i + 1], key) ==
            if IsPlain(t, files[i]) && PlainKey(t, PlainName(files[i]).value) == key then Some(files[i])
            else LastPlain(t, files[..i], key)
  {
    assert files[..i + 1][..i] == files[..i];
    assert files[..i + 1][i] == files[i];
  }

  lemma {:induction false} SeenExactly(t: Template, files: seq<SourceFile>, name: string)
    ensures name in FirstSeen(t, files) <==> FilesOf(t, files, name) != []
  {
    if files != [] { SeenExactly(t, files[..|files| - 1], name); }
  }

  /** A rejected prefix of a policy's files means a rejected policy. */
  lemma {:induction false} PrefixRejected(t: Template, parses: string -> bool, files: seq<SourceFile>, n: nat,
                                          name: string)
    requires n <= |files| && Summarize(t, parses, FilesOf(t, files[..n], name)) == Rejected
    ensures Summarize(t, parses, FilesOf(t, files, name)) == Rejected
    decreases |files| - n
  {
    if n == |files| {
      assert files[..n] == files;
    } else {
      NextFile(t, files, n, name);
      var mine := FilesOf(t, files[..n], name);
      assert (mine + [files[n]])[..|mine|] == mine;
      PrefixRejected(t, parses, files, n + 1, name);
    }
  }

  /** The binding's subjects: no policy twice, every policy once, in order of first mention. */
  lemma {:induction false} SubjectsOnce(t: Template, files: seq<SourceFile>)
    ensures forall i, j :: 0 <= i < j < |FirstSeen(t, files)| ==> FirstSeen(t, files)[i] != FirstSeen(t, files)[j]
  {
    if files != [] { SubjectsOnce(t, files[..|files| - 1]); }
  }

  /** `name` is first mentioned by file `n`. */
  ghost predicate FirstAt(t: Template, files: seq<SourceFile>, name: string, n: nat) {
    && t.wrapInPolicy && name != "" && n < |files| && files[n].policyName == name
    && forall m :: 0 <= m < n ==> files[m].policyName != name
  }

  lemma {:induction false} SeenFirstAt(t: Template, files: seq<SourceFile>, name: string)
    ensures name in FirstSeen(t, files) <==> exists n :: 0 <= n < |files| && FirstAt(t, files, name, n)
  {
    if files != [] {
      var front, last := files[..|files| - 1], files[|files| - 1];
      SeenFirstAt(t, front, name);
      if name in FirstSeen(t, front) {
        var n :| 0 <= n < |front| && FirstAt(t, front, name, n);
        assert FirstAt(t, files, name, n);
      } else if !IsPlain(t, last) && last.policyName == name {
        NotSeen(t, front, name);
        assert FirstAt(t, files, name, |front|);
      } else if n :| 0 <= n < |files| && FirstAt(t, files, name, n) {
        assert FirstAt(t, front, name, n);
      }
    }
  }

  lemma {:induction false} NotSeen(t: Template, files: seq<SourceFile>, name: string)
    requires name !in FirstSeen(t, files)
    ensures forall m :: 0 <= m < |files| ==> IsPlain(t, files[m]) || files[m].policyName != name
  {
    if files != [] { NotSeen(t, files[..|files| - 1], name); }
  }

  lemma {:induction false} SubjectsInOrder(t: Template, files: seq<SourceFile>, i: nat, j: nat, m: nat, n: nat)
    requires i < |FirstSeen(t, files)| && j < |FirstSeen(t, files)|
    requires FirstAt(t, files, FirstSeen(t, files)[i], m) && FirstAt(t, files, FirstSeen(t, files)[j], n)
    ensures i < j <==> m < n
  {
    var front := files[..|files| - 1];
    SubjectsOnce(t, files);
    if i < |FirstSeen(t, front)| && j < |FirstSeen(t, front)| {
      FirstInFront(t, files, FirstSeen(t, files)[i], m);
      FirstInFront(t, files, FirstSeen(t, files)[j], n);
      SubjectsInOrder(t, front, i, j, m, n);
    } else {
      if i < |FirstSeen(t, front)| {
        FirstInFront(t, files, FirstSeen(t, files)[i], m);
      } else {
        NotSeen(t, front, FirstSeen(t, files)[i]);
      }
      if j < |FirstSeen(t, front)| {
        FirstInFront(t, files, FirstSeen(t, files)[j], n);
      } else {
        NotSeen(t, front, FirstSeen(t, files)[j]);
      }
    }
  }

  lemma FirstInFront(t: Template, files: seq<SourceFile>, name: string, n: nat)
    requires files != [] && FirstAt(t, files, name, n) && name in FirstSeen(t, files[..|files| - 1])
    ensures FirstAt(t, files[..|files| - 1], name, n)
  {
    var front := files[..|files| - 1];
    SeenFirstAt(t, front, name);
    var m :| 0 <= m < |front| && FirstAt(t, front, name, m);
    assert FirstAt(t, files, name, m);
  }

  // ---------- the loop over the source files ----------

  /** One file of a policy: the policy is created, or the shared parts of the existing one are extended. */
  method WrapFile(t: Template, parses: string -> bool, f: SourceFile, existing: Option<AcmPolicy>,
                  ghost progress: Progress)
    returns (ok: bool, policy: AcmPolicy)
    requires f.documents.Some? && (existing.None? <==> progress == NotStarted)
    requires existing.Some? ==> progress.Built? && Shows(existing.value, progress.summary)
    modifies if existing.Some? then {existing.value.annotations, existing.value.template} else {}
    ensures ok <==> Next(t, parses, progress, f).Built?
    ensures ok ==> Shows(policy, Next(t, parses, progress, f).summary)
    ensures existing.None? ==> fresh(policy.annotations) && fresh(policy.template)
    ensures ok && existing.None? ==> policy.name == t.name + "-" + f.policyName && policy.namespace == t.namespace
    ensures existing.Some? ==> policy == existing.value.(remediationAction := policy.remediationAction)
  {
    hide Create, Append;
    var resources := Load(f.documents.value);
    if existing.None? {
      ok, policy := NewPolicy(t, parses, f, resources);
    } else {
      ok, policy := AppendPolicy(t, parses, f, existing.value, resources, progress.summary);
    }
  }

  /** Built resources, and the documents they were built from. */
  datatype PlainFile = PlainFile(resources: seq<CustomResource>, documents: seq<Document>)

  /** The policies and plain resources so far, and what the files said about them. */
  datatype State = State(policies: map<string, AcmPolicy>, summaries: map<string, Summary>,
                         plain: map<string, PlainFile>)

  /** Each policy mentioned so far has the summary of its files. */
  ghost predicate Tracked(t: Template, parses: string -> bool, files: seq<SourceFile>, st: State) {
    && st.policies.Keys == st.summaries.Keys
    && (forall name :: name in st.summaries <==> name in FirstSeen(t, files))
    && (forall name :: name in st.summaries ==>
          Summarize(t, parses, FilesOf(t, files, name)) == Built(st.summaries[name]))
  }

  ghost predicate PolicyFiled(t: Template, outputs: map<string, Output>, name: string, policy: AcmPolicy) {
    && PolicyKey(t, name) in outputs && outputs[PolicyKey(t, name)] == Policy(policy)
    && policy.name == t.name + "-" + name && policy.namespace == t.namespace
  }

  ghost predicate PlainFiled(outputs: map<string, Output>, key: string, plain: map<string, PlainFile>, f: SourceFile)
    requires f.documents.Some?
  {
    && key in outputs && key in plain
    && outputs[key] == Resources(plain[key].resources) && plain[key].documents == f.documents.value
  }

  /** The last file of plain resources under this name, if any, is what the output holds. */
  ghost predicate PlainUpToDate(t: Template, files: seq<SourceFile>, outputs: map<string, Output>, key: string,
                                plain: map<string, PlainFile>) {
    LastPlain(t, files, key).Some? ==> PlainFiled(outputs, key, plain, LastPlain(t, files, key).value)
  }

  ghost predicate Known(t: Template, files: seq<SourceFile>, key: string) {
    LastPlain(t, files, key).Some? || exists name :: name in FirstSeen(t, files) && key == PolicyKey(t, name)
  }

  /** Every output is accounted for: a policy mentioned, or plain resources. */
  ghost predicate Filed(t: Template, files: seq<SourceFile>, outputs: map<string, Output>, st: State) {
    && (forall name :: name in st.policies <==> name in FirstSeen(t, files))
    && (forall name :: name in st.policies ==> PolicyFiled(t, outputs, name, st.policies[name]))
    && (forall key :: key in outputs ==> Known(t, files, key))
    && (forall key :: PlainUpToDate(t, files, outputs, key, st.plain))
  }

  ghost predicate Separate(policies: map<string, AcmPolicy>) {
    forall a, b :: a in policies && b in policies && a != b ==>
                     policies[a].template != policies[b].template && policies[a].annotations != policies[b].annotations
  }

  /** The heap shows every policy's summary and every plain file's documents. */
  ghost predicate HeapShows(st: State)
    reads set name | name in st.policies :: st.policies[name].template
    reads set name | name in st.policies :: st.policies[name].annotations
    reads set name, template | name in st.policies && template in st.policies[name].template.objectTemplates ::
            template.definition
    reads set key, resource | key in st.plain && resource in st.plain[key].resources :: resource
  {
    && (forall name :: name in st.policies && name in st.summaries ==> Shows(st.policies[name], st.summaries[name]))
    && (forall key :: key in st.plain ==> Loaded(st.plain[key].resources, st.plain[key].documents))
  }

  lemma TrackedPlain(t: Template, parses: string -> bool, files: seq<SourceFile>, i: nat, st: State, st': State)
    requires i < |files| && IsPlain(t, files[i]) && Tracked(t, parses, files[..i], st)
    requires st'.policies == st.policies && st'.summaries == st.summaries
    ensures Tracked(t, parses, files[..i + 1], st')
  {
    hide Summarize, FilesOf, FirstSeen;
    NextSeen(t, files, i);
    forall name | name in st'.summaries
      ensures Summarize(t, parses, FilesOf(t, files[..i + 1], name)) == Built(st'.summaries[name])
    {
      NextFile(t, files, i, name);
    }
  }

  lemma NextProgress(t: Template, parses: string -> bool, files: seq<SourceFile>, i: nat)
    requires i < |files| && !IsPlain(t, files[i])
    ensures var name := files[i].policyName;
            Summarize(t, parses, FilesOf(t, files[..i + 1], name)) ==
            Next(t, parses, Summarize(t, parses, FilesOf(t, files[..i], name)), files[i])
  {
    hide Next, FilesOf;
    NextFile(t, files, i, files[i].policyName);
    var mine := FilesOf(t, files[..i], files[i].policyName);
    assert (mine + [files[i]])[..|mine|] == mine;
  }

  lemma ProgressSoFar(t: Template, parses: string -> bool, files: seq<SourceFile>, st: State, name: string)
    requires Tracked(t, parses, files, st)
    ensures Summarize(t, parses, FilesOf(t, files, name)) ==
            if name in st.summaries then Built(st.summaries[name]) else NotStarted
    ensures name in st.summaries <==> name in FirstSeen(t, files)
    ensures st.policies.Keys == st.summaries.Keys
  {
    SeenExactly(t, files, name);
  }

  ghost predicate Joined(name: string, policy: AcmPolicy, s: Summary, st: State, st': State) {
    st' == State(st.policies[name := policy], st.summaries[name := s], st.plain)
  }

  lemma TrackedWrapped(t: Template, parses: string -> bool, files: seq<SourceFile>, i: nat, st: State, st': State,
                       policy: AcmPolicy, s: Summary)
    requires i < |files| && !IsPlain(t, files[i]) && Tracked(t, parses, files[..i], st)
    requires Summarize(t, parses, FilesOf(t, files[..i + 1], files[i].policyName)) == Built(s)
    requires Joined(files[i].policyName, policy, s, st, st')
    ensures Tracked(t, parses, files[..i + 1], st')
  {
    hide Summarize, FilesOf, FirstSeen;
    NextSeen(t, files, i);
    forall name | name in st'.summaries
      ensures Summarize(t, parses, FilesOf(t, files[..i + 1], name)) == Built(st'.summaries[name])
    {
      NextFile(t, files, i, name);
    }
  }

  lemma KnownNext(t: Template, files: seq<SourceFile>, i: nat, key: string)
    requires i < |files| && FileReadable(t, files[i]) && Known(t, files[..i], key)
    ensures Known(t, files[..i + 1], key)
  {
    hide LastPlain, FirstSeen, PolicyKey, PlainName, PlainKey;
    NextPlain(t, files, i, key);
    NextSeen(t, files, i);
    if LastPlain(t, files[..i], key).None? {
      var name :| name in FirstSeen(t, files[..i]) && key == PolicyKey(t, name);
      assert name in FirstSeen(t, files[..i + 1]);
    }
  }

  lemma FiledPlain(t: Template, files: seq<SourceFile>, i: nat, outputs: map<string, Output>, st: State,
                   resources: seq<CustomResource>)
    requires !KeysMayClash(t) && i < |files| && IsPlain(t, files[i]) && FileReadable(t, files[i])
    requires Filed(t, files[..i], outputs, st)
    ensures var key := PlainKey(t, PlainName(files[i]).value);
            Filed(t, files[..i + 1], outputs[key := Resources(resources)],
                  st.(plain := st.plain[key := PlainFile(resources, files[i].documents.value)]))
  {
    hide LastPlain, FirstSeen, PlainKey, PolicyKey, PlainName;
    NextSeen(t, files, i);
    var key := PlainKey(t, PlainName(files[i]).value);
    var next := outputs[key := Resources(resources)];
    var plain := st.plain[key := PlainFile(resources, files[i].documents.value)];
    var now := files[..i + 1];
    forall k ensures PlainUpToDate(t, now, next, k, plain) {
      NextPlain(t, files, i, k);
      assert PlainUpToDate(t, files[..i], outputs, k, st.plain);
    }
    forall name | name in st.policies ensures PolicyFiled(t, next, name, st.policies[name]) {
      KeysApart(t, PlainName(files[i]).value, name);
      assert PolicyFiled(t, outputs, name, st.policies[name]);
    }
    forall k | k in next ensures Known(t, files[..i + 1], k) {
      if k != key { KnownNext(t, files, i, k); } else { NextPlain(t, files, i, k); }
    }
  }

  lemma FiledWrapped(t: Template, files: seq<SourceFile>, i: nat, outputs: map<string, Output>, st: State, st': State,
                     policy: AcmPolicy, s: Summary)
    requires !KeysMayClash(t) && i < |files| && !IsPlain(t, files[i]) && FileReadable(t, files[i])
    requires Filed(t, files[..i], outputs, st) && Joined(files[i].policyName, policy, s, st, st')
    requires policy.name == t.name + "-" + files[i].policyName && policy.namespace == t.namespace
    ensures Filed(t, files[..i + 1], outputs[PolicyKey(t, files[i].policyName) := Policy(policy)], st')
  {
    hide LastPlain, FirstSeen, PlainKey, PolicyKey, PlainName;
    NextSeen(t, files, i);
    var name := files[i].policyName;
    var key := PolicyKey(t, name);
    var next := outputs[key := Policy(policy)];
    var now := files[..i + 1];
    forall k ensures PlainUpToDate(t, now, next, k, st'.plain) {
      NextPlain(t, files, i, k);
      assert PlainUpToDate(t, files[..i], outputs, k, st.plain);
      if LastPlain(t, files[..i], k).Some? {
        KeysApart(t, PlainName(LastPlain(t, files[..i], k).value).value, name);
      }
    }
    forall other | other in st'.policies ensures PolicyFiled(t, next, other, st'.policies[other]) {
      KeysDistinct(t, other, name);
      assert other != name ==> PolicyFiled(t, outputs, other, st.policies[other]);
    }
    forall k | k in next ensures Known(t, files[..i + 1], k) {
      if k != key { KnownNext(t, files, i, k); }
      assert name in FirstSeen(t, files[..i + 1]);
    }
    assert forall other :: other in st'.policies <==> other in FirstSeen(t, files[..i + 1]);
  }

  /** An output under a policy's key exists exactly if the policy has been mentioned. */
  lemma PolicyPresent(t: Template, files: seq<SourceFile>, outputs: map<string, Output>, st: State, name: string)
    requires !KeysMayClash(t) && Filed(t, files, outputs, st)
    ensures PolicyKey(t, name) in outputs <==> name in st.policies
    ensures name in st.policies ==> PolicyFiled(t, outputs, name, st.policies[name])
  {
    hide LastPlain, PlainKey, PolicyKey, PlainName;
    var key := PolicyKey(t, name);
    if key in outputs {
      assert Known(t, files, key);
      if LastPlain(t, files, key).Some? {
        KeysApart(t, PlainName(LastPlain(t, files, key).value).value, name);
      } else {
        var other :| other in FirstSeen(t, files) && key == PolicyKey(t, other);
        KeysDistinct(t, name, other);
      }
    }
    if name in st.policies { assert PolicyFiled(t, outputs, name, st.policies[name]); }
  }

  /** Loading a file of plain resources leaves everything else alone. */
  method LoadPlain(f: SourceFile, ghost key: string, ghost st: State) returns (resources: seq<CustomResource>)
    requires f.documents.Some? && HeapShows(st)
    ensures HeapShows(st.(plain := st.plain[key := PlainFile(resources, f.documents.value)]))
  {
    hide Loaded, Stripped, AnnotationsFor;
    resources := Load(f.documents.value);
  }

  /** The heap shows all policies but one, and all plain files. */
  ghost predicate OthersShow(st: State, but: string)
    reads set name | name in st.policies :: st.policies[name].template
    reads set name | name in st.policies :: st.policies[name].annotations
    reads set name, template | name in st.policies && template in st.policies[name].template.objectTemplates ::
            template.definition
    reads set key, resource | key in st.plain && resource in st.plain[key].resources :: resource
  {
    && (forall name :: name in st.policies && name in st.summaries && name != but ==>
          Shows(st.policies[name], st.summaries[name]))
    && (forall key :: key in st.plain ==> Loaded(st.plain[key].resources, st.plain[key].documents))
  }

  /** Wrapping a file leaves everything else as it is. */
  method WrapApart(t: Template, parses: string -> bool, f: SourceFile, existing: Option<AcmPolicy>,
                   ghost progress: Progress, ghost st: State)
    returns (ok: bool, policy: AcmPolicy)
    requires f.documents.Some? && st.policies.Keys == st.summaries.Keys && Separate(st.policies) && HeapShows(st)
    requires existing == if f.policyName in st.policies then Some(st.policies[f.policyName]) else None
    requires progress == if f.policyName in st.summaries then Built(st.summaries[f.policyName]) else NotStarted
    modifies if existing.Some? then {existing.value.annotations, existing.value.template} else {}
    ensures ok <==> Next(t, parses, progress, f).Built?
    ensures ok ==> Shows(policy, Next(t, parses, progress, f).summary)
    ensures OthersShow(st, f.policyName)
    ensures existing.None? ==> fresh(policy.annotations) && fresh(policy.template)
    ensures ok && existing.None? ==> policy.name == t.name + "-" + f.policyName && policy.namespace == t.namespace
    ensures existing.Some? ==> policy == existing.value.(remediationAction := policy.remediationAction)
  {
    hide Next, Stripped, AnnotationsFor;
    ok, policy := WrapFile(t, parses, f, existing, progress);
    forall name | name in st.policies && name in st.summaries && name != f.policyName
      ensures Shows(st.policies[name], st.summaries[name])
    {
      hide Loaded;
      assert old(Shows(st.policies[name], st.summaries[name]));
    }
    forall key | key in st.plain ensures Loaded(st.plain[key].resources, st.plain[key].documents) { hide Shows; }
  }

  lemma JoinedShows(name: string, policy: AcmPolicy, s: Summary, st: State, st': State)
    requires Joined(name, policy, s, st, st') && OthersShow(st, name) && Shows(policy, s)
    ensures HeapShows(st')
  {
    hide Shows, Loaded;
  }

  lemma JoinedSeparate(name: string, policy: AcmPolicy, s: Summary, st: State, st': State)
    requires Joined(name, policy, s, st, st') && Separate(st.policies)
    requires forall other :: other in st.policies && other != name ==>
               st.policies[other].template != policy.template && st.policies[other].annotations != policy.annotations
    ensures Separate(st'.policies)
  {
  }

  /** The file joins its policy; all other policies and the plain resources stay as they are. */
  method WrapStep(t: Template, parses: string -> bool, f: SourceFile, existing: Option<AcmPolicy>,
                  ghost progress: Progress, ghost st: State)
    returns (ok: bool, policy: AcmPolicy, ghost st': State)
    requires f.documents.Some? && st.policies.Keys == st.summaries.Keys && Separate(st.policies) && HeapShows(st)
    requires existing == if f.policyName in st.policies then Some(st.policies[f.policyName]) else None
    requires progress == if f.policyName in st.summaries then Built(st.summaries[f.policyName]) else NotStarted
    modifies if existing.Some? then {existing.value.annotations, existing.value.template} else {}
    ensures ok <==> Next(t, parses, progress, f).Built?
    ensures ok ==> Joined(f.policyName, policy, Next(t, parses, progress, f).summary, st, st')
    ensures ok ==> Separate(st'.policies) && HeapShows(st')
    ensures existing.None? ==> fresh(policy.annotations) && fresh(policy.template)
    ensures ok && existing.None? ==> policy.name == t.name + "-" + f.policyName && policy.namespace == t.namespace
    ensures existing.Some? ==> policy == existing.value.(remediationAction := policy.remediationAction)
  {
    hide Next, Shows, OthersShow, HeapShows;
    ok, policy := WrapApart(t, parses, f, existing, progress, st);
    st' := st;
    if ok {
      ghost var s := Next(t, parses, progress, f).summary;
      st' := State(st.policies[f.policyName := policy], st.summaries[f.policyName := s], st.plain);
      JoinedShows(f.policyName, policy, s, st, st');
      JoinedSeparate(f.policyName, policy, s, st, st');
    }
  }

  ghost predicate FileFails(t: Template, parses: string -> bool, files: seq<SourceFile>, i: nat)
    requires i < |files|
  {
    !FileReadable(t, files[i])
    || (!IsPlain(t, files[i]) && Summarize(t, parses, FilesOf(t, files[..i + 1], files[i].policyName)) == Rejected)
  }

  ghost predicate SubjectsOf(t: Template, names: seq<string>, subjects: seq<string>) {
    |subjects| == |names| && forall i :: 0 <= i < |names| ==> subjects[i] == t.name + "-" + names[i]
  }

  lemma NothingYet(t: Template, parses: string -> bool)
    ensures Tracked(t, parses, [], State(map[], map[], map[])) && Filed(t, [], map[], State(map[], map[], map[]))
    ensures FirstSeen(t, []) == [] && SubjectsOf(t, [], [])
  {
  }

  ghost predicate Owned(st: State, owned: set<object>) {
    forall name :: name in st.policies ==> st.policies[name].template in owned && st.policies[name].annotations in owned
  }

  /** What a wrapped file does to the outputs: a new policy, also among the subjects, or an extended one. */
  method AddToPolicy(t: Template, parses: string -> bool, i: nat, outputs: map<string, Output>, subjects: seq<string>,
                     ghost st: State, ghost owned: set<object>)
    returns (ok: bool, outputs': map<string, Output>, subjects': seq<string>, ghost st': State,
             ghost owned': set<object>)
    requires !KeysMayClash(t) && i < |t.sourceFiles|
    requires !IsPlain(t, t.sourceFiles[i]) && t.sourceFiles[i].documents.Some?
    requires Tracked(t, parses, t.sourceFiles[..i], st) && Filed(t, t.sourceFiles[..i], outputs, st)
    requires SubjectsOf(t, FirstSeen(t, t.sourceFiles[..i]), subjects)
    requires Separate(st.policies) && HeapShows(st) && Owned(st, owned)
    modifies owned
    ensures !ok ==> FileFails(t, parses, t.sourceFiles, i)
    ensures ok ==> Tracked(t, parses, t.sourceFiles[..i + 1], st') && Filed(t, t.sourceFiles[..i + 1], outputs', st')
    ensures ok ==> SubjectsOf(t, FirstSeen(t, t.sourceFiles[..i + 1]), subjects')
    ensures ok ==> Separate(st'.policies) && HeapShows(st') && Owned(st', owned') && fresh(owned' - owned)
  {
    hide Next, Summarize, FilesOf, FirstSeen, LastPlain, PolicyKey, PlainName, HeapShows, Filed, Tracked, Separate;
    var f, name := t.sourceFiles[i], t.sourceFiles[i].policyName;
    var key := PolicyKey(t, name);
    outputs', subjects', st', owned' := outputs, subjects, st, owned;
    PolicyPresent(t, t.sourceFiles[..i], outputs, st, name);
    ProgressSoFar(t, parses, t.sourceFiles[..i], st, name);
    NextProgress(t, parses, t.sourceFiles, i);
    NextSeen(t, t.sourceFiles, i);
    ghost var progress := Summarize(t, parses, FilesOf(t, t.sourceFiles[..i], name));
    var existing := if key in outputs then Some(outputs[key].policy) else None;
    var policy;
    ok, policy, st' := WrapStep(t, parses, f, existing, progress, st);
    if ok {
      if existing.None? {
        subjects' := subjects + [t.name + "-" + name];
        owned' := owned + {policy.template, policy.annotations};
      }
      ghost var s := Next(t, parses, progress, f).summary;
      TrackedWrapped(t, parses, t.sourceFiles, i, st, st', policy, s);
      FiledWrapped(t, t.sourceFiles, i, outputs, st, st', policy, s);
      outputs' := outputs[key := Policy(policy)];
    }
  }

  /** The loop: plain resources are filed as they are, all others join the policy they name. */
  method BuildFiles(t: Template, parses: string -> bool)
    returns (ok: bool, outputs: map<string, Output>, subjects: seq<string>, ghost st: State)
    requires !KeysMayClash(t)
    ensures !ok ==> exists i :: 0 <= i < |t.sourceFiles| && FileFails(t, parses, t.sourceFiles, i)
    ensures ok ==> forall i :: 0 <= i < |t.sourceFiles| ==> FileReadable(t, t.sourceFiles[i])
    ensures ok ==> Tracked(t, parses, t.sourceFiles, st) && Filed(t, t.sourceFiles, outputs, st)
    ensures ok ==> SubjectsOf(t, FirstSeen(t, t.sourceFiles), subjects) && HeapShows(st)
  {
    hide Summarize, FilesOf, FirstSeen, LastPlain, Tracked, Filed, PlainKey, PlainName, SubjectsOf, Separate;
    var files := t.sourceFiles;
    outputs, subjects, st := map[], [], State(map[], map[], map[]);
    ghost var owned: set<object> := {};
    NothingYet(t, parses);
    assert files[..0] == [];
    assert Separate(st.policies) by { NothingShared(); }
    for i := 0 to |files|
      invariant forall j :: 0 <= j < i ==> FileReadable(t, files[j])
      invariant Tracked(t, parses, files[..i], st) && Filed(t, files[..i], outputs, st)
      invariant SubjectsOf(t, FirstSeen(t, files[..i]), subjects)
      invariant Separate(st.policies) && HeapShows(st) && Owned(st, owned) && fresh(owned)
    {
      hide HeapShows, Owned;
      assert !FileReadable(t, files[i]) ==> FileFails(t, parses, files, i);
      if files[i].documents.None? || (IsPlain(t, files[i]) && PlainName(files[i]).None?) {
        return false, outputs, subjects, st;
      }
      if IsPlain(t, files[i]) {
        var key := PlainKey(t, PlainName(files[i]).value);
        NextSeen(t, files, i);
        var resources := LoadPlain(files[i], key, st);
        ghost var st' := st.(plain := st.plain[key := PlainFile(resources, files[i].documents.value)]);
        TrackedPlain(t, parses, files, i, st, st');
        FiledPlain(t, files, i, outputs, st, resources);
        OwnedSame(st, st', owned);
        outputs, st := outputs[key := Resources(resources)], st';
      } else {
        ok, outputs, subjects, st, owned := AddToPolicy(t, parses, i, outputs, subjects, st, owned);
        if !ok {
          return false, outputs, subjects, st;
        }
      }
    }
    assert files[..|files|] == files;
    ok := true;
  }

  lemma NothingShared()
    ensures Separate(map[])
  {
  }

  lemma OwnedSame(st: State, st': State, owned: set<object>)
    requires Owned(st, owned) && st'.policies == st.policies
    ensures Owned(st', owned)
  {
  }

  // ---------- the whole template ----------

  ghost predicate PolicyNamed(t: Template, outputs: map<string, Output>, name: string) {
    var key := PolicyKey(t, name);
    && key in outputs && outputs[key].Policy?
    && outputs[key].policy.name == t.name + "-" + name && outputs[key].policy.namespace == t.namespace
  }

  /** A file that fails is one of the reasons for which building fails. */
  lemma FailureCounts(t: Template, parses: string -> bool, i: nat)
    requires i < |t.sourceFiles| && FileFails(t, parses, t.sourceFiles, i)
    ensures !Succeeds(t, parses)
  {
    hide Summarize, Acceptable, FirstSeen, FilesOf;
    var files, name := t.sourceFiles, t.sourceFiles[i].policyName;
    if FileReadable(t, files[i]) {
      PrefixRejected(t, parses, files, i + 1, name);
      assert FilesOf(t, files, name) != [] by { NothingNotStarted(t, parses, files, name); }
      SeenExactly(t, files, name);
      SummarizeExactly(t, parses, FilesOf(t, files, name));
    }
  }

  lemma NothingNotStarted(t: Template, parses: string -> bool, files: seq<SourceFile>, name: string)
    requires Summarize(t, parses, FilesOf(t, files, name)) == Rejected
    ensures FilesOf(t, files, name) != []
  {
  }

  /** What is tracked at the end is what is expected of each policy's files. */
  lemma TrackedExpected(t: Template, parses: string -> bool, files: seq<SourceFile>, st: State, name: string)
    requires Tracked(t, parses, files, st) && name in FirstSeen(t, files)
    ensures Acceptable(t, parses, FilesOf(t, files, name))
    ensures name in st.summaries && st.summaries[name] == Expected(t, FilesOf(t, files, name))
  {
    hide Summarize, Acceptable, Expected, FirstSeen, FilesOf;
    SeenExactly(t, files, name);
    SummarizeExactly(t, parses, FilesOf(t, files, name));
  }

  /** The outputs besides the placement objects: as the files of each policy, and each plain file, demand. */
  ghost predicate FilesDelivered(t: Template, parses: string -> bool, outputs: map<string, Output>, st: State) {
    && Tracked(t, parses, t.sourceFiles, st)
    && (forall name :: name in FirstSeen(t, t.sourceFiles) && name !in {RULE, BINDING} ==>
                         name in st.policies && PolicyFiled(t, outputs, name, st.policies[name]))
    && (forall key :: PlainUpToDate(t, t.sourceFiles, outputs, key, st.plain))
  }

  /** Only what was asked for is in the outputs. */
  ghost predicate NothingElse(t: Template, outputs: map<string, Output>) {
    forall key :: key in outputs ==>
                    || Known(t, t.sourceFiles, key)
                    || (FirstSeen(t, t.sourceFiles) != [] && key in {PolicyKey(t, RULE), PolicyKey(t, BINDING)})
  }

  lemma FiledDelivers(t: Template, parses: string -> bool, before: map<string, Output>, outputs: map<string, Output>,
                      st: State)
    requires !KeysMayClash(t) && Tracked(t, parses, t.sourceFiles, st) && Filed(t, t.sourceFiles, before, st)
    requires forall key :: key in before && key !in {PolicyKey(t, RULE), PolicyKey(t, BINDING)} ==>
                             key in outputs && outputs[key] == before[key]
    requires outputs.Keys <=
             before.Keys
             + (if FirstSeen(t, t.sourceFiles) == [] then {} else {PolicyKey(t, RULE), PolicyKey(t, BINDING)})
    ensures FilesDelivered(t, parses, outputs, st) && NothingElse(t, outputs)
  {
    hide Tracked, Known, FirstSeen, LastPlain, PolicyKey, PlainKey;
    forall name | name in FirstSeen(t, t.sourceFiles) && name !in {RULE, BINDING}
      ensures name in st.policies && PolicyFiled(t, outputs, name, st.policies[name])
    {
      assert PolicyFiled(t, before, name, st.policies[name]);
      KeysDistinct(t, name, RULE);
      KeysDistinct(t, name, BINDING);
    }
    forall key ensures PlainUpToDate(t, t.sourceFiles, outputs, key, st.plain) {
      assert PlainUpToDate(t, t.sourceFiles, before, key, st.plain);
      if LastPlain(t, t.sourceFiles, key).Some? {
        KeysApart(t, PlainName(LastPlain(t, t.sourceFiles, key).value).value, RULE);
        KeysApart(t, PlainName(LastPlain(t, t.sourceFiles, key).value).value, BINDING);
      }
    }
  }

  /** The placement rule and binding, for the policies in order of first mention. */
  ghost predicate PlacementDelivered(t: Template, outputs: map<string, Output>) {
    && PolicyKey(t, RULE) in outputs && PolicyKey(t, BINDING) in outputs
    && outputs[PolicyKey(t, RULE)].Rule? && outputs[PolicyKey(t, RULE)].name == t.name + "-" + RULE
    && (forall labels :: Selectors.MatchesAll(outputs[PolicyKey(t, RULE)].expressions, labels) <==>
                         Selectors.Bound(t.bindingRules, t.bindingExcludedRules, labels))
    && outputs[PolicyKey(t, BINDING)].Binding? && outputs[PolicyKey(t, BINDING)].ruleName == t.name + "-" + RULE
    && SubjectsOf(t, FirstSeen(t, t.sourceFiles), outputs[PolicyKey(t, BINDING)].subjects)
  }

  method Place(t: Template, outputs: map<string, Output>, subjects: seq<string>)
    returns (ok: bool, r: map<string, Output>)
    requires SubjectsOf(t, FirstSeen(t, t.sourceFiles), subjects)
    ensures ok <==> && Selectors.Accepted(t.bindingRules, t.bindingExcludedRules)
                    && NameFits(t.namespace, t.name + "-" + RULE) && NameFits(t.namespace, t.name + "-" + BINDING)
    ensures ok ==> PlacementDelivered(t, r) && r.Keys == outputs.Keys + {PolicyKey(t, RULE), PolicyKey(t, BINDING)}
    ensures ok ==>
              forall key :: key in outputs && key !in {PolicyKey(t, RULE), PolicyKey(t, BINDING)} ==>
                  r[key] == outputs[key]
  {
    hide SubjectsOf, FirstSeen, Selectors.Bound, Selectors.MatchesAll, NameFits, PolicyKey;
    r := outputs;
    var accepted := Selectors.CheckBindingRules(t.bindingRules, t.bindingExcludedRules);
    if !accepted {
      return false, r;
    }
    var rule, binding := t.name + "-" + RULE, t.name + "-" + BINDING;
    var expressions := Selectors.CreatePlacementRule(t.bindingRules, t.bindingExcludedRules);
    if !NameFits(t.namespace, rule) || !NameFits(t.namespace, binding) {
      return false, r;
    }
    KeysDistinct(t, RULE, BINDING);
    r := outputs[PolicyKey(t, RULE) := Rule(rule, expressions)][PolicyKey(t, BINDING) := Binding(rule, subjects)];
    ok := true;
  }

  /**
   * Build all outputs of a template whose name keeps plain outputs and policies apart, as that of any Kubernetes object
   * does. Failure is an error or, for a lone plain resource without the fields its output name needs, a panic.
   */
  method Build(t: Template, parses: string -> bool) returns (ok: bool, outputs: map<string, Output>, ghost st: State)
    requires !KeysMayClash(t)
    ensures ok <==> Succeeds(t, parses)
    ensures ok ==> FilesDelivered(t, parses, outputs, st) && NothingElse(t, outputs) && HeapShows(st)
    ensures ok && FirstSeen(t, t.sourceFiles) != [] ==> PlacementDelivered(t, outputs)
  {
    hide Tracked, Filed, Loaded, Stripped, AnnotationsFor, SubjectsOf, PlacementDelivered, FilesDelivered, NothingElse,
         FirstSeen, FileFails;
    outputs, st := map[], State(map[], map[], map[]);
    if t.name == "" || t.namespace == "" {
      return false, outputs, st;
    }
    var subjects;
    ok, outputs, subjects, st := BuildFiles(t, parses);
    if !ok {
      ghost var i :| 0 <= i < |t.sourceFiles| && FileFails(t, parses, t.sourceFiles, i);
      FailureCounts(t, parses, i);
      return;
    }
    ghost var before := outputs;
    assert subjects == [] <==> FirstSeen(t, t.sourceFiles) == [] by { SameNumber(t, subjects); }
    forall name | name in FirstSeen(t, t.sourceFiles) ensures Acceptable(t, parses, FilesOf(t, t.sourceFiles, name)) {
      TrackedExpected(t, parses, t.sourceFiles, st, name);
    }
    if subjects != [] {
      ok, outputs := Place(t, outputs, subjects);
    }
    if ok {
      FiledDelivers(t, parses, before, outputs, st);
    }
  }

  lemma SameNumber(t: Template, subjects: seq<string>)
    requires SubjectsOf(t, FirstSeen(t, t.sourceFiles), subjects)
    ensures |subjects| == |FirstSeen(t, t.sourceFiles)|
  {
  }

  /** The policy has the wave of those documents that carry one as a string, and else none. */
  ghost predicate WaveDelivered(files: seq<SourceFile>, annotations: map<string, string>)
    requires AllRead(files)
  {
    var documents := DocumentsOf(files);
    && (forall i :: 0 <= i < |documents| && documents[i].annotations.Entries? &&
                    WAVE in documents[i].annotations.entries && documents[i].annotations.entries[WAVE].Str? ==>
                      WAVE in annotations && annotations[WAVE] == documents[i].annotations.entries[WAVE].text)
    && (WAVE in annotations ==> exists i ::
          0 <= i < |documents| && documents[i].annotations.Entries?
          && WAVE in documents[i].annotations.entries && documents[i].annotations.entries[WAVE].Str?)
    && annotations - {WAVE} == TEMPLATE_ANNOTATIONS
  }

  lemma AnnotationsShow(wave: Option<string>)
    ensures var annotations := AnnotationsFor(wave);
            && (WAVE in annotations <==> wave.Some?) && (wave.Some? ==> annotations[WAVE] == wave.value)
            && annotations - {WAVE} == TEMPLATE_ANNOTATIONS
  {
  }

  lemma ShownWave(files: seq<SourceFile>, annotations: map<string, string>)
    requires AllRead(files) && WaveAfter(Agreed(None), DocumentsOf(files)).Agreed?
    requires annotations == AnnotationsFor(WaveAfter(Agreed(None), DocumentsOf(files)).wave)
    ensures WaveDelivered(files, annotations)
  {
    var documents := DocumentsOf(files);
    WavesExactly(documents);
    AnnotationsShow(WaveAfter(Agreed(None), documents).wave);
    hide WaveAfter, DocumentsOf, AllRead, AnnotationsFor;
    if WAVE in annotations {
      var i :| 0 <= i < |documents| && WaveOf(documents[i]) == WaveAfter(Agreed(None), documents).wave;
      assert WaveOf(documents[i]).Some?;
    }
  }

  /** The documents of all files are there in order, each enforced as its file says, or else as the template says. */
  ghost predicate AllDelivered(t: Template, files: seq<SourceFile>, templates: seq<ObjectTemplate>)
    requires AllRead(files)
  {
    && |templates| == |DocumentsOf(files)|
    && forall i, j :: 0 <= i < |files| && 0 <= j < |files[i].documents.value| ==>
         Delivered(t, files[i], files[i].documents.value[j], templates, |DocumentsOf(files[..i])| + j)
  }

  ghost predicate Delivered(t: Template, f: SourceFile, document: Document, templates: seq<ObjectTemplate>, k: nat) {
    && k < |templates| && templates[k].definition.document == document
    && (f.complianceType != UNSET ==> templates[k].complianceType == f.complianceType)
    && (f.complianceType == UNSET ==> templates[k].complianceType == t.complianceType)
  }

  lemma ShownDelivered(t: Template, files: seq<SourceFile>, templates: seq<ObjectTemplate>)
    requires AllRead(files) && ShowsTemplates(templates, TemplatesOf(t, files))
    ensures AllDelivered(t, files, templates)
  {
    hide TemplatesOf, DocumentsOf;
    OneTemplateEach(t, files);
    forall i, j | 0 <= i < |files| && 0 <= j < |files[i].documents.value|
      ensures Delivered(t, files[i], files[i].documents.value[j], templates, |DocumentsOf(files[..i])| + j)
    {
      TemplateAt(t, files, i, j);
      var k := |DocumentsOf(files[..i])| + j;
      assert ShowsTemplate(templates[k], TemplatesOf(t, files)[k]);
    }
  }

  /**
   * What a reader of the outputs sees of a policy: the settled overrides, agreed at both levels, the agreed wave,
   * and the documents of its files in order, none of which keeps its wave.
   */
  lemma PolicyAsExpected(t: Template, parses: string -> bool, outputs: map<string, Output>, st: State, name: string)
    requires FilesDelivered(t, parses, outputs, st) && HeapShows(st)
    requires name in FirstSeen(t, t.sourceFiles) && name !in {RULE, BINDING}
    ensures Acceptable(t, parses, FilesOf(t, t.sourceFiles, name))
    ensures PolicyNamed(t, outputs, name)
    ensures var policy, files := outputs[PolicyKey(t, name)].policy, FilesOf(t, t.sourceFiles, name);
            && Shows(policy, Expected(t, files))
            && policy.remediationAction == policy.template.remediationAction
            && policy.remediationAction == Settle(t.remediationAction, RemediationsOf(files)).value
            && AllDelivered(t, files, policy.template.objectTemplates)
            && WaveDelivered(files, policy.annotations.entries)
            && forall template ::
                 template in policy.template.objectTemplates && template.definition.annotations.Entries? ==>
                                    WAVE !in template.definition.annotations.entries
  {
    hide Tracked, Acceptable, FirstSeen, FilesOf, Settle, WaveAfter, AnnotationsFor, Stripped;
    TrackedExpected(t, parses, t.sourceFiles, st, name);
    assert PolicyFiled(t, outputs, name, st.policies[name]);
    assert Acceptable(t, parses, FilesOf(t, t.sourceFiles, name));
    var policy := st.policies[name];
    AcceptableFacts(t, parses, FilesOf(t, t.sourceFiles, name));
    AcceptableFacts(t, parses, FilesOf(t, t.sourceFiles, name));
    ShownWave(FilesOf(t, t.sourceFiles, name), policy.annotations.entries);
    ShownDelivered(t, FilesOf(t, t.sourceFiles, name), policy.template.objectTemplates);
    forall template | template in policy.template.objectTemplates && template.definition.annotations.Entries?
      ensures WAVE !in template.definition.annotations.entries
    {
      var i :| 0 <= i < |policy.template.objectTemplates| && policy.template.objectTemplates[i] == template;
      assert ShowsTemplate(policy.template.objectTemplates[i], st.summaries[name].templates[i]);
    }
  }

  /**
   * Plain resources are written as they were built, wave and all; of files with the same output name the last counts.
   */
  lemma PlainAsBuilt(t: Template, parses: string -> bool, outputs: map<string, Output>, st: State, key: string)
    requires FilesDelivered(t, parses, outputs, st) && HeapShows(st) && LastPlain(t, t.sourceFiles, key).Some?
    ensures key in outputs && outputs[key].Resources?
    ensures Loaded(outputs[key].resources, LastPlain(t, t.sourceFiles, key).value.documents.value)
  {
    hide Tracked, LastPlain, PlainKey, PlainName, Shows, Loaded;
    assert PlainUpToDate(t, t.sourceFiles, outputs, key, st.plain);
  }
}
