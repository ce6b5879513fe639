/**
 * What the policy generator should make of the source files of one policy: a fold over the files that stops at the
 * first conflict, and the conditions under which it never does.
 */
module PolicySummary {
  import opened Options
  import opened Yaml
  import Selectors
  import Translator

  const UNSET := Translator.UNSET
  const WAVE := "ran.openshift.io/ztp-deploy-wave"

  datatype Annotations = Absent | NotAMap | Entries(entries: Mapping)

  /**
   * A custom resource after the user's overlay: the name of its plain output file (if kind, name and namespace have
   * the types that needs), its annotations, and everything else.
   */
  datatype Document = Document(plainName: Option<string>, annotations: Annotations, body: Yaml)

  /** `documents` is empty-handed if the file cannot be read or the overlay does not fit. */
  datatype SourceFile = SourceFile(
    fileName: string,
    policyName: string,
    complianceType: string,
    remediationAction: string,
    compliant: string,
    nonCompliant: string,
    documents: Option<seq<Document>>)

  datatype Template = Template(
    name: string,
    namespace: string,
    wrapInPolicy: bool,
    complianceType: string,
    remediationAction: string,
    compliant: string,
    nonCompliant: string,
    bindingRules: Selectors.Rules,
    bindingExcludedRules: Selectors.Rules,
    sourceFiles: seq<SourceFile>)

  /** A document inside a policy, with the compliance type it is enforced with. */
  datatype Embedded = Embedded(complianceType: string, document: Document)

  datatype Summary = Summary(
    remediationAction: string,
    compliant: string,
    nonCompliant: string,
    templates: seq<Embedded>,
    wave: Option<string>)

  datatype Progress = NotStarted | Rejected | Built(summary: Summary)

  predicate NameFits(namespace: string, name: string) {
    |namespace + "." + name| <= 63
  }

  /** `parses` says which strings are durations. */
  predicate ValidInterval(parses: string -> bool, interval: string) {
    interval == "never" || interval == "watch" || parses(interval)
  }

  predicate ValidOverride(parses: string -> bool, interval: string) {
    interval != UNSET ==> ValidInterval(parses, interval)
  }

  // ---------- overrides ----------

  /** One more override: it must equal the current value, unless that is still the default. */
  function Override(dflt: string, current: Option<string>, value: string): Option<string> {
    if value == UNSET || current.None? then current
    else if value != current.value && current.value != dflt then None
    else Some(value)
  }

  function Settle(dflt: string, values: seq<string>): Option<string> {
    if values == [] then Some(dflt)
    else Override(dflt, Settle(dflt, values[..|values| - 1]), values[|values| - 1])
  }

  function Explicit(values: seq<string>): (r: seq<string>)
    ensures UNSET !in r
  {
    if values == [] then []
    else if values[|values| - 1] == UNSET then Explicit(values[..|values| - 1])
    else Explicit(values[..|values| - 1]) + [values[|values| - 1]]
  }

  /** The first `n` values are the default, all others are `x`. */
  ghost predicate DefaultsThen(dflt: string, values: seq<string>, n: nat, x: string) {
    n <= |values| && forall i :: 0 <= i < |values| ==> values[i] == if i < n then dflt else x
  }

  ghost predicate DefaultsThenOne(dflt: string, values: seq<string>) {
    exists n: nat, x :: DefaultsThen(dflt, values, n, x)
  }

  /** Overrides are accepted exactly if they are some defaults followed by repeats of one value, the result. */
  lemma {:induction false} SettlesExactly(dflt: string, values: seq<string>)
    ensures Settle(dflt, values).Some? <==> DefaultsThenOne(dflt, Explicit(values))
    ensures Settle(dflt, values).Some? ==>
              Settle(dflt, values).value ==
              if Explicit(values) == [] then dflt else Explicit(values)[|Explicit(values)| - 1]
  {
    if values == [] {
      assert DefaultsThen(dflt, Explicit(values), 0, dflt);
    } else {
      hide DefaultsThenOne;
      var front, last := values[..|values| - 1], values[|values| - 1];
      SettlesExactly(dflt, front);
      if last != UNSET { OneMore(dflt, Explicit(front), last); }
    }
  }

  lemma OneMore(dflt: string, e: seq<string>, last: string)
    ensures DefaultsThenOne(dflt, e + [last]) <==>
            && DefaultsThenOne(dflt, e)
            && var current := if e == [] then dflt else e[|e| - 1];
               last == current || current == dflt
  {
    var current := if e == [] then dflt else e[|e| - 1];
    var longer := e + [last];
    if n: nat, x :| DefaultsThen(dflt, longer, n, x) {
      assert forall i :: 0 <= i < |e| ==> longer[i] == e[i];
      assert DefaultsThen(dflt, e, if n <= |e| then n else |e|, x);
      assert longer[|e|] == last;
    }
    if n: nat, x :| DefaultsThen(dflt, e, n, x) {
      if current == dflt {
        assert DefaultsThen(dflt, longer, |e|, last);
      } else if last == current {
        assert DefaultsThen(dflt, longer, n, x);
      }
    }
  }

  /** On accepted overrides, taking the last one unchecked, as the translator does, gives the same value. */
  lemma {:induction false} LastOverrideAgrees(dflt: string, values: seq<string>)
    requires Settle(dflt, values).Some?
    ensures Translator.LastOverride(values, dflt) == Settle(dflt, values).value
  {
    if values != [] && values[|values| - 1] == UNSET {
      LastOverrideAgrees(dflt, values[..|values| - 1]);
    }
  }

  // ---------- deploy waves ----------

  datatype Wave = Clash | Agreed(wave: Option<string>)

  /** A wave annotation counts only if it is a string. */
  function WaveOf(document: Document): Option<string> {
    var a := document.annotations;
    if a.Entries? && WAVE in a.entries && a.entries[WAVE].Str? then Some(a.entries[WAVE].text) else None
  }

  function NextWave(wave: Wave, document: Document): Wave {
    if wave == Clash || WaveOf(document).None? then wave
    else if wave.wave.None? || wave.wave == WaveOf(document) then Agreed(WaveOf(document))
    else Clash
  }

  function WaveAfter(wave: Wave, documents: seq<Document>): Wave {
    if documents == [] then wave
    else NextWave(WaveAfter(wave, documents[..|documents| - 1]), documents[|documents| - 1])
  }

  lemma {:induction false} WaveConcat(wave: Wave, a: seq<Document>, b: seq<Document>)
    ensures WaveAfter(wave, a + b) == WaveAfter(WaveAfter(wave, a), b)
  {
    if b == [] {
      assert a + b == a;
    } else {
      assert (a + b)[..|a + b| - 1] == a + b[..|b| - 1];
      WaveConcat(wave, a, b[..|b| - 1]);
    }
  }

  ghost predicate WavesAgree(documents: seq<Document>) {
    forall i, j :: && 0 <= i < |documents| && 0 <= j < |documents|
                   && WaveOf(documents[i]).Some? && WaveOf(documents[j]).Some? ==>
                     WaveOf(documents[i]) == WaveOf(documents[j])
  }

  /** The waves agree exactly if no two documents carry different ones; the policy's wave is theirs, or none. */
  lemma {:induction false} WavesExactly(documents: seq<Document>)
    ensures WaveAfter(Agreed(None), documents).Agreed? <==> WavesAgree(documents)
    ensures WavesAgree(documents) ==>
              forall i :: 0 <= i < |documents| && WaveOf(documents[i]).Some? ==>
                            WaveAfter(Agreed(None), documents) == Agreed(WaveOf(documents[i]))
    ensures (forall i :: 0 <= i < |documents| ==> WaveOf(documents[i]).None?) ==>
              WaveAfter(Agreed(None), documents) == Agreed(None)
    ensures WaveAfter(Agreed(None), documents).Agreed? && WaveAfter(Agreed(None), documents).wave.Some? ==>
              exists i :: 0 <= i < |documents| && WaveOf(documents[i]) == WaveAfter(Agreed(None), documents).wave
  {
    if documents != [] {
      var front := documents[..|documents| - 1];
      WavesExactly(front);
      assert WavesAgree(documents) ==> WavesAgree(front);
    }
  }

  /** What is left of a resource's annotations inside a policy: no wave, and no empty map. */
  function Stripped(a: Annotations): (r: Annotations)
    ensures !r.NotAMap? && (r.Entries? ==> a.Entries? && WAVE !in r.entries && r.entries != map[])
    ensures a.Entries? ==>
              forall k :: k in a.entries && k != WAVE ==> r.Entries? && k in r.entries && r.entries[k] == a.entries[k]
  {
    if a.Entries? && a.entries - {WAVE} != map[] then
      assert forall k :: k in a.entries && k != WAVE ==> k in a.entries - {WAVE};
      Entries(a.entries - {WAVE})
    else
      assert a.Entries? ==> forall k :: k in a.entries && k != WAVE ==> k in a.entries - {WAVE};
      Absent
  }

  // ---------- one policy ----------

  function EmbeddedIn(t: Template, f: SourceFile, document: Document): Embedded {
    Embedded(if f.complianceType != UNSET then f.complianceType else t.complianceType, document)
  }

  function EmbedFile(t: Template, f: SourceFile, documents: seq<Document>): (r: seq<Embedded>)
    ensures |r| == |documents| && forall i :: 0 <= i < |r| ==> r[i] == EmbeddedIn(t, f, documents[i])
  {
    seq(|documents|, i requires 0 <= i < |documents| => EmbeddedIn(t, f, documents[i]))
  }

  /** The first file of a policy creates it. */
  function Create(t: Template, parses: string -> bool, f: SourceFile): (p: Progress)
    ensures !p.NotStarted?
  {
    if f.documents.None? || !NameFits(t.namespace, t.name + "-" + f.policyName) then Rejected
    else
      var wave := WaveAfter(Agreed(None), f.documents.value);
      if wave == Clash || !ValidInterval(parses, t.compliant) || !ValidInterval(parses, t.nonCompliant)
         || !ValidOverride(parses, f.compliant) || !ValidOverride(parses, f.nonCompliant)
      then Rejected
      else Built(Summary(if f.remediationAction != UNSET then f.remediationAction else t.remediationAction,
                         if f.compliant != UNSET then f.compliant else t.compliant,
                         if f.nonCompliant != UNSET then f.nonCompliant else t.nonCompliant,
                         EmbedFile(t, f, f.documents.value), wave.wave))
  }

  /** Every further file adds to it. */
  function Append(t: Template, parses: string -> bool, s: Summary, f: SourceFile): (p: Progress)
    ensures !p.NotStarted?
  {
    if f.documents.None? || s.templates == [] then Rejected
    else
      var wave := WaveAfter(Agreed(s.wave), f.documents.value);
      var remediationAction := Override(t.remediationAction, Some(s.remediationAction), f.remediationAction);
      var compliant := Override(t.compliant, Some(s.compliant), f.compliant);
      var nonCompliant := Override(t.nonCompliant, Some(s.nonCompliant), f.nonCompliant);
      if wave == Clash || remediationAction.None? || compliant.None? || nonCompliant.None?
         || !ValidOverride(parses, f.compliant) || !ValidOverride(parses, f.nonCompliant)
      then Rejected
      else Built(Summary(remediationAction.value, compliant.value, nonCompliant.value,
                         s.templates + EmbedFile(t, f, f.documents.value), wave.wave))
  }

  function Next(t: Template, parses: string -> bool, p: Progress, f: SourceFile): (next: Progress)
    ensures !next.NotStarted?
  {
    match p
    case NotStarted => Create(t, parses, f)
    case Rejected => Rejected
    case Built(s) => Append(t, parses, s, f)
  }

  /** All files of one policy, one after the other. */
  function Summarize(t: Template, parses: string -> bool, files: seq<SourceFile>): Progress {
    if files == [] then NotStarted
    else Next(t, parses, Summarize(t, parses, files[..|files| - 1]), files[|files| - 1])
  }

  // ---------- when the fold succeeds, and what it gives ----------

  function RemediationsOf(files: seq<SourceFile>): (r: seq<string>)
    ensures |r| == |files| && forall i :: 0 <= i < |files| ==> r[i] == files[i].remediationAction
  {
    seq(|files|, i requires 0 <= i < |files| => files[i].remediationAction)
  }

  function CompliantsOf(files: seq<SourceFile>): (r: seq<string>)
    ensures |r| == |files| && forall i :: 0 <= i < |files| ==> r[i] == files[i].compliant
  {
    seq(|files|, i requires 0 <= i < |files| => files[i].compliant)
  }

  function NonCompliantsOf(files: seq<SourceFile>): (r: seq<string>)
    ensures |r| == |files| && forall i :: 0 <= i < |files| ==> r[i] == files[i].nonCompliant
  {
    seq(|files|, i requires 0 <= i < |files| => files[i].nonCompliant)
  }

  ghost predicate AllRead(files: seq<SourceFile>) {
    forall i :: 0 <= i < |files| ==> files[i].documents.Some?
  }

  /** The documents of all files, in file order. */
  ghost function DocumentsOf(files: seq<SourceFile>): seq<Document>
    requires AllRead(files)
  {
    if files == [] then [] else DocumentsOf(files[..|files| - 1]) + files[|files| - 1].documents.value
  }

  ghost function TemplatesOf(t: Template, files: seq<SourceFile>): seq<Embedded>
    requires AllRead(files)
  {
    if files == [] then []
    else TemplatesOf(t, files[..|files| - 1]) + EmbedFile(t, files[|files| - 1], files[|files| - 1].documents.value)
  }

  /**
   * Each document of each file is embedded, after those of the files before it and those before it in its file, with
   * the compliance type the file sets, or else the template's.
   */
  lemma {:induction false} TemplateAt(t: Template, files: seq<SourceFile>, i: nat, j: nat)
    requires AllRead(files) && i < |files| && j < |files[i].documents.value|
    ensures |TemplatesOf(t, files)| == |DocumentsOf(files)|
    ensures var templates, k := TemplatesOf(t, files), |DocumentsOf(files[..i])| + j;
            k < |templates| && templates[k].document == files[i].documents.value[j]
            && (files[i].complianceType != UNSET ==> templates[k].complianceType == files[i].complianceType)
            && (files[i].complianceType == UNSET ==> templates[k].complianceType == t.complianceType)
    decreases |files|
  {
    var last := |files| - 1;
    OneTemplateEach(t, files[..last]);
    if i < last {
      TemplateAt(t, files[..last], i, j);
      assert files[..last][..i] == files[..i];
    }
  }

  lemma {:induction false} OneTemplateEach(t: Template, files: seq<SourceFile>)
    requires AllRead(files)
    ensures |TemplatesOf(t, files)| == |DocumentsOf(files)|
  {
    if files != [] { OneTemplateEach(t, files[..|files| - 1]); }
  }

  ghost predicate IntervalsValid(t: Template, parses: string -> bool, files: seq<SourceFile>) {
    && ValidInterval(parses, t.compliant) && ValidInterval(parses, t.nonCompliant)
    && forall i :: 0 <= i < |files| ==>
                     ValidOverride(parses, files[i].compliant) && ValidOverride(parses, files[i].nonCompliant)
  }

  /** The conditions on the files of one policy, independent of the order in which they are checked. */
  ghost predicate Acceptable(t: Template, parses: string -> bool, files: seq<SourceFile>) {
    && files != [] && AllRead(files)
    && NameFits(t.namespace, t.name + "-" + files[0].policyName)
    && IntervalsValid(t, parses, files)
    && Settle(t.remediationAction, RemediationsOf(files)).Some?
    && Settle(t.compliant, CompliantsOf(files)).Some?
    && Settle(t.nonCompliant, NonCompliantsOf(files)).Some?
    && WaveAfter(Agreed(None), DocumentsOf(files)).Agreed?
    && (|files| > 1 ==> files[0].documents.value != [])
  }

  ghost function Expected(t: Template, files: seq<SourceFile>): Summary
    requires AllRead(files) && WaveAfter(Agreed(None), DocumentsOf(files)).Agreed?
    requires Settle(t.remediationAction, RemediationsOf(files)).Some?
    requires Settle(t.compliant, CompliantsOf(files)).Some? && Settle(t.nonCompliant, NonCompliantsOf(files)).Some?
  {
    Summary(Settle(t.remediationAction, RemediationsOf(files)).value,
            Settle(t.compliant, CompliantsOf(files)).value,
            Settle(t.nonCompliant, NonCompliantsOf(files)).value,
            TemplatesOf(t, files),
            WaveAfter(Agreed(None), DocumentsOf(files)).wave)
  }

  lemma SettleNext(dflt: string, values: seq<string>, front: seq<string>, last: string)
    requires values == front + [last]
    ensures Settle(dflt, values) == Override(dflt, Settle(dflt, front), last)
  {
    assert values[..|values| - 1] == front;
  }

  /** What one more file adds to each column. */
  lemma NextColumns(t: Template, files: seq<SourceFile>, front: seq<SourceFile>, last: SourceFile)
    requires files == front + [last]
    ensures Settle(t.remediationAction, RemediationsOf(files)) ==
            Override(t.remediationAction, Settle(t.remediationAction, RemediationsOf(front)), last.remediationAction)
    ensures Settle(t.compliant, CompliantsOf(files)) ==
            Override(t.compliant, Settle(t.compliant, CompliantsOf(front)), last.compliant)
    ensures Settle(t.nonCompliant, NonCompliantsOf(files)) ==
            Override(t.nonCompliant, Settle(t.nonCompliant, NonCompliantsOf(front)), last.nonCompliant)
  {
    hide Settle, Override;
    SettleNext(t.remediationAction, RemediationsOf(files), RemediationsOf(front), last.remediationAction);
    SettleNext(t.compliant, CompliantsOf(files), CompliantsOf(front), last.compliant);
    SettleNext(t.nonCompliant, NonCompliantsOf(files), NonCompliantsOf(front), last.nonCompliant);
  }

  lemma NextContents(t: Template, files: seq<SourceFile>, front: seq<SourceFile>, last: SourceFile)
    requires files == front + [last]
    ensures AllRead(files) <==> AllRead(front) && last.documents.Some?
    ensures AllRead(files) ==>
              && TemplatesOf(t, files) == TemplatesOf(t, front) + EmbedFile(t, last, last.documents.value)
              && WaveAfter(Agreed(None), DocumentsOf(files)) ==
                 WaveAfter(WaveAfter(Agreed(None), DocumentsOf(front)), last.documents.value)
  {
    assert files[..|files| - 1] == front;
    assert AllRead(files) ==> AllRead(front) by {
      assert forall i :: 0 <= i < |front| ==> front[i] == files[i];
    }
    assert AllRead(files) ==> files[|files| - 1].documents.Some?;
    if AllRead(files) {
      WaveConcat(Agreed(None), DocumentsOf(front), last.documents.value);
    }
  }

  lemma {:induction false} ClashStays(documents: seq<Document>)
    ensures WaveAfter(Clash, documents) == Clash
  {
    if documents != [] { ClashStays(documents[..|documents| - 1]); }
  }

  lemma NextIntervals(t: Template, parses: string -> bool, files: seq<SourceFile>, front: seq<SourceFile>,
                      last: SourceFile)
    requires files == front + [last]
    ensures IntervalsValid(t, parses, files) <==>
            && IntervalsValid(t, parses, front)
            && ValidOverride(parses, last.compliant) && ValidOverride(parses, last.nonCompliant)
  {
    hide ValidInterval, ValidOverride;
    assert files[|front|] == last && forall i :: 0 <= i < |front| ==> files[i] == front[i];
  }

  lemma FirstFile(t: Template, parses: string -> bool, f: SourceFile)
    ensures Create(t, parses, f).Built? <==> Acceptable(t, parses, [f])
    ensures Acceptable(t, parses, [f]) ==> Create(t, parses, f) == Built(Expected(t, [f]))
  {
    hide ValidInterval, WaveAfter, Settle, NameFits;
    var files := [f];
    NextColumns(t, files, [], f);
    NextContents(t, files, [], f);
    NextIntervals(t, parses, files, [], f);
    assert AllRead([]) && TemplatesOf(t, []) == [] && DocumentsOf([]) == [];
    SettleNothing(t.remediationAction);
    SettleNothing(t.compliant);
    SettleNothing(t.nonCompliant);
    assert WaveAfter(Agreed(None), DocumentsOf([])) == Agreed(None) by { NoDocuments(); }
    assert files[0] == f;
    if f.documents.Some? {
      assert [] + EmbedFile(t, f, f.documents.value) == EmbedFile(t, f, f.documents.value);
    }
  }

  lemma SettleNothing(dflt: string)
    ensures Settle(dflt, []) == Some(dflt)
    ensures RemediationsOf([]) == [] && CompliantsOf([]) == [] && NonCompliantsOf([]) == []
  {
  }

  lemma NoDocuments()
    ensures WaveAfter(Agreed(None), DocumentsOf([])) == Agreed(None)
  {
  }

  lemma FurtherFile(t: Template, parses: string -> bool, files: seq<SourceFile>, front: seq<SourceFile>,
                    last: SourceFile)
    requires front != [] && files == front + [last] && Acceptable(t, parses, front)
    requires TemplatesOf(t, front) == [] <==> |front| == 1 && front[0].documents.value == []
    ensures Append(t, parses, Expected(t, front), last).Built? <==> Acceptable(t, parses, files)
    ensures Acceptable(t, parses, files) ==> Append(t, parses, Expected(t, front), last) == Built(Expected(t, files))
  {
    hide ValidInterval, ValidOverride, IntervalsValid, WaveAfter, Settle, NameFits, Override, EmbedFile, AllRead,
         TemplatesOf, DocumentsOf, RemediationsOf, CompliantsOf, NonCompliantsOf;
    NextColumns(t, files, front, last);
    NextContents(t, files, front, last);
    NextIntervals(t, parses, files, front, last);
    assert files[0] == front[0];
    assert front[0].documents.Some? by { FirstRead(front); }
  }

  lemma FirstRead(files: seq<SourceFile>)
    requires files != [] && AllRead(files)
    ensures files[0].documents.Some?
  {
  }

  lemma AcceptableFront(t: Template, parses: string -> bool, files: seq<SourceFile>, front: seq<SourceFile>,
                        last: SourceFile)
    requires front != [] && files == front + [last] && Acceptable(t, parses, files)
    ensures Acceptable(t, parses, front)
  {
    hide ValidInterval, ValidOverride, IntervalsValid, WaveAfter, Settle, NameFits, EmbedFile, AllRead,
         TemplatesOf, DocumentsOf, RemediationsOf, CompliantsOf, NonCompliantsOf;
    NextColumns(t, files, front, last);
    NextContents(t, files, front, last);
    NextIntervals(t, parses, files, front, last);
    assert files[0] == front[0];
    FirstRead(front);
    if WaveAfter(Agreed(None), DocumentsOf(front)) == Clash { ClashStays(last.documents.value); }
  }

  lemma NoTemplates(t: Template, files: seq<SourceFile>)
    requires files != [] && AllRead(files) && (|files| > 1 ==> files[0].documents.value != [])
    ensures TemplatesOf(t, files) == [] <==> |files| == 1 && files[0].documents.value == []
  {
    if |files| == 1 {
      assert TemplatesOf(t, files[..0]) == [];
    } else {
      NoTemplates(t, files[..|files| - 1]);
    }
  }

  /**
   * The files of a policy are accepted exactly if each condition holds on its own, and the policy then has the
   * settled overrides, the agreed wave and the documents of all files in order.
   */
  lemma {:induction false} SummarizeExactly(t: Template, parses: string -> bool, files: seq<SourceFile>)
    requires files != []
    ensures Summarize(t, parses, files).Built? <==> Acceptable(t, parses, files)
    ensures Acceptable(t, parses, files) ==> Summarize(t, parses, files) == Built(Expected(t, files))
    decreases |files|
  {
    hide Create, Append, Acceptable, Expected;
    var front, last := files[..|files| - 1], files[|files| - 1];
    assert files == front + [last];
    if front == [] {
      assert files == [last];
      FirstFile(t, parses, last);
    } else {
      SummarizeExactly(t, parses, front);
      if Acceptable(t, parses, front) {
        AcceptableFacts(t, parses, front);
        FurtherFile(t, parses, files, front, last);
      } else if Acceptable(t, parses, files) {
        AcceptableFront(t, parses, files, front, last);
      }
    }
  }

  lemma AcceptableFacts(t: Template, parses: string -> bool, files: seq<SourceFile>)
    requires Acceptable(t, parses, files)
    ensures AllRead(files) && files[0].documents.Some? && WaveAfter(Agreed(None), DocumentsOf(files)).Agreed?
    ensures TemplatesOf(t, files) == [] <==> |files| == 1 && files[0].documents.value == []
  {
    NoTemplates(t, files);
  }

  /** The interval in force when a policy's own is left empty is the default. */
  function InForce(interval: string, dflt: string): string {
    if interval == "" then dflt else interval
  }

  lemma {:induction false} LastOverrideInForce(values: seq<string>, dflt: string)
    requires "" !in values
    ensures InForce(Translator.LastOverride(values, ""), dflt) == Translator.LastOverride(values, dflt)
  {
    if values != [] && values[|values| - 1] == UNSET {
      LastOverrideInForce(values[..|values| - 1], dflt);
    }
  }

  /**
   * The translator takes the last interval a file sets, unchecked, or leaves it to the defaults. For every policy
   * the policy generator accepts, that puts the same intervals in force.
   */
  lemma TranslatorAgrees(t: Template, parses: string -> bool, files: seq<SourceFile>)
    requires Acceptable(t, parses, files) && !parses("")
    ensures InForce(Translator.LastOverride(CompliantsOf(files), ""), t.compliant) == Expected(t, files).compliant
    ensures InForce(Translator.LastOverride(NonCompliantsOf(files), ""), t.nonCompliant) ==
            Expected(t, files).nonCompliant
  {
    LastOverrideInForce(CompliantsOf(files), t.compliant);
    LastOverrideInForce(NonCompliantsOf(files), t.nonCompliant);
    LastOverrideAgrees(t.compliant, CompliantsOf(files));
    LastOverrideAgrees(t.nonCompliant, NonCompliantsOf(files));
  }
}
