/** The two treatments of evaluation intervals, on what the two programs make of the same source files. */
module EvaluationIntervals {
  import opened PolicySummary
  import Build
  import Translator

  /** Two readings of one source file. */
  ghost predicate SameFile(f: SourceFile, g: Translator.SourceFile) {
    && f.policyName == g.policyName && f.fileName == g.fileName
    && f.compliant == g.compliant && f.nonCompliant == g.nonCompliant
  }

  ghost predicate SameFiles(files: seq<SourceFile>, read: seq<Translator.SourceFile>) {
    |files| == |read| && forall i :: 0 <= i < |files| ==> SameFile(files[i], read[i])
  }

  /** Both programs see the same intervals for a policy, in the same order. */
  lemma {:induction false} SameIntervals(t: Template, files: seq<SourceFile>, read: seq<Translator.SourceFile>,
                                         name: string)
    requires SameFiles(files, read) && t.wrapInPolicy && name != ""
    ensures Translator.CompliantOf(read, name) == CompliantsOf(Build.FilesOf(t, files, name))
    ensures Translator.NonCompliantOf(read, name) == NonCompliantsOf(Build.FilesOf(t, files, name))
    decreases |files|
  {
    if files != [] {
      var last := |files| - 1;
      SameIntervals(t, files[..last], read[..last], name);
      assert SameFile(files[last], read[last]);
    }
  }

  /**
   * The policy the translator converts puts the same intervals in force as the one the policy generator builds, for
   * every policy that the generator accepts.
   */
  lemma ConvertedPolicyAgrees(t: Template, parses: string -> bool, read: seq<Translator.SourceFile>, rootName: string,
                              name: string, policy: Translator.Policy)
    requires SameFiles(t.sourceFiles, read) && t.wrapInPolicy && name != "" && !parses("")
    requires Translator.IsPolicyOf(policy, read, rootName, name)
    requires Acceptable(t, parses, Build.FilesOf(t, t.sourceFiles, name))
    ensures var expected := Expected(t, Build.FilesOf(t, t.sourceFiles, name));
            && InForce(policy.compliant, t.compliant) == expected.compliant
            && InForce(policy.nonCompliant, t.nonCompliant) == expected.nonCompliant
  {
    hide Acceptable, Expected, Translator.LastOverride, Build.FilesOf;
    SameIntervals(t, t.sourceFiles, read, name);
    TranslatorAgrees(t, parses, Build.FilesOf(t, t.sourceFiles, name));
  }
}
