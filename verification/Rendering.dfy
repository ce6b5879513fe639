/**
 * Rendering manifest files for one machine config pool: `$mcp` replacement, renaming, placeholder commenting.
 * The translator renders a file each time a policy mentions it, so a run renders the same file again, in between
 * renderings of other files. Which pools and which texts make that harmless is the question of the second half.
 * Renderings are taken one by one, in a list of manifest numbers.
 */
module Rendering {
  import opened Options
  import opened Text
  import opened Placeholders

  const MCP := "$mcp"

  /** `strings.Contains(s, "$mcp")` */
  predicate HasMcp(s: string) {
    MCP <= s || (s != "" && HasMcp(s[1..]))
  }

  lemma {:induction false} HasMcpExactly(s: string)
    ensures HasMcp(s) <==> exists before, after :: s == before + MCP + after
  {
    if MCP <= s {
      assert s == "" + MCP + s[4..];
    } else if s != "" {
      HasMcpExactly(s[1..]);
      if before, after :| s[1..] == before + MCP + after {
        assert s == ([s[0]] + before) + MCP + after;
      }
      if before, after :| s == before + MCP + after {
        assert s[|before|..] == MCP + after;
        assert s[1..] == before[1..] + MCP + after;
      }
    }
  }

  /** `strings.ReplaceAll(s, "$mcp", mcp)` */
  function ReplaceMcp(s: string, mcp: string): string
    decreases |s|
  {
    if MCP <= s then mcp + ReplaceMcp(s[4..], mcp)
    else if s == "" then ""
    else [s[0]] + ReplaceMcp(s[1..], mcp)
  }

  /** Some end of `s` is a proper start of the pattern. */
  predicate EndsInPattern(s: string) {
    s == "$" || s == "$m" || s == "$mc" || (s != "" && EndsInPattern(s[1..]))
  }

  /** Some start of `s` is a proper end of the pattern. */
  predicate StartsInPattern(s: string) {
    "mcp" <= s || "cp" <= s || "p" <= s
  }

  /** Pool names that cannot hold or complete an occurrence of the pattern, whatever they are put between. */
  predicate SafePool(mcp: string) {
    && !HasMcp(mcp) && !EndsInPattern(mcp) && !StartsInPattern(mcp)
    && mcp != "" && mcp != "m" && mcp != "c" && mcp != "mc"
  }

  lemma {:induction false} NoDollarHarmless(s: string)
    requires '$' !in s
    ensures !HasMcp(s) && !EndsInPattern(s)
  {
    if s != "" {
      NoDollarHarmless(s[1..]);
      assert s[0] in s;
      assert !(MCP <= s);
    }
  }

  lemma WorkerAndMasterSafe()
    ensures SafePool("worker") && SafePool("master")
  {
    hide HasMcp, EndsInPattern;
    NoDollarHarmless("worker");
    NoDollarHarmless("master");
    assert "worker"[0] == 'w' && "master"[0] == 'm' && "master"[1] == 'a';
  }

  /** Text that ends in no start of the pattern is only searched by itself. */
  lemma {:induction false} Apart(prefix: string, s: string)
    requires !EndsInPattern(prefix)
    ensures HasMcp(prefix + s) <==> HasMcp(prefix) || HasMcp(s)
  {
    if prefix == "" {
      assert prefix + s == s;
    } else {
      assert (prefix + s)[1..] == prefix[1..] + s;
      Apart(prefix[1..], s);
      assert MCP <= prefix ==> MCP <= prefix + s;
      if MCP <= prefix + s && !(MCP <= prefix) { StartApart(prefix, s); }
    }
  }

  lemma StartApart(prefix: string, s: string)
    requires prefix != "" && MCP <= prefix + s && !(MCP <= prefix)
    ensures prefix == "$" || prefix == "$m" || prefix == "$mc"
  {
    assert forall i :: 0 <= i < |prefix| ==> (prefix + s)[i] == prefix[i];
    assert |prefix| < 4 && forall i :: 0 <= i < |prefix| ==> prefix[i] == MCP[i];
  }

  /** If the replaced text starts with a proper end of the pattern, so did the original. */
  lemma {:induction false} ReplacedStart(u: string, mcp: string, w: string)
    requires SafePool(mcp) && w in {"mcp", "cp", "p", ""} && w <= ReplaceMcp(u, mcp)
    ensures w <= u
  {
    if MCP <= u {
      if w != "" { StartInPool(mcp, ReplaceMcp(u[4..], mcp), w); }
    } else if w != "" {
      assert ReplaceMcp(u, mcp)[0] == u[0] && ReplaceMcp(u, mcp)[1..] == ReplaceMcp(u[1..], mcp);
      ReplacedStart(u[1..], mcp, w[1..]);
      assert u == [u[0]] + u[1..] && w == [w[0]] + w[1..];
    }
  }

  lemma StartInPool(mcp: string, rest: string, w: string)
    requires w in {"mcp", "cp", "p"} && w <= mcp + rest
    ensures StartsInPattern(mcp) || mcp in {"", "m", "c", "mc"}
  {
    if |w| <= |mcp| {
      assert mcp[..|w|] == (mcp + rest)[..|w|] == w;
    } else {
      assert forall i :: 0 <= i < |mcp| ==> mcp[i] == (mcp + rest)[i] == w[i];
      if |mcp| == 1 {
        assert mcp == [w[0]];
      } else if |mcp| == 2 {
        assert mcp == [w[0], w[1]];
      }
    }
  }

  /** One replacement pass leaves nothing to replace. */
  lemma {:induction false} NothingLeft(s: string, mcp: string)
    requires SafePool(mcp)
    ensures !HasMcp(ReplaceMcp(s, mcp))
    decreases |s|
  {
    if MCP <= s {
      NothingLeft(s[4..], mcp);
      Apart(mcp, ReplaceMcp(s[4..], mcp));
    } else if s != "" {
      var rest := ReplaceMcp(s[1..], mcp);
      NothingLeft(s[1..], mcp);
      assert ([s[0]] + rest)[1..] == rest;
      assert s == [s[0]] + s[1..];
      assert MCP <= [s[0]] + rest ==> "mcp" <= rest by {
        if MCP <= [s[0]] + rest { assert ([s[0]] + rest)[1..4] == "mcp"; }
      }
      if "mcp" <= rest {
        ReplacedStart(s[1..], mcp, "mcp");
      }
    }
  }

  lemma {:induction false} HasMcpInside(before: string, after: string)
    ensures HasMcp(before + MCP + after)
  {
    var s := before + MCP + after;
    if before == "" {
      assert MCP <= s;
    } else {
      assert s[1..] == before[1..] + MCP + after;
      HasMcpInside(before[1..], after);
    }
  }

  lemma NothingReplaced(s: string, mcp: string)
    requires '$' !in s
    ensures ReplaceMcp(s, mcp) == s
  {
    NoDollarHarmless(s);
    NoneReplaced(s, mcp);
  }

  lemma ReplaceHere(rest: string, mcp: string)
    ensures ReplaceMcp(MCP + rest, mcp) == mcp + ReplaceMcp(rest, mcp)
  {
    assert (MCP + rest)[4..] == rest;
  }

  lemma ReplaceLater(c: char, rest: string, mcp: string)
    requires !(MCP <= [c] + rest)
    ensures ReplaceMcp([c] + rest, mcp) == [c] + ReplaceMcp(rest, mcp)
  {
    assert ([c] + rest)[1..] == rest;
  }

  /** The first occurrence is replaced, and replacing goes on behind it. */
  lemma {:induction false} FirstReplaced(before: string, after: string, mcp: string)
    requires !HasMcp(before + "$mc")
    ensures ReplaceMcp(before + MCP + after, mcp) == before + mcp + ReplaceMcp(after, mcp)
    decreases |before|
  {
    var s := before + MCP + after;
    if before == "" {
      assert s == MCP + after;
      ReplaceHere(after, mcp);
    } else {
      var short := before + "$mc";
      assert forall i :: 0 <= i < 4 ==> s[i] == short[i];
      assert s == [before[0]] + (before[1..] + MCP + after) && short[1..] == before[1..] + "$mc";
      ReplaceLater(before[0], before[1..] + MCP + after, mcp);
      FirstReplaced(before[1..], after, mcp);
    }
  }

  /** Without an occurrence nothing changes. */
  lemma {:induction false} NoneReplaced(s: string, mcp: string)
    requires !HasMcp(s)
    ensures ReplaceMcp(s, mcp) == s
    decreases |s|
  {
    if s != "" {
      NoneReplaced(s[1..], mcp);
      assert s == [s[0]] + s[1..];
    }
  }

  /** Text around one occurrence: in front of it a proper start of the pattern, behind it no dollar sign. */
  lemma ReplacedOnce(before: string, after: string, mcp: string)
    requires before in {"", "$", "$m", "$mc"} && '$' !in after
    ensures ReplaceMcp(before + MCP + after, mcp) == before + mcp + after
  {
    hide ReplaceMcp;
    var s, r := MCP + after, mcp + after;
    NothingReplaced(after, mcp);
    ReplaceHere(after, mcp);
    assert s[0] == '$';
    if before == "" {
      assert before + MCP + after == s && before + mcp + after == r;
    } else if before == "$" {
      assert (['$'] + s)[1] == '$';
      ReplaceLater('$', s, mcp);
      assert before + MCP + after == ['$'] + s && before + mcp + after == ['$'] + r;
    } else if before == "$m" {
      assert (['m'] + s)[0] == 'm' && (['$'] + (['m'] + s))[2] == '$';
      ReplaceLater('m', s, mcp);
      ReplaceLater('$', ['m'] + s, mcp);
      assert before + MCP + after == ['$'] + (['m'] + s) && before + mcp + after == ['$'] + (['m'] + r);
    } else {
      assert (['c'] + s)[0] == 'c' && (['m'] + (['c'] + s))[0] == 'm' && (['$'] + (['m'] + (['c'] + s)))[3] == '$';
      ReplaceLater('c', s, mcp);
      ReplaceLater('m', ['c'] + s, mcp);
      ReplaceLater('$', ['m'] + (['c'] + s), mcp);
      assert before + MCP + after == ['$'] + (['m'] + (['c'] + s));
      assert before + mcp + after == ['$'] + (['m'] + (['c'] + r));
    }
  }

  lemma {:induction false} PatternEnd(s: string) returns (front: string, end: string)
    requires EndsInPattern(s)
    ensures s == front + end && end in {"$", "$m", "$mc"}
  {
    if s == "$" || s == "$m" || s == "$mc" {
      front, end := "", s;
    } else {
      front, end := PatternEnd(s[1..]);
      front := [s[0]] + front;
    }
  }

  lemma EndLeaves(mcp: string) returns (after: string)
    requires EndsInPattern(mcp)
    ensures '$' !in after && HasMcp("" + mcp + after)
  {
    hide HasMcp, EndsInPattern;
    var front, end := PatternEnd(mcp);
    after := if end == "$" then "mcp" else if end == "$m" then "cp" else "p";
    assert end + after == MCP;
    HasMcpInside(front, "");
    assert "" + mcp + after == front + (end + after) + "";
  }

  lemma StartLeaves(mcp: string) returns (before: string)
    requires StartsInPattern(mcp)
    ensures before in {"$", "$m", "$mc"} && HasMcp(before + mcp + "")
  {
    hide HasMcp;
    var start := if "mcp" <= mcp then "mcp" else if "cp" <= mcp then "cp" else "p";
    before := if start == "mcp" then "$" else if start == "cp" then "$m" else "$mc";
    assert before + start == MCP;
    assert mcp == start + mcp[|start|..];
    HasMcpInside("", mcp[|start|..]);
    assert before + mcp + "" == "" + (before + start) + mcp[|start|..];
  }

  lemma InsideLeaves(mcp: string) returns (before: string, after: string)
    requires mcp == "" || mcp == "m" || mcp == "c" || mcp == "mc"
    ensures before in {"$", "$m"} && '$' !in after && HasMcp(before + mcp + after)
  {
    before := if mcp == "" || mcp == "c" then "$m" else "$";
    after := if mcp == "" || mcp == "m" then "cp" else "p";
    assert before + mcp + after == MCP;
  }

  /** A text in which an unsafe pool name leaves the pattern. */
  lemma LeavesPattern(mcp: string) returns (before: string, after: string)
    requires !SafePool(mcp)
    ensures before in {"", "$", "$m", "$mc"} && '$' !in after && HasMcp(before + mcp + after)
  {
    hide HasMcp, EndsInPattern, StartsInPattern;
    before, after := "", "";
    if HasMcp(mcp) {
      assert before + mcp + after == mcp;
    } else if EndsInPattern(mcp) {
      after := EndLeaves(mcp);
    } else if StartsInPattern(mcp) {
      before := StartLeaves(mcp);
    } else {
      before, after := InsideLeaves(mcp);
    }
  }

  /** Exactly the safe pool names leave no pattern in any text. */
  lemma SafePoolsExactly(mcp: string)
    ensures (forall s :: !HasMcp(ReplaceMcp(s, mcp))) <==> SafePool(mcp)
  {
    if SafePool(mcp) {
      forall s ensures !HasMcp(ReplaceMcp(s, mcp)) { NothingLeft(s, mcp); }
    } else {
      var before, after := LeavesPattern(mcp);
      ReplacedOnce(before, after, mcp);
    }
  }

  /** The empty pool name, the default of a template, is not one of them. */
  lemma EmptyPoolUnsafe()
    ensures HasMcp(ReplaceMcp("$m$mcpcp", ""))
  {
    ReplacedOnce("$m", "cp", "");
    assert "$m" + MCP + "cp" == "$m$mcpcp" && "$m" + "" + "cp" == MCP;
  }

  lemma {:induction false} HasMcpAcross(a: string, b: string)
    ensures HasMcp(a + ['\n'] + b) <==> HasMcp(a) || HasMcp(b)
  {
    var s := a + ['\n'] + b;
    if a == "" {
      assert s[1..] == b;
      assert s[0] == '\n';
    } else {
      assert s[1..] == a[1..] + ['\n'] + b;
      HasMcpAcross(a[1..], b);
      assert MCP <= s <==> MCP <= a by {
        if |a| < 4 { assert s[|a|] == '\n'; }
      }
    }
  }

  lemma {:induction false} HasMcpJoin(lines: seq<string>)
    requires lines != []
    ensures HasMcp(Join(lines, '\n')) <==> exists i :: 0 <= i < |lines| && HasMcp(lines[i])
  {
    if |lines| > 1 {
      HasMcpJoin(lines[1..]);
      HasMcpAcross(lines[0], Join(lines[1..], '\n'));
      if i :| 0 <= i < |lines| && HasMcp(lines[i]) {
        assert i > 0 ==> lines[1..][i - 1] == lines[i];
      }
      if i :| 0 <= i < |lines[1..]| && HasMcp(lines[1..][i]) {
        assert lines[i + 1] == lines[1..][i];
      }
    }
  }

  lemma {:induction false} MarkSkipped(n: nat, line: string)
    ensures HasMcp(Mark(n, line)) <==> HasMcp(line)
  {
    if n > 0 {
      MarkSkipped(n - 1, line);
      NoDollarHarmless("# ");
      Apart("# ", Mark(n - 1, line));
    }
  }

  /** Commenting out lines neither adds nor removes the pattern. */
  lemma RewritingKeepsMcp(text: string)
    ensures HasMcp(RewrittenText(text)) <==> HasMcp(text)
  {
    var lines := Split(text, '\n');
    JoinOfSplit(text, '\n');
    HasMcpJoin(lines);
    HasMcpJoin(Rewritten(lines));
    forall i | 0 <= i < |lines| ensures HasMcp(Rewritten(lines)[i]) <==> HasMcp(lines[i]) {
      MarkSkipped(Marks(lines, i, |lines|), lines[i]);
    }
  }

  // ---------- one file ----------

  function TrimYaml(path: string): string {
    if |path| >= 5 && path[|path| - 5..] == ".yaml" then path[..|path| - 5] else path
  }

  function RenderedPath(path: string, text: string, mcp: string): string {
    if HasMcp(text) then TrimYaml(path) + "-MCP-" + mcp + ".yaml" else path
  }

  /** A file that holds the pattern is renamed after the pool, in front of its `.yaml`; no other file is. */
  lemma RenderedPathExactly(stem: string, path: string, text: string, mcp: string)
    ensures HasMcp(text) ==> RenderedPath(stem + ".yaml", text, mcp) == stem + "-MCP-" + mcp + ".yaml"
    ensures HasMcp(text) && (forall stem' :: path != stem' + ".yaml") ==>
              RenderedPath(path, text, mcp) == path + "-MCP-" + mcp + ".yaml"
    ensures !HasMcp(text) ==> RenderedPath(path, text, mcp) == path
  {
    hide HasMcp;
    assert (stem + ".yaml")[..|stem|] == stem;
    if |path| >= 5 && path[|path| - 5..] == ".yaml" {
      assert path == path[..|path| - 5] + ".yaml";
    }
  }

  ghost function RenderedText(text: string, mcp: string): string {
    RewrittenText(if HasMcp(text) then ReplaceMcp(text, mcp) else text)
  }

  /** Replacing the pattern in this text does not leave another. */
  predicate Replaceable(text: string, mcp: string) {
    HasMcp(text) ==> !HasMcp(ReplaceMcp(text, mcp))
  }

  lemma ReplaceableWhen(text: string, mcp: string)
    requires !HasMcp(text) || SafePool(mcp)
    ensures Replaceable(text, mcp)
  {
    if HasMcp(text) { NothingLeft(text, mcp); }
  }

  /** Exactly then a rendered file stays as it is, name and text, when rendered again. */
  lemma RenderTwice(path: string, text: string, mcp: string)
    ensures var path', text' := RenderedPath(path, text, mcp), RenderedText(text, mcp);
            && (Replaceable(text, mcp) ==> !HasMcp(text'))
            && (RenderedPath(path', text', mcp) == path' && RenderedText(text', mcp) == text' <==>
                Replaceable(text, mcp))
  {
    var replaced := if HasMcp(text) then ReplaceMcp(text, mcp) else text;
    var path', text' := RenderedPath(path, text, mcp), RenderedText(text, mcp);
    RewritingKeepsMcp(replaced);
    if Replaceable(text, mcp) {
      RewriteTextIdempotent(replaced);
    } else {
      assert TrimYaml(path') == path'[..|path'| - 5];
      assert |RenderedPath(path', text', mcp)| > |path'|;
    }
  }

  // ---------- many files, rendered again and again ----------

  type Files = map<string, string>

  class FileSystem {
    var files: Files

    /** Render one file; the new file name, or none if there is no such file. */
    method RenderMCPLines(inputFile: string, mcp: string) returns (outputFile: Option<string>)
      modifies this
      ensures inputFile !in old(files) ==> outputFile.None? && files == old(files)
      ensures inputFile in old(files) ==>
                && outputFile == Some(RenderedPath(inputFile, old(files)[inputFile], mcp))
                && files == old(files)[outputFile.value := RenderedText(old(files)[inputFile], mcp)]
    {
      hide HasMcp, ReplaceMcp, TrimYaml, Split, Join, Rewritten;
      if inputFile !in files {
        return None;
      }
      var contents, output := files[inputFile], inputFile;
      if HasMcp(contents) {
        contents := ReplaceMcp(contents, mcp);
        output := TrimYaml(inputFile) + "-MCP-" + mcp + ".yaml";
      }
      files := files[output := contents];
      var lines := CommentOutLinesWithPlaceholders(Split(contents, '\n'));
      files := files[output := Join(lines, '\n')];
      outputFile := Some(output);
    }
  }

  /** File contents and the current path of every manifest. */
  datatype Workspace = Workspace(files: Files, paths: seq<string>)

  /** Render the `i`-th manifest where it now is, and follow it to its new name. */
  ghost function RenderManifest(w: Workspace, i: nat, mcp: string): Workspace
    requires i < |w.paths| && w.paths[i] in w.files
  {
    var text := w.files[w.paths[i]];
    var path := RenderedPath(w.paths[i], text, mcp);
    Workspace(w.files[path := RenderedText(text, mcp)], w.paths[i := path])
  }

  /** A manifest's first path and text, and what one rendering makes of them. */
  datatype Job = Job(path: string, text: string, newPath: string, newText: string)

  ghost predicate IsJob(job: Job, mcp: string) {
    job.newPath == RenderedPath(job.path, job.text, mcp) && job.newText == RenderedText(job.text, mcp)
  }

  /** Replacing the pattern in any of the files does not leave another. */
  ghost predicate FilesReplaceable(files: Files, mcp: string) {
    forall path :: path in files ==> Replaceable(files[path], mcp)
  }

  /** True of every file system for a safe pool, and for every pool if no file holds the pattern. */
  lemma FilesReplaceableWhen(files: Files, mcp: string)
    requires SafePool(mcp) || forall path :: path in files ==> !HasMcp(files[path])
    ensures FilesReplaceable(files, mcp)
  {
    forall path | path in files ensures Replaceable(files[path], mcp) { ReplaceableWhen(files[path], mcp); }
  }

  /** One job per manifest; no new name is the name, old or new, of a manifest that started elsewhere. */
  ghost predicate NoClash(start: Workspace, jobs: seq<Job>, mcp: string) {
    && FilesReplaceable(start.files, mcp) && |jobs| == |start.paths|
    && (forall i :: 0 <= i < |jobs| ==>
          && IsJob(jobs[i], mcp) && jobs[i].path == start.paths[i]
          && jobs[i].path in start.files && jobs[i].text == start.files[jobs[i].path])
    && (forall i, j :: 0 <= i < |jobs| && 0 <= j < |jobs| && jobs[i].path != jobs[j].path ==>
          jobs[i].newPath != jobs[j].path && jobs[i].newPath != jobs[j].newPath)
  }

  /** The new paths of the jobs in `done`. */
  ghost function Written(jobs: seq<Job>, done: set<nat>): set<string> {
    set i | i in done && i < |jobs| :: jobs[i].newPath
  }

  /** The workspace once exactly the jobs in `done` have been rendered, no matter how often. */
  ghost predicate RenderedOnce(start: Workspace, jobs: seq<Job>, w: Workspace, done: set<nat>) {
    && |w.paths| == |jobs|
    && (forall i :: 0 <= i < |jobs| ==> w.paths[i] == if i in done then jobs[i].newPath else jobs[i].path)
    && (forall i :: i in done && i < |jobs| ==>
          jobs[i].newPath in w.files && w.files[jobs[i].newPath] == jobs[i].newText)
    && w.files.Keys == start.files.Keys + Written(jobs, done)
    && (forall path :: path in start.files && path !in Written(jobs, done) ==> w.files[path] == start.files[path])
  }

  lemma TwinsAgree(start: Workspace, jobs: seq<Job>, i: nat, j: nat, mcp: string)
    requires NoClash(start, jobs, mcp) && i < |jobs| && j < |jobs|
    ensures jobs[i].path == jobs[j].path ==> jobs[i] == jobs[j]
    ensures jobs[i].newPath == jobs[j].newPath || jobs[i].newPath == jobs[j].path ==> jobs[i] == jobs[j]
  {
  }

  lemma JobStable(job: Job, mcp: string)
    requires IsJob(job, mcp) && Replaceable(job.text, mcp)
    ensures RenderedPath(job.newPath, job.newText, mcp) == job.newPath && RenderedText(job.newText, mcp) == job.newText
  {
    RenderTwice(job.path, job.text, mcp);
  }

  /** Rendering any manifest, for the first time or again, leaves its job's result. */
  lemma RenderStep(start: Workspace, jobs: seq<Job>, w: Workspace, done: set<nat>, i: nat, mcp: string)
    requires NoClash(start, jobs, mcp) && RenderedOnce(start, jobs, w, done) && i < |jobs|
    ensures w.paths[i] in w.files
    ensures RenderManifest(w, i, mcp) ==
            Workspace(w.files[jobs[i].newPath := jobs[i].newText], w.paths[i := jobs[i].newPath])
  {
    hide RenderedText, RenderedPath, Replaceable;
    JobStable(jobs[i], mcp);
    var job := jobs[i];
    if i !in done {
      if job.path in Written(jobs, done) {
        var j :| j in done && j < |jobs| && jobs[j].newPath == job.path;
        TwinsAgree(start, jobs, j, i, mcp);
      }
    }
  }

  lemma WriteResult(start: Workspace, jobs: seq<Job>, w: Workspace, done: set<nat>, i: nat)
    requires RenderedOnce(start, jobs, w, done) && i < |jobs|
    requires forall j :: 0 <= j < |jobs| && jobs[i].newPath == jobs[j].newPath ==> jobs[i] == jobs[j]
    ensures RenderedOnce(start, jobs, Workspace(w.files[jobs[i].newPath := jobs[i].newText],
            w.paths[i := jobs[i].newPath]),
                         done + {i})
  {
    assert Written(jobs, done + {i}) == Written(jobs, done) + {jobs[i].newPath};
  }

  lemma RenderNext(start: Workspace, jobs: seq<Job>, w: Workspace, done: set<nat>, i: nat, mcp: string)
    requires NoClash(start, jobs, mcp) && RenderedOnce(start, jobs, w, done) && i < |jobs|
    ensures i < |w.paths| && w.paths[i] in w.files
    ensures RenderedOnce(start, jobs, RenderManifest(w, i, mcp), done + {i})
  {
    RenderStep(start, jobs, w, done, i, mcp);
    forall j | 0 <= j < |jobs| ensures jobs[i].newPath == jobs[j].newPath ==> jobs[i] == jobs[j] {
      TwinsAgree(start, jobs, i, j, mcp);
    }
    WriteResult(start, jobs, w, done, i);
  }

  ghost predicate Indices(ops: seq<nat>, n: nat) {
    forall k :: 0 <= k < |ops| ==> ops[k] < n
  }

  ghost function Elements(ops: seq<nat>): set<nat> {
    set i | i in ops
  }

  /** `w` is reached from `start` by rendering the listed manifests one after the other. */
  ghost predicate Renders(start: Workspace, ops: seq<nat>, w: Workspace, mcp: string)
    decreases |ops|
  {
    if ops == [] then w == start
    else exists before ::
        && Renders(start, ops[..|ops| - 1], before, mcp)
        && ops[|ops| - 1] < |before.paths| && before.paths[ops[|ops| - 1]] in before.files
        && w == RenderManifest(before, ops[|ops| - 1], mcp)
  }

  lemma {:induction false} RendersOnce(start: Workspace, jobs: seq<Job>, ops: seq<nat>, w: Workspace, mcp: string)
    requires NoClash(start, jobs, mcp) && Indices(ops, |jobs|) && Renders(start, ops, w, mcp)
    ensures RenderedOnce(start, jobs, w, Elements(ops))
    decreases |ops|
  {
    hide RenderManifest, NoClash, RenderedOnce;
    if ops == [] {
      NothingRendered(start, jobs, ops, mcp);
    } else {
      var last, front := ops[|ops| - 1], ops[..|ops| - 1];
      var before := BeforeLast(start, ops, w, mcp);
      RendersOnce(start, jobs, front, before, mcp);
      RenderNext(start, jobs, before, Elements(front), last, mcp);
      assert Elements(ops) == Elements(front) + {last};
    }
  }

  lemma NothingRendered(start: Workspace, jobs: seq<Job>, ops: seq<nat>, mcp: string)
    requires NoClash(start, jobs, mcp) && ops == []
    ensures RenderedOnce(start, jobs, start, Elements(ops))
  {
    assert Written(jobs, Elements(ops)) == {};
  }

  lemma BeforeLast(start: Workspace, ops: seq<nat>, w: Workspace, mcp: string) returns (before: Workspace)
    requires ops != [] && Renders(start, ops, w, mcp)
    ensures Renders(start, ops[..|ops| - 1], before, mcp)
    ensures ops[|ops| - 1] < |before.paths| && before.paths[ops[|ops| - 1]] in before.files
    ensures w == RenderManifest(before, ops[|ops| - 1], mcp)
  {
    before :| Renders(start, ops[..|ops| - 1], before, mcp)
              && ops[|ops| - 1] < |before.paths| && before.paths[ops[|ops| - 1]] in before.files
              && w == RenderManifest(before, ops[|ops| - 1], mcp);
  }

  lemma RenderedOnceUnique(start: Workspace, jobs: seq<Job>, w: Workspace, w': Workspace, done: set<nat>)
    requires RenderedOnce(start, jobs, w, done) && RenderedOnce(start, jobs, w', done)
    ensures w == w'
  {
    assert w.paths == w'.paths;
    forall path | path in w.files ensures w.files[path] == w'.files[path] {
      if path in Written(jobs, done) {
        var i :| i in done && i < |jobs| && jobs[i].newPath == path;
      }
    }
    assert w.files == w'.files;
  }

  /**
   * Rendering manifests repeatedly, in any order, gives the names and files of rendering each of them once:
   * two sequences that touch the same manifests end in the same workspace.
   */
  lemma RepetitionIrrelevant(start: Workspace, jobs: seq<Job>, ops: seq<nat>, ops': seq<nat>,
                             w: Workspace, w': Workspace, mcp: string)
    requires NoClash(start, jobs, mcp) && Indices(ops, |jobs|) && Indices(ops', |jobs|)
    requires Elements(ops) == Elements(ops')
    requires Renders(start, ops, w, mcp) && Renders(start, ops', w', mcp)
    ensures w == w'
  {
    RendersOnce(start, jobs, ops, w, mcp);
    RendersOnce(start, jobs, ops', w', mcp);
    RenderedOnceUnique(start, jobs, w, w', Elements(ops));
  }

  // ---------- repetition, whatever the file names ----------

  /** What rendering leaves as it is, under any name. */
  ghost predicate StableText(text: string, mcp: string) {
    !HasMcp(text) && RenderedText(text, mcp) == text
  }

  /** The manifests in `done` are where a rendering has put them, with text it would not change. */
  ghost predicate AllStable(w: Workspace, done: set<nat>, mcp: string) {
    forall i :: i in done && i < |w.paths| ==> w.paths[i] in w.files && StableText(w.files[w.paths[i]], mcp)
  }

  lemma RenderedIsStable(path: string, text: string, mcp: string)
    requires Replaceable(text, mcp)
    ensures StableText(RenderedText(text, mcp), mcp) && Replaceable(RenderedText(text, mcp), mcp)
  {
    RenderTwice(path, text, mcp);
  }

  /** Rendering keeps stable manifests stable, even if it overwrites one of their files. */
  lemma StableNext(w: Workspace, done: set<nat>, i: nat, mcp: string)
    requires FilesReplaceable(w.files, mcp) && AllStable(w, done, mcp) && i < |w.paths| && w.paths[i] in w.files
    ensures FilesReplaceable(RenderManifest(w, i, mcp).files, mcp)
    ensures |RenderManifest(w, i, mcp).paths| == |w.paths|
    ensures AllStable(RenderManifest(w, i, mcp), done + {i}, mcp)
  {
    hide StableText, RenderedText, RenderedPath, Replaceable;
    RenderedIsStable(w.paths[i], w.files[w.paths[i]], mcp);
  }

  /** Rendering a stable manifest does nothing. */
  lemma StableAgain(w: Workspace, done: set<nat>, i: nat, mcp: string)
    requires AllStable(w, done, mcp) && i in done && i < |w.paths|
    ensures w.paths[i] in w.files && RenderManifest(w, i, mcp) == w
  {
    hide RenderedText;
    var path := w.paths[i];
    assert StableText(w.files[path], mcp);
    assert w.files[path := w.files[path]] == w.files && w.paths[i := path] == w.paths;
  }

  /** Without the repetitions: each manifest where it is first listed. */
  ghost function FirstOccurrences(ops: seq<nat>): (r: seq<nat>)
    ensures Elements(r) == Elements(ops)
  {
    if ops == [] then []
    else
      var front, last := FirstOccurrences(ops[..|ops| - 1]), ops[|ops| - 1];
      assert Elements(ops) == Elements(ops[..|ops| - 1]) + {last};
      assert Elements(front + [last]) == Elements(front) + {last};
      if last in front then assert Elements(front) + {last} == Elements(front); front else front + [last]
  }

  lemma {:induction false} RendersStable(start: Workspace, ops: seq<nat>, w: Workspace, mcp: string)
    requires FilesReplaceable(start.files, mcp) && Renders(start, ops, w, mcp)
    ensures FilesReplaceable(w.files, mcp)
    ensures |w.paths| == |start.paths| && Indices(ops, |w.paths|) && AllStable(w, Elements(ops), mcp)
    decreases |ops|
  {
    hide RenderManifest, AllStable, Elements, Indices, FilesReplaceable;
    if ops == [] {
      NoneStable(w, mcp);
    } else {
      var last, front := ops[|ops| - 1], ops[..|ops| - 1];
      var before := BeforeLast(start, ops, w, mcp);
      RendersStable(start, front, before, mcp);
      StableNext(before, Elements(front), last, mcp);
      OneMore(front, last, ops, |w.paths|);
    }
  }

  lemma NoneStable(w: Workspace, mcp: string)
    ensures AllStable(w, Elements([]), mcp) && Indices([], |w.paths|)
  {
  }

  lemma OneMore(front: seq<nat>, last: nat, ops: seq<nat>, n: nat)
    requires ops == front + [last]
    ensures Elements(ops) == Elements(front) + {last}
    ensures Indices(front, n) && last < n ==> Indices(ops, n)
  {
  }

  lemma RendersNext(start: Workspace, ops: seq<nat>, before: Workspace, i: nat, mcp: string)
    requires Renders(start, ops, before, mcp) && i < |before.paths| && before.paths[i] in before.files
    ensures Renders(start, ops + [i], RenderManifest(before, i, mcp), mcp)
  {
    hide RenderManifest;
    assert (ops + [i])[..|ops|] == ops;
  }

  lemma {:induction false} RendersUnique(start: Workspace, ops: seq<nat>, w: Workspace, w': Workspace, mcp: string)
    requires Renders(start, ops, w, mcp) && Renders(start, ops, w', mcp)
    ensures w == w'
    decreases |ops|
  {
    hide RenderManifest;
    if ops != [] {
      var before := BeforeLast(start, ops, w, mcp);
      var before' := BeforeLast(start, ops, w', mcp);
      RendersUnique(start, ops[..|ops| - 1], before, before', mcp);
    }
  }

  /** Rendering manifests again never changes anything, whatever their names: only first renderings count. */
  lemma {:induction false} RepetitionDropped(start: Workspace, ops: seq<nat>, w: Workspace, mcp: string)
    requires FilesReplaceable(start.files, mcp)
    ensures Renders(start, ops, w, mcp) <==> Renders(start, FirstOccurrences(ops), w, mcp)
    decreases |ops|
  {
    hide RenderManifest, AllStable, FilesReplaceable;
    if ops != [] {
      var last, front := ops[|ops| - 1], ops[..|ops| - 1];
      if Renders(start, ops, w, mcp) {
        var before := BeforeLast(start, ops, w, mcp);
        RepetitionDropped(start, front, before, mcp);
        if last in FirstOccurrences(front) {
          RendersStable(start, front, before, mcp);
          assert last in Elements(front) by { assert last in Elements(FirstOccurrences(front)); }
          StableAgain(before, Elements(front), last, mcp);
        } else {
          RendersNext(start, FirstOccurrences(front), before, last, mcp);
        }
      }
      if Renders(start, FirstOccurrences(ops), w, mcp) {
        DroppedBack(start, ops, w, mcp);
      }
    }
  }

  lemma {:induction false} DroppedBack(start: Workspace, ops: seq<nat>, w: Workspace, mcp: string)
    requires FilesReplaceable(start.files, mcp) && ops != [] && Renders(start, FirstOccurrences(ops), w, mcp)
    ensures Renders(start, ops, w, mcp)
    decreases |ops|, 0
  {
    hide RenderManifest, AllStable, FilesReplaceable;
    var last, front := ops[|ops| - 1], ops[..|ops| - 1];
    assert ops == front + [last];
    if last in FirstOccurrences(front) {
      RepetitionDropped(start, front, w, mcp);
      RendersStable(start, front, w, mcp);
      assert last in Elements(front) by { assert last in Elements(FirstOccurrences(front)); }
      StableAgain(w, Elements(front), last, mcp);
      assert last < |w.paths| by { ElementIndex(front, last, |w.paths|); }
      RendersNext(start, front, w, last, mcp);
    } else {
      var before := BeforeLast(start, FirstOccurrences(ops), w, mcp);
      assert FirstOccurrences(ops)[..|FirstOccurrences(ops)| - 1] == FirstOccurrences(front);
      RepetitionDropped(start, front, before, mcp);
      RendersNext(start, front, before, last, mcp);
    }
  }

  lemma ElementIndex(ops: seq<nat>, i: nat, n: nat)
    requires Indices(ops, n) && i in Elements(ops)
    ensures i < n
  {
  }

  // ---------- when the order matters ----------

  /**
   * If the first manifest's new name is the second manifest's file, which holds the pattern itself, the order of the
   * two renderings decides where the second manifest ends up.
   */
  lemma OrderMatters(w: Workspace, mcp: string)
    requires |w.paths| == 2 && w.paths[0] in w.files && w.paths[1] in w.files && w.paths[0] != w.paths[1]
    requires FilesReplaceable(w.files, mcp)
    requires RenderedPath(w.paths[0], w.files[w.paths[0]], mcp) == w.paths[1] && HasMcp(w.files[w.paths[1]])
    ensures var first, second := RenderManifest(w, 0, mcp), RenderManifest(w, 1, mcp);
            && first.paths[1] in first.files && second.paths[0] in second.files
            && RenderManifest(first, 1, mcp).paths[1] != RenderManifest(second, 0, mcp).paths[1]
  {
    hide RenderedText, HasMcp;
    var path, text := w.paths[0], w.files[w.paths[0]];
    RenderTwice(path, text, mcp);
    var next := RenderedPath(w.paths[1], w.files[w.paths[1]], mcp);
    assert |w.paths[1]| >= 5 && w.paths[1][|w.paths[1]| - 5..] == ".yaml";
    assert |next| > |w.paths[1]|;
  }

  /** There are such workspaces for every safe pool. */
  lemma OrderMattersSomewhere(base: string, mcp: string)
    requires SafePool(mcp)
    ensures var path, other := base + ".yaml", base + "-MCP-" + mcp + ".yaml";
            var w := Workspace(map[path := MCP, other := MCP], [path, other]);
            && path != other && FilesReplaceable(w.files, mcp)
            && RenderedPath(path, w.files[path], mcp) == other && HasMcp(w.files[other])
  {
    var path, other := base + ".yaml", base + "-MCP-" + mcp + ".yaml";
    assert HasMcp(MCP);
    hide HasMcp, SafePool, FilesReplaceable, TrimYaml;
    FilesReplaceableWhen(map[path := MCP, other := MCP], mcp);
    TrimmedYaml(base);
  }

  lemma TrimmedYaml(name: string)
    ensures TrimYaml(name + ".yaml") == name
  {
    var path := name + ".yaml";
    assert path[|path| - 5..] == ".yaml" && path[..|path| - 5] == name;
  }
}
