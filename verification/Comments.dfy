/**
 * Carrying the comments of a SiteConfig over to the converted file: some go into a header, the others in front of
 * the first line that mentions their field.
 */
module Comments {
  import opened Options
  import opened Text
  import opened Placeholders

  /** Field path to comment. */
  type CommentMap = map<string, string>

  /** SiteConfig field path to path in the converted file. */
  type FieldMapping = map<string, string>

  /** `strings.Contains` */
  predicate Contains(s: string, part: string) {
    part <= s || (s != "" && Contains(s[1..], part))
  }

  /** A comment without surrounding blanks and without its first `#`. */
  function CleanComment(comment: string): string {
    var trimmed := TrimSpace(comment);
    if trimmed != "" && trimmed[0] == '#' then TrimSpace(trimmed[1..]) else trimmed
  }

  /** Whitespace followed by `#`. */
  predicate IsCommentLine(line: string) {
    var n := Indent(line);
    n < |line| && line[n] == '#'
  }

  function Indentation(line: string): (r: string)
    ensures r <= line && Indent(r) == |r| == Indent(line)
  {
    if line == "" || !(line[0] == ' ' || line[0] == '\t') then "" else [line[0]] + Indentation(line[1..])
  }

  function FieldName(path: string): string {
    var parts := Split(path, '.');
    parts[|parts| - 1]
  }

  function CommentFor(comments: CommentMap, path: string): string {
    if path in comments && comments[path] != "" then comments[path]
    else if path + "_line" in comments then comments[path + "_line"]
    else ""
  }

  // ---------- what these mean ----------

  lemma {:induction false} ContainsExactly(s: string, part: string)
    ensures Contains(s, part) <==> exists before, after :: s == before + part + after
  {
    if part <= s {
      assert s == "" + part + s[|part|..];
    } else if s != "" {
      ContainsExactly(s[1..], part);
      if before, after :| s[1..] == before + part + after {
        assert s == ([s[0]] + before) + part + after;
      }
      if before, after :| s == before + part + after {
        LaterPart(s, before, part, after);
      }
    }
  }

  lemma LaterPart(s: string, before: string, part: string, after: string)
    requires s == before + part + after && !(part <= s)
    ensures before != "" && s[1..] == before[1..] + part + after
  {
    assert s[|before|..] == part + after;
  }

  /** The last name of a path with dots. */
  lemma FieldNameExactly(prefix: string, name: string)
    requires '.' !in name
    ensures FieldName(name) == name && FieldName(prefix + "." + name) == name
  {
    SplitPiece(name, "", '.');
    SplitLast(prefix, name, '.');
    assert prefix + "." + name == prefix + ['.'] + name;
  }

  /** Cleaning finds the text between blanks, and behind one `#`. */
  lemma CleanExactly(lead: string, middle: string, text: string, trail: string)
    requires AllTrimmed(lead) && AllTrimmed(middle) && AllTrimmed(trail) && IsTrim(text)
    ensures CleanComment(lead + ("#" + middle + text) + trail) == text
    ensures (text == "" || text[0] != '#') ==> CleanComment(lead + text + trail) == text
  {
    hide TrimSpace, AllTrimmed;
    var marked := "#" + (middle + text);
    assert "#" + middle + text == marked;
    if text == "" {
      HashAlone(lead, middle, trail);
      TrimmedOf(lead, "", trail);
    } else {
      assert marked[|marked| - 1] == text[|text| - 1];
      TrimmedOf(lead, marked, trail);
      TrimmedOf(middle, text, "");
      assert marked[1..] == middle + text + "";
      TrimmedOf(lead, text, trail);
    }
  }

  lemma HashAlone(lead: string, middle: string, trail: string)
    requires AllTrimmed(lead) && AllTrimmed(middle) && AllTrimmed(trail)
    ensures CleanComment(lead + ("#" + middle + "") + trail) == ""
  {
    hide TrimSpace;
    assert lead + ("#" + middle + "") + trail == lead + "#" + (middle + trail);
    TrimmedOf(lead, "#", middle + trail);
    assert "#"[1..] == "" && "" + "" + "" == "";
    TrimmedOf("", "", "");
  }

  /** A comment line put into the output reads as the comment it was made from. */
  lemma TextSurvives(indent: string, comment: string)
    requires forall i :: 0 <= i < |indent| ==> indent[i] in {' ', '\t'}
    ensures CleanComment(indent + "# " + CleanComment(comment)) == CleanComment(comment)
  {
    CleanIsTrim(comment);
    assert AllTrimmed(indent) && AllTrimmed(" ") && AllTrimmed("");
    hide CleanComment, AllTrimmed, IsTrim;
    Regrouped(indent, "#", " ", CleanComment(comment));
    assert "#" + " " == "# ";
    CleanExactly(indent, " ", CleanComment(comment), "");
  }

  lemma Regrouped(a: string, b: string, c: string, d: string)
    ensures a + (b + c) + d == a + (b + c + d) + ""
  {
  }

  lemma CleanIsTrim(comment: string)
    ensures IsTrim(CleanComment(comment))
  {
    TrimIsTrim(comment);
    var trimmed := TrimSpace(comment);
    if trimmed != "" { TrimIsTrim(trimmed[1..]); }
    hide TrimSpace;
  }

  /** The comment of a path is what was collected in front of it or, failing that, on its line. */
  lemma CommentForExactly(comments: CommentMap, path: string, comment: string)
    requires comment != ""
    ensures CommentFor(comments, path) == comment <==>
            || (path in comments && comments[path] == comment)
            || ((path in comments ==> comments[path] == "")
                && path + "_line" in comments && comments[path + "_line"] == comment)
  {
  }

  // ---------- which comments go into the header ----------

  predicate IsMapped(mapping: FieldMapping, path: string) {
    exists p :: p in mapping && (path == p || path == p + "_line" || path == p + "_foot")
  }

  predicate InHeader(comments: CommentMap, mapping: FieldMapping, path: string) {
    path in comments && !Contains(path, "nodes[") && !IsMapped(mapping, path) && CleanComment(comments[path]) != ""
  }

  /** `paths` lists the header's comments, each once. */
  ghost predicate HeaderOrder(comments: CommentMap, mapping: FieldMapping, paths: seq<string>) {
    && (forall p :: p in paths <==> InHeader(comments, mapping, p))
    && (forall i, j :: 0 <= i < j < |paths| ==> paths[i] != paths[j])
  }

  ghost predicate HeaderTexts(comments: CommentMap, paths: seq<string>, header: seq<string>) {
    && |header| == |paths|
    && forall i :: 0 <= i < |paths| ==> paths[i] in comments && header[i] == CleanComment(comments[paths[i]])
  }

  /** The texts of the header's comments, in some order. */
  ghost predicate IsHeader(comments: CommentMap, mapping: FieldMapping, header: seq<string>) {
    exists paths :: HeaderOrder(comments, mapping, paths) && HeaderTexts(comments, paths, header)
  }

  method FindMapped(mapping: FieldMapping, path: string) returns (mapped: bool)
    ensures mapped <==> IsMapped(mapping, path)
  {
    var todo := mapping.Keys;
    while todo != {}
      invariant todo <= mapping.Keys
      invariant forall p :: p in mapping && p !in todo ==> path != p && path != p + "_line" && path != p + "_foot"
    {
      var p :| p in todo;
      if path == p || path == p + "_line" || path == p + "_foot" {
        return true;
      }
      todo := todo - {p};
    }
    mapped := false;
  }

  method CollectHeader(comments: CommentMap, mapping: FieldMapping) returns (header: seq<string>)
    ensures IsHeader(comments, mapping, header)
  {
    hide Contains, IsMapped, CleanComment;
    header := [];
    ghost var paths: seq<string> := [];
    var todo := comments.Keys;
    while todo != {}
      invariant todo <= comments.Keys
      invariant forall p :: p in paths <==> InHeader(comments, mapping, p) && p !in todo
      invariant forall i, j :: 0 <= i < j < |paths| ==> paths[i] != paths[j]
      invariant HeaderTexts(comments, paths, header)
    {
      var path :| path in todo;
      todo := todo - {path};
      if Contains(path, "nodes[") {
        continue;
      }
      var mapped := FindMapped(mapping, path);
      var clean := CleanComment(comments[path]);
      if !mapped && clean != "" {
        assert InHeader(comments, mapping, path);
        header, paths := header + [clean], paths + [path];
      }
    }
  }

  // ---------- the header ----------

  const SEPARATOR := "---"
  const TITLE := "# Comments from original SiteConfig:"

  /** The lines of the header's comments; only the first line of each gets a `#`. */
  function HeaderLines(header: seq<string>): seq<string> {
    if header == [] then [] else HeaderLines(header[..|header| - 1]) + Split("# " + header[|header| - 1], '\n')
  }

  function WithoutSeparator(lines: seq<string>): seq<string> {
    if lines != [] && lines[0] == SEPARATOR then lines[1..] else lines
  }

  function WithHeader(lines: seq<string>, header: seq<string>): seq<string> {
    if header == [] then lines
    else [SEPARATOR, TITLE] + HeaderLines(header) + ["#"] + WithoutSeparator(lines)
  }

  /** Joining lists of lines that were themselves split. */
  function Flatten(pieces: seq<string>): seq<string> {
    if pieces == [] then [] else Split(pieces[0], '\n') + Flatten(pieces[1..])
  }

  lemma {:induction false} SplitAcross(a: string, b: string)
    ensures Split(a + ['\n'] + b, '\n') == Split(a, '\n') + Split(b, '\n')
  {
    var s := a + ['\n'] + b;
    if a == "" {
      assert s[1..] == b;
    } else {
      assert s[1..] == a[1..] + ['\n'] + b;
      SplitAcross(a[1..], b);
    }
  }

  lemma {:induction false} SplitOfJoinFlattens(pieces: seq<string>)
    requires pieces != []
    ensures Split(Join(pieces, '\n'), '\n') == Flatten(pieces)
  {
    if |pieces| == 1 {
      assert Flatten(pieces[1..]) == [];
    } else {
      SplitOfJoinFlattens(pieces[1..]);
      SplitAcross(pieces[0], Join(pieces[1..], '\n'));
    }
  }

  lemma {:induction false} FlattenConcat(a: seq<string>, b: seq<string>)
    ensures Flatten(a + b) == Flatten(a) + Flatten(b)
  {
    if a == [] {
      assert a + b == b;
    } else {
      assert (a + b)[1..] == a[1..] + b;
      FlattenConcat(a[1..], b);
    }
  }

  ghost predicate Lines(lines: seq<string>) {
    forall i :: 0 <= i < |lines| ==> '\n' !in lines[i]
  }

  lemma {:induction false} FlattenLines(lines: seq<string>)
    requires Lines(lines)
    ensures Flatten(lines) == lines
  {
    if lines != [] {
      SplitPiece(lines[0], "", '\n');
      FlattenLines(lines[1..]);
      assert lines == [lines[0]] + lines[1..];
    }
  }

  function Marked(header: seq<string>): (r: seq<string>)
    ensures |r| == |header| && forall i :: 0 <= i < |header| ==> r[i] == "# " + header[i]
  {
    seq(|header|, i requires 0 <= i < |header| => "# " + header[i])
  }

  lemma {:induction false} FlattenMarked(header: seq<string>)
    ensures Flatten(Marked(header)) == HeaderLines(header)
  {
    if header != [] {
      var front, last := header[..|header| - 1], header[|header| - 1];
      FlattenMarked(front);
      assert Marked(header) == Marked(front) + ["# " + last];
      FlattenConcat(Marked(front), ["# " + last]);
      assert Flatten(["# " + last]) == Split("# " + last, '\n') + Flatten([]);
    }
  }

  method InsertHeader(content: string, header: seq<string>) returns (r: string)
    ensures Split(r, '\n') == WithHeader(Split(content, '\n'), header)
  {
    if header == [] {
      return content;
    }
    var lines := Split(content, '\n');
    var result := [SEPARATOR, TITLE];
    for i := 0 to |header|
      invariant result == [SEPARATOR, TITLE] + Marked(header)[..i]
    {
      result := result + ["# " + header[i]];
    }
    result := result + ["#"];
    assert Marked(header)[..|header|] == Marked(header);
    ghost var top := result;
    var start := if lines[0] == SEPARATOR then 1 else 0;
    for i := 0 to |lines|
      invariant result == top + if i < start then [] else lines[start..i]
    {
      if i == 0 && lines[i] == SEPARATOR {
        continue;
      }
      result := result + [lines[i]];
    }
    assert lines[start..|lines|] == WithoutSeparator(lines);
    r := Join(result, '\n');
    SplitOfJoinFlattens(result);
    HeaderFlattens(lines, header, result);
  }

  lemma HeaderFlattens(lines: seq<string>, header: seq<string>, result: seq<string>)
    requires Lines(lines) && header != []
    requires result == [SEPARATOR, TITLE] + Marked(header) + ["#"] + WithoutSeparator(lines)
    ensures Flatten(result) == WithHeader(lines, header)
  {
    hide Flatten, HeaderLines, Marked, Lines;
    var rest := WithoutSeparator(lines);
    var top := [SEPARATOR, TITLE] + Marked(header);
    assert result == top + ["#"] + rest;
    FlattenConcat(top + ["#"], rest);
    FlattenConcat(top, ["#"]);
    FlattenConcat([SEPARATOR, TITLE], Marked(header));
    FlattenMarked(header);
    assert Lines([SEPARATOR, TITLE]) && Lines(["#"]) && Lines(rest) by { FixedLines(lines); }
    FlattenLines([SEPARATOR, TITLE]);
    FlattenLines(["#"]);
    FlattenLines(rest);
  }

  lemma FixedLines(lines: seq<string>)
    requires Lines(lines)
    ensures Lines([SEPARATOR, TITLE]) && Lines(["#"]) && Lines(WithoutSeparator(lines))
  {
  }

  // ---------- comments in front of their fields ----------

  predicate Mentions(line: string, clusterPath: string) {
    Contains(line, FieldName(clusterPath) + ":")
  }

  /** The comment of `path` goes in front of line `i`: the first one that mentions its field. */
  predicate PlacedAt(lines: seq<string>, comments: CommentMap, mapping: FieldMapping, path: string, i: nat)
    requires i < |lines|
  {
    && path in mapping && CommentFor(comments, path) != "" && Mentions(lines[i], mapping[path])
    && forall j :: 0 <= j < i ==> !Mentions(lines[j], mapping[path])
  }

  /** `block` lists the comments in front of line `i`, each once. */
  ghost predicate IsBlock(lines: seq<string>, comments: CommentMap, mapping: FieldMapping, i: nat, block: seq<string>)
    requires i < |lines|
  {
    && (forall p :: p in block <==> PlacedAt(lines, comments, mapping, p, i))
    && (forall a, b :: 0 <= a < b < |block| ==> block[a] != block[b])
  }

  /** The lines one comment becomes; empty ones are dropped. */
  function CommentLines(indent: string, pieces: seq<string>): seq<string> {
    if pieces == [] then []
    else CommentLines(indent, pieces[..|pieces| - 1])
         + if pieces[|pieces| - 1] == "" then [] else [indent + "# " + CleanComment(pieces[|pieces| - 1])]
  }

  function BlockLines(line: string, comments: CommentMap, block: seq<string>): seq<string> {
    if block == [] then []
    else BlockLines(line, comments, block[..|block| - 1])
         + CommentLines(Indentation(line), Split(TrimSpace(CommentFor(comments, block[|block| - 1])), '\n'))
  }

  /** Every line with its block in front. */
  ghost function Weave(lines: seq<string>, comments: CommentMap, blocks: seq<seq<string>>): seq<string>
    requires |blocks| == |lines|
  {
    if lines == [] then []
    else
      var last := |lines| - 1;
      Weave(lines[..last], comments, blocks[..last]) + BlockLines(lines[last], comments, blocks[last]) + [lines[last]]
  }

  lemma NoPieces(indent: string)
    ensures CommentLines(indent, []) == []
  {
  }

  lemma NextPiece(indent: string, pieces: seq<string>, i: nat)
    requires i < |pieces|
    ensures CommentLines(indent, pieces[..i + 1]) ==
            CommentLines(indent, pieces[..i])
            + if pieces[i] == "" then [] else [indent + "# " + CleanComment(pieces[i])]
  {
    hide CleanComment;
    assert pieces[..i + 1][..i] == pieces[..i];
  }

  method InsertBefore(result: seq<string>, indent: string, comment: string) returns (r: seq<string>)
    requires result != []
    ensures var last := |result| - 1;
            r == result[..last] + CommentLines(indent, Split(TrimSpace(comment), '\n')) + [result[last]]
  {
    hide Split, TrimSpace, CleanComment, CommentLines;
    var pieces := Split(TrimSpace(comment), '\n');
    NoPieces(indent);
    assert pieces[..0] == [];
    var insertIndex := |result| - 1;
    var originalLine := result[insertIndex];
    r := result[..insertIndex];
    for i := 0 to |pieces|
      invariant r == result[..insertIndex] + CommentLines(indent, pieces[..i])
    {
      NextPiece(indent, pieces, i);
      if pieces[i] != "" {
        r := r + [indent + "# " + CleanComment(pieces[i])];
      }
    }
    assert pieces[..|pieces|] == pieces;
    r := r + [originalLine];
  }

  /** `used` holds the paths whose comment already stands in front of one of the first `n` lines. */
  ghost predicate UsedUpTo(lines: seq<string>, comments: CommentMap, mapping: FieldMapping, used: set<string>, n: nat)
    requires n <= |lines|
  {
    forall p :: p in used <==>
                && p in mapping && CommentFor(comments, p) != ""
                && exists j :: 0 <= j < n && Mentions(lines[j], mapping[p])
  }

  /** One line of the second pass: look at all fields, in whatever order the map yields them. */
  method InsertAtLine(before: seq<string>, lines: seq<string>, i: nat, comments: CommentMap, mapping: FieldMapping,
                      used: set<string>)
    returns (result: seq<string>, used': set<string>, ghost block: seq<string>)
    requires i < |lines| && UsedUpTo(lines, comments, mapping, used, i)
    ensures IsBlock(lines, comments, mapping, i, block)
    ensures result == before + BlockLines(lines[i], comments, block) + [lines[i]]
    ensures UsedUpTo(lines, comments, mapping, used', i + 1)
  {
    hide Contains, FieldName, CommentFor, Split, TrimSpace, CommentLines, Mentions, BlockLines;
    result, used', block := before + [lines[i]], used, [];
    assert BlockLines(lines[i], comments, []) == [] by { EmptyBlock(lines[i], comments); }
    var todo := mapping.Keys;
    while todo != {}
      invariant todo <= mapping.Keys
      invariant forall p :: p in block <==> p !in todo && PlacedAt(lines, comments, mapping, p, i)
      invariant forall a, b :: 0 <= a < b < |block| ==> block[a] != block[b]
      invariant forall p :: p in used' <==> p in used || p in block
      invariant result == before + BlockLines(lines[i], comments, block) + [lines[i]]
    {
      var path :| path in todo;
      todo := todo - {path};
      if Contains(lines[i], FieldName(mapping[path]) + ":") {
        assert Mentions(lines[i], mapping[path]) by { MentionsIs(lines[i], mapping[path]); }
        var comment := CommentFor(comments, path);
        if comment != "" && path !in used' {
          assert PlacedAt(lines, comments, mapping, path, i);
          used' := used' + {path};
          result := InsertBefore(result, Indentation(lines[i]), comment);
          BlockNext(lines[i], comments, block, path);
          block := block + [path];
        } else {
          assert !PlacedAt(lines, comments, mapping, path, i);
        }
      } else {
        assert !Mentions(lines[i], mapping[path]) by { MentionsIs(lines[i], mapping[path]); }
      }
    }
  }

  lemma MentionsIs(line: string, clusterPath: string)
    ensures Mentions(line, clusterPath) <==> Contains(line, FieldName(clusterPath) + ":")
  {
  }

  lemma EmptyBlock(line: string, comments: CommentMap)
    ensures BlockLines(line, comments, []) == []
  {
  }

  lemma BlockNext(line: string, comments: CommentMap, block: seq<string>, path: string)
    ensures BlockLines(line, comments, block + [path]) ==
            BlockLines(line, comments, block)
            + CommentLines(Indentation(line), Split(TrimSpace(CommentFor(comments, path)), '\n'))
  {
    assert (block + [path])[..|block|] == block;
  }

  ghost predicate Blocks(lines: seq<string>, comments: CommentMap, mapping: FieldMapping, blocks: seq<seq<string>>) {
    |blocks| == |lines| && forall i :: 0 <= i < |lines| ==> IsBlock(lines, comments, mapping, i, blocks[i])
  }

  /** The lines with every comment in front of its field, those of one line in some order. */
  ghost predicate IsWoven(lines: seq<string>, comments: CommentMap, mapping: FieldMapping, result: seq<string>) {
    exists blocks :: Blocks(lines, comments, mapping, blocks) && result == Weave(lines, comments, blocks)
  }

  method InsertFieldComments(lines: seq<string>, comments: CommentMap, mapping: FieldMapping)
    returns (result: seq<string>)
    ensures IsWoven(lines, comments, mapping, result)
  {
    hide IsBlock, BlockLines, UsedUpTo;
    var used: set<string> := {};
    result := [];
    ghost var blocks: seq<seq<string>> := [];
    assert UsedUpTo(lines, comments, mapping, {}, 0) by { NothingUsed(lines, comments, mapping); }
    for i := 0 to |lines|
      invariant |blocks| == i && result == Weave(lines[..i], comments, blocks)
      invariant forall j :: 0 <= j < i ==> IsBlock(lines, comments, mapping, j, blocks[j])
      invariant UsedUpTo(lines, comments, mapping, used, i)
    {
      ghost var block;
      ghost var before := blocks;
      result, used, block := InsertAtLine(result, lines, i, comments, mapping, used);
      blocks := blocks + [block];
      assert lines[..i + 1][..i] == lines[..i] && blocks[..i] == before;
    }
    assert lines[..|lines|] == lines;
    assert Blocks(lines, comments, mapping, blocks);
  }

  lemma NothingUsed(lines: seq<string>, comments: CommentMap, mapping: FieldMapping)
    ensures UsedUpTo(lines, comments, mapping, {}, 0)
  {
  }

  // ---------- both passes ----------

  /** The lines of the output: those of the content, with the header and then with the field comments. */
  ghost predicate IsInserted(lines: seq<string>, comments: CommentMap, mapping: FieldMapping, result: seq<string>) {
    exists header ::
      IsHeader(comments, mapping, header) && IsWoven(WithHeader(lines, header), comments, mapping, result)
  }

  /** Without collected comments the content stays; otherwise it gets the header and then the field comments. */
  method InsertSiteConfigComments(content: string, collected: Option<CommentMap>, mapping: FieldMapping)
    returns (r: string)
    ensures collected.None? ==> r == content
    ensures collected.Some? ==> IsInserted(Split(content, '\n'), collected.value, mapping, Split(r, '\n'))
  {
    hide IsHeader, WithHeader, IsWoven;
    if collected.None? {
      return content;
    }
    var header := CollectHeader(collected.value, mapping);
    var text := InsertHeader(content, header);
    var lines := Split(text, '\n');
    var result := InsertFieldComments(lines, collected.value, mapping);
    r := Join(result, '\n');
    WovenLines(lines, collected.value, mapping, result);
    SplitOfJoin(result, '\n');
  }

  lemma WovenLines(lines: seq<string>, comments: CommentMap, mapping: FieldMapping, result: seq<string>)
    requires lines != [] && Lines(lines) && IsWoven(lines, comments, mapping, result)
    ensures result != [] && Lines(result)
  {
    hide IsBlock, Weave;
    var blocks :| Blocks(lines, comments, mapping, blocks) && result == Weave(lines, comments, blocks);
    WeaveLines(lines, comments, blocks);
    WovenSome(lines, comments, blocks);
  }

  lemma WovenSome(lines: seq<string>, comments: CommentMap, blocks: seq<seq<string>>)
    requires |blocks| == |lines| > 0
    ensures Weave(lines, comments, blocks) != []
  {
  }

  lemma {:induction false} TrimKeeps(s: string, c: char)
    requires c !in s
    ensures c !in TrimSpace(s)
  {
    var left := TrimLeft(s);
    assert left == s[|s| - |left|..];
    assert TrimRight(left) == left[..|TrimRight(left)|];
  }

  lemma CleanKeeps(s: string, c: char)
    requires c !in s
    ensures c !in CleanComment(s)
  {
    hide TrimSpace;
    TrimKeeps(s, c);
    var trimmed := TrimSpace(s);
    if trimmed != "" { TrimKeeps(trimmed[1..], c); }
  }

  lemma {:induction false} CommentLinesGood(indent: string, pieces: seq<string>)
    requires Lines(pieces) && '\n' !in indent && Indent(indent) == |indent|
    ensures Lines(CommentLines(indent, pieces)) && AllComments(CommentLines(indent, pieces))
  {
    hide CleanComment;
    if pieces != [] {
      var last := pieces[|pieces| - 1];
      CommentLinesGood(indent, pieces[..|pieces| - 1]);
      CleanKeeps(last, '\n');
      IndentedComment(indent, CleanComment(last));
    }
  }

  lemma {:induction false} IndentedComment(indent: string, text: string)
    requires Indent(indent) == |indent|
    ensures IsCommentLine(indent + "# " + text)
  {
    var line := indent + "# " + text;
    if indent != "" {
      assert line[1..] == indent[1..] + "# " + text;
      IndentedComment(indent[1..], text);
    }
  }

  ghost predicate AllComments(lines: seq<string>) {
    forall i :: 0 <= i < |lines| ==> IsCommentLine(lines[i])
  }

  /** A block consists of comment lines, indented like the line it precedes. */
  lemma {:induction false} BlockGood(line: string, comments: CommentMap, block: seq<string>)
    requires '\n' !in line
    ensures Lines(BlockLines(line, comments, block)) && AllComments(BlockLines(line, comments, block))
  {
    hide CommentLines, TrimSpace, Indentation, CommentFor, IsCommentLine;
    if block != [] {
      BlockGood(line, comments, block[..|block| - 1]);
      CommentLinesGood(Indentation(line), Split(TrimSpace(CommentFor(comments, block[|block| - 1])), '\n'));
    }
  }

  lemma {:induction false} WeaveLines(lines: seq<string>, comments: CommentMap, blocks: seq<seq<string>>)
    requires Lines(lines) && |blocks| == |lines|
    ensures Lines(Weave(lines, comments, blocks))
  {
    hide BlockLines;
    if lines != [] {
      var last := |lines| - 1;
      WeaveLines(lines[..last], comments, blocks[..last]);
      BlockGood(lines[last], comments, blocks[last]);
    }
  }

  // ---------- erasing what was inserted ----------

  /** `after` is `before` with comment lines put in between. */
  ghost predicate Commented(after: seq<string>, before: seq<string>)
    decreases |after|
  {
    if after == [] then before == []
    else
      var last := |after| - 1;
      || (before != [] && after[last] == before[|before| - 1] && Commented(after[..last], before[..|before| - 1]))
      || (IsCommentLine(after[last]) && Commented(after[..last], before))
  }

  /** The lines that are no comments. */
  ghost function Code(lines: seq<string>): seq<string> {
    if lines == [] then []
    else Code(lines[..|lines| - 1]) + if IsCommentLine(lines[|lines| - 1]) then [] else [lines[|lines| - 1]]
  }

  lemma {:induction false} CommentedSame(lines: seq<string>)
    ensures Commented(lines, lines)
  {
    if lines != [] { CommentedSame(lines[..|lines| - 1]); }
  }

  lemma {:induction false} CommentedMore(after: seq<string>, before: seq<string>, block: seq<string>)
    requires Commented(after, before) && AllComments(block)
    ensures Commented(after + block, before)
  {
    if block == [] {
      assert after + block == after;
    } else {
      assert (after + block)[..|after + block| - 1] == after + block[..|block| - 1];
      CommentedMore(after, before, block[..|block| - 1]);
    }
  }

  lemma CommentedLine(after: seq<string>, before: seq<string>, line: string)
    requires Commented(after, before)
    ensures Commented(after + [line], before + [line])
  {
    assert (after + [line])[..|after|] == after && (before + [line])[..|before|] == before;
  }

  lemma {:induction false} CommentedRest(after: seq<string>, before: seq<string>, rest: seq<string>)
    requires Commented(after, before)
    ensures Commented(after + rest, before + rest)
  {
    if rest == [] {
      assert after + rest == after && before + rest == before;
    } else {
      var front, last := rest[..|rest| - 1], rest[|rest| - 1];
      CommentedRest(after, before, front);
      CommentedLine(after + front, before + front, last);
      assert after + rest == after + front + [last] && before + rest == before + front + [last];
    }
  }

  lemma {:induction false} CommentedTwice(c: seq<string>, b: seq<string>, a: seq<string>)
    requires Commented(c, b) && Commented(b, a)
    ensures Commented(c, a)
    decreases |c|
  {
    if c != [] {
      var last := |c| - 1;
      if b != [] && c[last] == b[|b| - 1] && Commented(c[..last], b[..|b| - 1]) {
        if a != [] && b[|b| - 1] == a[|a| - 1] && Commented(b[..|b| - 1], a[..|a| - 1]) {
          CommentedTwice(c[..last], b[..|b| - 1], a[..|a| - 1]);
        } else {
          CommentedTwice(c[..last], b[..|b| - 1], a);
        }
      } else {
        CommentedTwice(c[..last], b, a);
      }
    }
  }

  lemma {:induction false} SameCode(after: seq<string>, before: seq<string>)
    requires Commented(after, before)
    ensures Code(after) == Code(before)
    decreases |after|
  {
    if after != [] {
      var last := |after| - 1;
      if before != [] && after[last] == before[|before| - 1] && Commented(after[..last], before[..|before| - 1]) {
        SameCode(after[..last], before[..|before| - 1]);
      } else {
        SameCode(after[..last], before);
      }
    }
  }

  lemma {:induction false} CodeConcat(a: seq<string>, b: seq<string>)
    ensures Code(a + b) == Code(a) + Code(b)
  {
    if b == [] {
      assert a + b == a;
    } else {
      assert (a + b)[..|a + b| - 1] == a + b[..|b| - 1];
      CodeConcat(a, b[..|b| - 1]);
    }
  }

  lemma {:induction false} NoCode(lines: seq<string>)
    ensures Code(lines) == [] <==> AllComments(lines)
  {
    if lines != [] {
      NoCode(lines[..|lines| - 1]);
      assert AllComments(lines) ==> AllComments(lines[..|lines| - 1]);
    }
  }

  /** Field comments can always be erased. */
  lemma {:induction false} FieldCommentsErasable(lines: seq<string>, comments: CommentMap, blocks: seq<seq<string>>)
    requires Lines(lines) && |blocks| == |lines|
    ensures Commented(Weave(lines, comments, blocks), lines)
  {
    hide BlockLines, Commented;
    if lines == [] {
      CommentedSame(lines);
    } else {
      var last := |lines| - 1;
      FieldCommentsErasable(lines[..last], comments, blocks[..last]);
      var front := Weave(lines[..last], comments, blocks[..last]);
      var block := BlockLines(lines[last], comments, blocks[last]);
      BlockGood(lines[last], comments, blocks[last]);
      CommentedMore(front, lines[..last], block);
      CommentedLine(front + block, lines[..last], lines[last]);
      assert lines[..last] + [lines[last]] == lines;
    }
  }

  // ---------- when the header can be erased ----------

  /** All lines of a header comment but the first, which gets a `#`, are comment lines by themselves. */
  ghost predicate Continues(comment: string) {
    var pieces := Split(comment, '\n');
    forall i :: 1 <= i < |pieces| ==> IsCommentLine(pieces[i])
  }

  lemma MarkedPieces(comment: string)
    ensures Split("# " + comment, '\n') == ["# " + Split(comment, '\n')[0]] + Split(comment, '\n')[1..]
  {
    assert ("# " + comment)[1..] == " " + comment && (" " + comment)[1..] == comment;
    var pieces := Split(comment, '\n');
    assert Split(" " + comment, '\n') == [[' '] + pieces[0]] + pieces[1..];
    assert "# " + pieces[0] == ['#'] + ([' '] + pieces[0]);
  }

  lemma MarkedComments(comment: string)
    ensures AllComments(Split("# " + comment, '\n')) <==> Continues(comment)
  {
    hide Split;
    MarkedPieces(comment);
    var pieces := Split(comment, '\n');
    var marked := ["# " + pieces[0]] + pieces[1..];
    assert Indent(marked[0]) == 0 && marked[0][0] == '#';
    assert forall i :: 1 <= i < |pieces| ==> marked[i] == pieces[i];
  }

  lemma {:induction false} HeaderComments(header: seq<string>)
    ensures AllComments(HeaderLines(header)) <==> forall i :: 0 <= i < |header| ==> Continues(header[i])
  {
    hide Continues, IsCommentLine;
    if header != [] {
      var front, last := header[..|header| - 1], header[|header| - 1];
      HeaderComments(front);
      MarkedComments(last);
      var a, b := HeaderLines(front), Split("# " + last, '\n');
      assert HeaderLines(header) == a + b;
      assert AllComments(a + b) <==> AllComments(a) && AllComments(b) by { AllCommentsConcat(a, b); }
    }
  }

  lemma AllCommentsConcat(a: seq<string>, b: seq<string>)
    ensures AllComments(a + b) <==> AllComments(a) && AllComments(b)
  {
    hide IsCommentLine;
    assert forall i :: 0 <= i < |b| ==> (a + b)[|a| + i] == b[i];
    assert forall i :: 0 <= i < |a| ==> (a + b)[i] == a[i];
  }

  predicate HasSeparator(lines: seq<string>) {
    lines != [] && lines[0] == SEPARATOR
  }

  ghost predicate ContinuesAt(comments: CommentMap, path: string) {
    path in comments && Continues(CleanComment(comments[path]))
  }

  /** No header comment, or a separator to start with and header comments that are comments on every line. */
  ghost predicate HeaderErasable(lines: seq<string>, comments: CommentMap, mapping: FieldMapping) {
    || (forall p :: !InHeader(comments, mapping, p))
    || (HasSeparator(lines) && forall p :: InHeader(comments, mapping, p) ==> ContinuesAt(comments, p))
  }

  lemma HeaderCode(lines: seq<string>, header: seq<string>)
    requires header != []
    ensures Code(WithHeader(lines, header)) == [SEPARATOR] + Code(HeaderLines(header)) + Code(WithoutSeparator(lines))
  {
    hide HeaderLines, Code, WithoutSeparator;
    CodeConcat([SEPARATOR, TITLE] + HeaderLines(header) + ["#"], WithoutSeparator(lines));
    CodeConcat([SEPARATOR, TITLE] + HeaderLines(header), ["#"]);
    CodeConcat([SEPARATOR, TITLE], HeaderLines(header));
    FixedCode();
  }

  lemma CodeOfOne(line: string)
    ensures Code([line]) == if IsCommentLine(line) then [] else [line]
  {
    assert [line][..0] == [] && Code([]) == [];
  }

  lemma StartsComment(line: string)
    requires line != "" && line[0] == '#'
    ensures IsCommentLine(line)
  {
    assert Indent(line) == 0;
  }

  lemma FixedCode()
    ensures Code([SEPARATOR, TITLE]) == [SEPARATOR] && Code(["#"]) == [] && Code([SEPARATOR]) == [SEPARATOR]
    ensures IsCommentLine(TITLE) && IsCommentLine("#") && !IsCommentLine(SEPARATOR)
  {
    assert Indent(SEPARATOR) == 0 && SEPARATOR[0] == '-';
    StartsComment(TITLE);
    StartsComment("#");
    hide Code, IsCommentLine;
    CodeOfOne(SEPARATOR);
    CodeOfOne(TITLE);
    CodeOfOne("#");
    CodeConcat([SEPARATOR], [TITLE]);
    assert [SEPARATOR] + [TITLE] == [SEPARATOR, TITLE];
  }

  lemma HeaderCodeExactly(lines: seq<string>, header: seq<string>)
    requires header != []
    ensures Code(WithHeader(lines, header)) == Code(lines) <==> HasSeparator(lines) && AllComments(HeaderLines(header))
  {
    hide HeaderLines, Code, WithHeader;
    var rest := WithoutSeparator(lines);
    HeaderCode(lines, header);
    FixedCode();
    if HasSeparator(lines) {
      assert lines == [SEPARATOR] + rest;
      CodeConcat([SEPARATOR], rest);
      NoCode(HeaderLines(header));
      assert [SEPARATOR] + [] + Code(rest) == [SEPARATOR] + Code(rest);
      assert |[SEPARATOR] + Code(HeaderLines(header)) + Code(rest)| == 1 + |Code(HeaderLines(header))| + |Code(rest)|;
    } else {
      assert |[SEPARATOR] + Code(HeaderLines(header)) + Code(lines)| > |Code(lines)|;
    }
  }

  lemma Regroup(separator: string, title: string, comments: seq<string>, end: string, rest: seq<string>)
    ensures [separator, title] + comments + [end] + rest == [separator] + ([title] + comments + [end]) + rest
  {
  }

  lemma HeaderCommented(lines: seq<string>, header: seq<string>)
    requires header != [] && HasSeparator(lines) && AllComments(HeaderLines(header))
    ensures Commented(WithHeader(lines, header), lines)
  {
    hide HeaderLines, Commented, IsCommentLine, AllComments;
    var rest, added := lines[1..], [TITLE] + HeaderLines(header) + ["#"];
    assert AllComments([TITLE]) && AllComments(["#"]) by { FixedComments(); }
    AllCommentsConcat([TITLE] + HeaderLines(header), ["#"]);
    AllCommentsConcat([TITLE], HeaderLines(header));
    CommentedSame([SEPARATOR]);
    CommentedMore([SEPARATOR], [SEPARATOR], added);
    CommentedRest([SEPARATOR] + added, [SEPARATOR], rest);
    Regroup(SEPARATOR, TITLE, HeaderLines(header), "#", rest);
    assert lines == [SEPARATOR] + rest;
  }

  lemma FixedComments()
    ensures AllComments([TITLE]) && AllComments(["#"])
  {
    FixedCode();
  }

  lemma HeaderConditions(lines: seq<string>, comments: CommentMap, mapping: FieldMapping, header: seq<string>)
    requires IsHeader(comments, mapping, header)
    ensures header == [] ==> HeaderErasable(lines, comments, mapping)
    ensures header != [] ==>
              (HeaderErasable(lines, comments, mapping) <==> HasSeparator(lines) && AllComments(HeaderLines(header)))
  {
    hide InHeader, Continues, CleanComment, HeaderLines, AllComments;
    var paths :| HeaderOrder(comments, mapping, paths) && HeaderTexts(comments, paths, header);
    HeaderComments(header);
    if header != [] {
      assert InHeader(comments, mapping, paths[0]);
      if forall i :: 0 <= i < |header| ==> Continues(header[i]) {
        forall p | InHeader(comments, mapping, p) ensures ContinuesAt(comments, p) {
          assert p in paths;
        }
      }
      if forall p :: InHeader(comments, mapping, p) ==> ContinuesAt(comments, p) {
        forall i | 0 <= i < |header| ensures Continues(header[i]) {
          assert paths[i] in paths;
        }
      }
    }
  }

  lemma {:induction false} HeaderLinesSplit(header: seq<string>)
    ensures Lines(HeaderLines(header))
  {
    if header != [] { HeaderLinesSplit(header[..|header| - 1]); }
  }

  lemma WithHeaderLines(lines: seq<string>, header: seq<string>)
    requires Lines(lines)
    ensures Lines(WithHeader(lines, header))
  {
    HeaderLinesSplit(header);
    hide HeaderLines;
    FixedLines(lines);
  }

  /** The comments in front of fields can always be erased again. */
  lemma WovenErasable(lines: seq<string>, comments: CommentMap, mapping: FieldMapping, result: seq<string>)
    requires Lines(lines) && IsWoven(lines, comments, mapping, result)
    ensures Commented(result, lines)
  {
    hide IsBlock, Weave, Commented;
    var blocks :| Blocks(lines, comments, mapping, blocks) && result == Weave(lines, comments, blocks);
    FieldCommentsErasable(lines, comments, blocks);
  }

  /**
   * Whatever the order of the maps, erasing comment lines from the output gives the content back exactly if there is
   * no header, or every line of the header is a comment and the content starts with a separator.
   */
  lemma ErasableExactly(lines: seq<string>, comments: CommentMap, mapping: FieldMapping, result: seq<string>)
    requires Lines(lines)
    ensures IsInserted(lines, comments, mapping, result) ==>
            (Commented(result, lines) <==> HeaderErasable(lines, comments, mapping))
  {
    hide Commented, IsWoven, HeaderErasable, AllComments, IsHeader, HeaderLines, WithHeader, Lines;
    if IsInserted(lines, comments, mapping, result) {
      var header :|
        IsHeader(comments, mapping, header) && IsWoven(WithHeader(lines, header), comments, mapping, result);
      WithHeaderLines(lines, header);
      WovenErasable(WithHeader(lines, header), comments, mapping, result);
      HeaderConditions(lines, comments, mapping, header);
      if header == [] {
        assert WithHeader(lines, header) == lines by { NoHeader(lines); }
      } else {
        HeaderCodeExactly(lines, header);
        SameCode(result, WithHeader(lines, header));
        if Commented(result, lines) { SameCode(result, lines); }
        if HeaderErasable(lines, comments, mapping) {
          HeaderCommented(lines, header);
          CommentedTwice(result, WithHeader(lines, header), lines);
        }
      }
    }
  }

  lemma NoHeader(lines: seq<string>)
    ensures WithHeader(lines, []) == lines
  {
  }

  lemma TrimNothing(s: string)
    requires s != "" && !IsTrimmed(s[0]) && !IsTrimmed(s[|s| - 1])
    ensures TrimSpace(s) == s
  {
  }

  lemma TrimBlank(s: string)
    requires s != "" && !IsTrimmed(s[0]) && !IsTrimmed(s[|s| - 1])
    ensures TrimSpace(" " + s) == s
  {
    assert (" " + s)[1..] == s;
    TrimNothing(s);
  }

  /**
   * A comment on the whole document with a blank line inside leaves that line blank in the header, whatever the
   * content and the table of fields, so that the output is no longer the content with comments put in between.
   */
  lemma BlankLineStays(lines: seq<string>, mapping: FieldMapping, result: seq<string>)
    requires Lines(lines) && !IsMapped(mapping, "")
    requires IsInserted(lines, map["" := "# a\n\n# b"], mapping, result)
    ensures !Commented(result, lines)
  {
    hide TrimSpace, Split, Continues, IsMapped, IsInserted, Commented, Lines;
    var comments: CommentMap, comment, clean := map["" := "# a\n\n# b"], "# a\n\n# b", "a\n\n# b";
    TrimNothing(comment);
    assert comment[1..] == " " + clean;
    TrimBlank(clean);
    assert CleanComment(comment) == clean;
    SplitPiece("a", "\n# b", '\n');
    SplitPiece("", "# b", '\n');
    assert "a" + ['\n'] + "\n# b" == clean && "" + ['\n'] + "# b" == "\n# b";
    assert !Continues(clean) by { NotContinued(clean); }
    assert InHeader(comments, mapping, "");
    assert !ContinuesAt(comments, "");
    assert !HeaderErasable(lines, comments, mapping);
    ErasableExactly(lines, comments, mapping, result);
  }

  lemma NotContinued(comment: string)
    requires |Split(comment, '\n')| > 1 && Split(comment, '\n')[1] == ""
    ensures !Continues(comment)
  {
    hide Split;
  }

  // ---------- each comment once ----------

  /**
   * A field's comment is placed exactly if there is one and some line mentions the field; and then at one line only.
   */
  lemma PlacedOnce(lines: seq<string>, comments: CommentMap, mapping: FieldMapping, blocks: seq<seq<string>>,
                   path: string)
    requires Blocks(lines, comments, mapping, blocks)
    ensures (exists i :: 0 <= i < |blocks| && path in blocks[i]) <==>
            && path in mapping && CommentFor(comments, path) != ""
            && exists i :: 0 <= i < |lines| && Mentions(lines[i], mapping[path])
    ensures forall i, j :: 0 <= i < |blocks| && 0 <= j < |blocks| && path in blocks[i] && path in blocks[j] ==> i == j
  {
    hide Mentions, CommentFor;
    assert forall i :: 0 <= i < |blocks| ==> (path in blocks[i] <==> PlacedAt(lines, comments, mapping, path, i));
    if path in mapping && CommentFor(comments, path) != "" {
      if i :| 0 <= i < |lines| && Mentions(lines[i], mapping[path]) {
        var first := FirstMention(lines, mapping[path], i);
        assert PlacedAt(lines, comments, mapping, path, first);
      }
    }
  }

  /** What is put in front of a field is not in the header as well. */
  lemma PlacedNotInHeader(lines: seq<string>, comments: CommentMap, mapping: FieldMapping, path: string, i: nat)
    requires i < |lines| && PlacedAt(lines, comments, mapping, path, i)
    ensures !InHeader(comments, mapping, path) && !InHeader(comments, mapping, path + "_line")
  {
    assert path in mapping && (path + "_line" == path + "_line");
  }

  /** The header takes all comments that belong to no field in the table and to no node, if there is text in them. */
  lemma InHeaderExactly(comments: CommentMap, mapping: FieldMapping, path: string)
    ensures InHeader(comments, mapping, path) <==>
            && path in comments && CleanComment(comments[path]) != ""
            && (forall before, after :: path != before + "nodes[" + after)
            && forall p :: p in mapping ==> path !in {p, p + "_line", p + "_foot"}
  {
    ContainsExactly(path, "nodes[");
  }

  lemma {:induction false} FirstMention(lines: seq<string>, clusterPath: string, i: nat) returns (first: nat)
    requires i < |lines| && Mentions(lines[i], clusterPath)
    ensures first < |lines| && Mentions(lines[first], clusterPath)
    ensures forall j :: 0 <= j < first ==> !Mentions(lines[j], clusterPath)
  {
    hide Mentions;
    first := i;
    if j :| 0 <= j < i && Mentions(lines[j], clusterPath) {
      first := FirstMention(lines, clusterPath, j);
    }
  }
}
