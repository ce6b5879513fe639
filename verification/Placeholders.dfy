/**
 * Commenting out YAML lines that hold `$variable` placeholders, and parent keys left without children.
 * A line is a placeholder if it matches one of four regular expressions; for each of them there is a predicate that
 * scans the line and a lemma that equates it with the decomposition the expression asks for. The rewriter goes
 * through the lines once and reaches back to lines it has already handled; what it computes is given by counting
 * the marks each line gets.
 */
module Placeholders {
  import opened Options
  import opened Text

  // ---------- character classes ----------

  /** `\\s` of the regular expressions. */
  predicate IsSpace(c: char) {
    c == ' ' || c == '\t' || c == '\n' || c == '\r' || c == '\U{0C}'
  }

  /** What `strings.TrimSpace` removes. */
  predicate IsTrimmed(c: char) {
    || IsSpace(c) || c == '\U{0B}' || c == '\U{85}' || c == '\U{A0}' || c == '\U{1680}'
    || '\U{2000}' <= c <= '\U{200A}' || c == '\U{2028}' || c == '\U{2029}' || c == '\U{202F}'
    || c == '\U{205F}' || c == '\U{3000}'
  }

  function SpaceLength(s: string): (n: nat)
    ensures n <= |s| && (n < |s| ==> !IsSpace(s[n])) && forall i :: 0 <= i < n ==> IsSpace(s[i])
  {
    if s == "" || !IsSpace(s[0]) then 0 else 1 + SpaceLength(s[1..])
  }

  function TokenLength(s: string): (n: nat)
    ensures n <= |s| && (n < |s| ==> IsSpace(s[n])) && forall i :: 0 <= i < n ==> !IsSpace(s[i])
  {
    if s == "" || IsSpace(s[0]) then 0 else 1 + TokenLength(s[1..])
  }

  // ---------- the four patterns ----------

  /** A token ending in a colon, one blank, and a dollar sign. */
  predicate KeyThenDollar(s: string) {
    var n := TokenLength(s);
    n >= 2 && s[n - 1] == ':' && n + 1 < |s| && s[n] == ' ' && s[n + 1] == '$'
  }

  /** `^(\\s*)\\S+: \\$\\S*` */
  predicate IsScalar(line: string) {
    KeyThenDollar(line[SpaceLength(line)..])
  }

  /** `^(\\s*)- \\$\\S*` */
  predicate IsListItem(line: string) {
    "- $" <= line[SpaceLength(line)..]
  }

  /** `^(\\s*)- \\S+: \\$\\S*` */
  predicate IsListItemScalar(line: string) {
    var rest := line[SpaceLength(line)..];
    "- " <= rest && KeyThenDollar(rest[2..])
  }

  /** `^\\s+\\$\\S+\\s*$` */
  predicate IsBare(line: string) {
    var n := SpaceLength(line);
    var rest := line[n..];
    var t := TokenLength(rest);
    n >= 1 && t >= 2 && rest[0] == '$' && SpaceLength(rest[t..]) == |rest[t..]|
  }

  // ---------- the patterns as regular expressions ----------

  ghost predicate Spaces(s: string) {
    forall i :: 0 <= i < |s| ==> IsSpace(s[i])
  }

  ghost predicate NonSpaces(s: string) {
    forall i :: 0 <= i < |s| ==> !IsSpace(s[i])
  }

  lemma {:induction false} SpaceLengthOf(lead: string, rest: string)
    requires Spaces(lead) && rest != "" && !IsSpace(rest[0])
    ensures SpaceLength(lead + rest) == |lead| && (lead + rest)[|lead|..] == rest
  {
    if lead != "" {
      assert (lead + rest)[1..] == lead[1..] + rest;
      SpaceLengthOf(lead[1..], rest);
    } else {
      assert lead + rest == rest;
    }
  }

  lemma {:induction false} TokenLengthOf(token: string, rest: string)
    requires NonSpaces(token) && (rest == "" || IsSpace(rest[0]))
    ensures TokenLength(token + rest) == |token|
  {
    if token != "" {
      assert (token + rest)[1..] == token[1..] + rest;
      TokenLengthOf(token[1..], rest);
    } else {
      assert token + rest == rest;
    }
  }

  lemma KeyThenDollarRegex(s: string)
    ensures KeyThenDollar(s) <==>
            exists token, rest :: token != "" && NonSpaces(token) && s == token + ": $" + rest
  {
    if KeyThenDollar(s) {
      var n := TokenLength(s);
      assert s == s[..n - 1] + ": $" + s[n + 2..];
      assert NonSpaces(s[..n - 1]);
    }
    if token, rest :| token != "" && NonSpaces(token) && s == token + ": $" + rest {
      TokenLengthOf(token + ":", " $" + rest);
      assert s == (token + ":") + (" $" + rest);
    }
  }

  lemma ScalarRegex(line: string)
    ensures IsScalar(line) <==>
            exists lead, token, rest ::
              Spaces(lead) && token != "" && NonSpaces(token) && line == lead + (token + ": $" + rest)
  {
    if IsScalar(line) {
      var lead, token, rest := ScalarParts(line);
    }
    if lead, token, rest :| Spaces(lead) && token != "" && NonSpaces(token) && line == lead + (token + ": $" + rest) {
      PartsScalar(line, lead, token, rest);
    }
  }

  lemma ScalarParts(line: string) returns (lead: string, token: string, rest: string)
    requires IsScalar(line)
    ensures Spaces(lead) && token != "" && NonSpaces(token) && line == lead + (token + ": $" + rest)
  {
    var n := SpaceLength(line);
    lead := line[..n];
    token, rest := KeyThenDollarParts(line[n..]);
    assert line == line[..n] + line[n..];
  }

  lemma PartsScalar(line: string, lead: string, token: string, rest: string)
    requires Spaces(lead) && token != "" && NonSpaces(token) && line == lead + (token + ": $" + rest)
    ensures IsScalar(line)
  {
    hide KeyThenDollar;
    KeyThenDollarRegex(token + ": $" + rest);
    SpaceLengthOf(lead, token + ": $" + rest);
  }

  lemma ListItemRegex(line: string)
    ensures IsListItem(line) <==> exists lead, rest :: Spaces(lead) && line == lead + ("- $" + rest)
  {
    if IsListItem(line) {
      var n := SpaceLength(line);
      assert line == line[..n] + ("- $" + line[n + 3..]) && Spaces(line[..n]);
    }
    if lead, rest :| Spaces(lead) && line == lead + ("- $" + rest) {
      SpaceLengthOf(lead, "- $" + rest);
    }
  }

  lemma ListItemScalarRegex(line: string)
    ensures IsListItemScalar(line) <==>
            exists lead, token, rest ::
              Spaces(lead) && token != "" && NonSpaces(token) && line == lead + ("- " + (token + ": $" + rest))
  {
    if IsListItemScalar(line) {
      var lead, token, rest := ListItemScalarParts(line);
    }
    if lead, token, rest :|
        Spaces(lead) && token != "" && NonSpaces(token) && line == lead + ("- " + (token + ": $" + rest)) {
      PartsListItemScalar(line, lead, token, rest);
    }
  }

  lemma ListItemScalarParts(line: string) returns (lead: string, token: string, rest: string)
    requires IsListItemScalar(line)
    ensures Spaces(lead) && token != "" && NonSpaces(token) && line == lead + ("- " + (token + ": $" + rest))
  {
    var n := SpaceLength(line);
    lead := line[..n];
    token, rest := KeyThenDollarParts(line[n..][2..]);
    SplitAt(line, n, "- ");
  }

  lemma KeyThenDollarParts(s: string) returns (token: string, rest: string)
    requires KeyThenDollar(s)
    ensures token != "" && NonSpaces(token) && s == token + ": $" + rest
  {
    KeyThenDollarRegex(s);
    token, rest :| token != "" && NonSpaces(token) && s == token + ": $" + rest;
  }

  lemma SplitAt(s: string, n: nat, marker: string)
    requires n <= |s| && marker <= s[n..]
    ensures s == s[..n] + (marker + s[n..][|marker|..])
  {
  }

  lemma PartsListItemScalar(line: string, lead: string, token: string, rest: string)
    requires Spaces(lead) && token != "" && NonSpaces(token) && line == lead + ("- " + (token + ": $" + rest))
    ensures IsListItemScalar(line)
  {
    hide KeyThenDollar;
    SpaceLengthOf(lead, "- " + (token + ": $" + rest));
    assert ("- " + (token + ": $" + rest))[2..] == token + ": $" + rest;
    KeyThenDollarRegex(token + ": $" + rest);
  }

  lemma BareRegex(line: string)
    ensures IsBare(line) <==>
            exists lead, token, trail ::
              && lead != "" && Spaces(lead) && token != "" && NonSpaces(token) && Spaces(trail)
              && line == lead + ("$" + token + trail)
  {
    if IsBare(line) {
      var lead, token, trail := BareParts(line);
    }
    if lead, token, trail :| && lead != "" && Spaces(lead) && token != "" && NonSpaces(token) && Spaces(trail)
                             && line == lead + ("$" + token + trail) {
      PartsBare(line, lead, token, trail);
    }
  }

  lemma BareParts(line: string) returns (lead: string, token: string, trail: string)
    requires IsBare(line)
    ensures lead != "" && Spaces(lead) && token != "" && NonSpaces(token) && Spaces(trail)
    ensures line == lead + ("$" + token + trail)
  {
    var n := SpaceLength(line);
    var rest := line[n..];
    var t := TokenLength(rest);
    lead, token, trail := line[..n], rest[1..t], rest[t..];
    assert line == line[..n] + ("$" + rest[1..t] + rest[t..]);
  }

  lemma PartsBare(line: string, lead: string, token: string, trail: string)
    requires lead != "" && Spaces(lead) && token != "" && NonSpaces(token) && Spaces(trail)
    requires line == lead + ("$" + token + trail)
    ensures IsBare(line)
  {
    SpaceLengthOf(lead, "$" + token + trail);
    TokenLengthOf("$" + token, trail);
    assert ("$" + token + trail)[|token| + 1..] == trail;
  }

  // ---------- trimming ----------

  ghost predicate AllTrimmed(s: string) {
    forall i :: 0 <= i < |s| ==> IsTrimmed(s[i])
  }

  /** Neither end would be trimmed. */
  predicate IsTrim(s: string) {
    s != "" ==> !IsTrimmed(s[0]) && !IsTrimmed(s[|s| - 1])
  }

  lemma TrimIsTrim(s: string)
    ensures IsTrim(TrimSpace(s))
  {
    var left := TrimLeft(s);
    if left != "" { RightKeepsFirst(left); }
  }

  /** Trimming finds what is between the blanks. */
  lemma TrimmedOf(lead: string, text: string, trail: string)
    requires AllTrimmed(lead) && AllTrimmed(trail) && IsTrim(text)
    ensures TrimSpace(lead + text + trail) == text
  {
    var s := lead + text + trail;
    if text == "" {
      TrimLeftAll(s);
    } else {
      assert s[|lead|] == text[0] && s[|lead|..] == text + trail;
      TrimLeftOf(s, |lead|);
      TrimRightOf(text, trail);
    }
  }

  lemma {:induction false} TrimLeftAll(s: string)
    requires AllTrimmed(s)
    ensures TrimLeft(s) == ""
  {
    if s != "" { TrimLeftAll(s[1..]); }
  }

  lemma {:induction false} TrimRightOf(text: string, trail: string)
    requires text != "" && !IsTrimmed(text[|text| - 1]) && AllTrimmed(trail)
    ensures TrimRight(text + trail) == text
    decreases |trail|
  {
    if trail == "" {
      assert text + trail == text;
    } else {
      var s := text + trail;
      assert s[..|s| - 1] == text + trail[..|trail| - 1] && s[|s| - 1] == trail[|trail| - 1];
      TrimRightOf(text, trail[..|trail| - 1]);
    }
  }

  // ---------- lines ----------

  function TrimLeft(s: string): (r: string)
    ensures |r| <= |s| && r == s[|s| - |r|..] && (r != "" ==> !IsTrimmed(r[0]))
    ensures forall i :: 0 <= i < |s| - |r| ==> IsTrimmed(s[i])
  {
    if s == "" || !IsTrimmed(s[0]) then s else TrimLeft(s[1..])
  }

  function TrimRight(s: string): (r: string)
    ensures |r| <= |s| && r == s[..|r|] && (r != "" ==> !IsTrimmed(r[|r| - 1]))
  {
    if s == "" || !IsTrimmed(s[|s| - 1]) then s else TrimRight(s[..|s| - 1])
  }

  function TrimSpace(s: string): string {
    TrimRight(TrimLeft(s))
  }

  /** Blank, or a comment: skipped by both scans. */
  predicate IsSkipped(line: string) {
    var trimmed := TrimSpace(line);
    trimmed == "" || trimmed[0] == '#'
  }

  predicate EndsWithColon(line: string) {
    var trimmed := TrimSpace(line);
    trimmed != "" && trimmed[|trimmed| - 1] == ':'
  }

  /** Leading blanks and tabs. */
  function Indent(line: string): nat {
    if line == "" || !(line[0] == ' ' || line[0] == '\t') then 0 else 1 + Indent(line[1..])
  }

  /** Blank, or a hash after blanks. */
  lemma SkippedExactly(line: string)
    ensures IsSkipped(line) <==>
            exists lead, rest :: AllTrimmed(lead) && (line == lead || line == lead + ("#" + rest))
  {
    var lead, trail := TrimParts(line);
    var trimmed := TrimSpace(line);
    hide TrimSpace;
    if trimmed == "" {
      assert line == lead + trail && AllTrimmed(lead + trail);
      assert AllTrimmed(line) && line == line + "";
    } else if trimmed[0] == '#' {
      assert line == lead + ("#" + (trimmed[1..] + trail));
    }
    if lead', rest :| AllTrimmed(lead') && (line == lead' || line == lead' + ("#" + rest)) {
      if line == lead' {
        assert line == line + "" + "";
        TrimmedOf(line, "", "");
      } else {
        assert line[|lead'|] == '#' && forall i :: 0 <= i < |lead'| ==> line[i] == lead'[i];
        FirstKept(line, |lead'|);
      }
    }
  }

  /** A colon, and blanks after it. */
  lemma ColonExactly(line: string)
    ensures EndsWithColon(line) <==> exists head, trail :: AllTrimmed(trail) && line == head + ":" + trail
  {
    var lead, trail := TrimParts(line);
    var trimmed := TrimSpace(line);
    hide TrimSpace, AllTrimmed;
    if EndsWithColon(line) {
      assert line == (lead + trimmed[..|trimmed| - 1]) + ":" + trail;
    }
    if head, trail' :| AllTrimmed(trail') && line == head + ":" + trail' {
      LastKept(head, trail');
    }
  }

  lemma LastKept(head: string, trail: string)
    requires AllTrimmed(trail)
    ensures EndsWithColon(head + ":" + trail)
  {
    var s := head + ":" + trail;
    var left := TrimLeft(s);
    var n := |s| - |left|;
    assert s[|head|] == ':';
    assert n <= |head|;
    var text := left[..|head| + 1 - n];
    assert left == text + trail && text[|text| - 1] == ':';
    TrimRightOf(text, trail);
  }

  lemma TrimParts(s: string) returns (lead: string, trail: string)
    ensures AllTrimmed(lead) && AllTrimmed(trail) && s == lead + TrimSpace(s) + trail
  {
    hide TrimLeft, TrimRight, IsTrimmed;
    var left := TrimLeft(s);
    TrimRightTail(left);
    lead, trail := s[..|s| - |left|], left[|TrimRight(left)|..];
    assert s == lead + left && left == TrimRight(left) + trail;
  }

  lemma {:induction false} TrimRightTail(s: string)
    ensures AllTrimmed(s[|TrimRight(s)|..])
    decreases |s|
  {
    if s != "" && IsTrimmed(s[|s| - 1]) { TrimRightTail(s[..|s| - 1]); }
  }

  predicate IsPlaceholder(line: string) {
    IsListItemScalar(line) || IsScalar(line) || IsBare(line) || IsListItem(line)
  }

  /** A placeholder that makes the rewriter look at its parent. */
  predicate AsksParent(line: string) {
    IsListItemScalar(line) || (!IsScalar(line) && (IsBare(line) || IsListItem(line)))
  }

  /** Passed over when looking for other children. */
  predicate IsPassed(line: string) {
    IsSkipped(line) || IsListItem(line) || IsListItemScalar(line) || IsBare(line)
  }

  // ---------- what the two scans find ----------

  /** The closest earlier line that is neither blank nor a comment, if it ends with a colon. */
  function ParentBefore(lines: seq<string>, j: nat): Option<nat>
    requires j <= |lines|
  {
    if j == 0 then None
    else if IsSkipped(lines[j - 1]) then ParentBefore(lines, j - 1)
    else if EndsWithColon(lines[j - 1]) then Some(j - 1)
    else None
  }

  /** Scanning on from `k`, nothing deeper than the parent comes before something that is not. */
  function NoOtherChild(lines: seq<string>, parent: nat, k: nat): bool
    requires parent < |lines|
    decreases |lines| - k
  {
    if k >= |lines| then true
    else if IsPassed(lines[k]) then NoOtherChild(lines, parent, k + 1)
    else Indent(lines[k]) <= Indent(lines[parent])
  }

  /** Line `k` gets its parent `j` commented out. */
  predicate Comments(lines: seq<string>, k: nat, j: nat)
    requires k < |lines|
  {
    AsksParent(lines[k]) && ParentBefore(lines, k) == Some(j) && j < |lines| && NoOtherChild(lines, j, k + 1)
  }

  ghost predicate CommentedByChild(lines: seq<string>, j: nat, upTo: nat)
    requires upTo <= |lines|
  {
    exists k :: 0 <= k < upTo && Comments(lines, k, j)
  }

  function Mark(n: nat, line: string): string {
    if n == 0 then line else "# " + Mark(n - 1, line)
  }

  /** How many comment marks line `j` has once the lines before `upTo` are done. */
  ghost function Marks(lines: seq<string>, j: nat, upTo: nat): nat
    requires j < upTo <= |lines|
  {
    (if IsPlaceholder(lines[j]) then 1 else 0) + (if CommentedByChild(lines, j, upTo) then 1 else 0)
  }

  ghost function Rewritten(lines: seq<string>): (r: seq<string>)
    ensures |r| == |lines|
    ensures forall j :: 0 <= j < |lines| ==> r[j] == Mark(Marks(lines, j, |lines|), lines[j])
  {
    seq(|lines|, j requires 0 <= j < |lines| => Mark(Marks(lines, j, |lines|), lines[j]))
  }

  // ---------- the rewriter ----------

  method FindParent(lines: seq<string>, lineIndex: nat) returns (parent: Option<nat>)
    requires lineIndex <= |lines|
    ensures parent == ParentBefore(lines, lineIndex)
  {
    hide IsSkipped, EndsWithColon;
    var j := lineIndex;
    while j > 0
      invariant 0 <= j <= lineIndex && ParentBefore(lines, lineIndex) == ParentBefore(lines, j)
    {
      j := j - 1;
      if IsSkipped(lines[j]) {
        continue;
      }
      return if EndsWithColon(lines[j]) then Some(j) else None;
    }
    parent := None;
  }

  lemma {:induction false} ParentIsBefore(lines: seq<string>, j: nat)
    requires j <= |lines| && ParentBefore(lines, j).Some?
    ensures var p := ParentBefore(lines, j).value;
            p < j && !IsSkipped(lines[p]) && EndsWithColon(lines[p]) && forall i :: p < i < j ==> IsSkipped(lines[i])
  {
    hide IsSkipped, EndsWithColon;
    if IsSkipped(lines[j - 1]) { ParentIsBefore(lines, j - 1); }
  }

  method CommentOutParentKeyIfSoleChild(lines: seq<string>, modified: seq<string>, lineIndex: nat)
    returns (r: seq<string>)
    requires |modified| == lineIndex < |lines|
    ensures |r| == |modified|
    ensures forall j :: 0 <= j < |r| ==>
                          r[j] == if ParentBefore(lines, lineIndex) == Some(j) && NoOtherChild(lines, j, lineIndex + 1)
                                  then "# " + modified[j] else modified[j]
  {
    hide IsPassed, Indent, IsSkipped, EndsWithColon;
    var parent := FindParent(lines, lineIndex);
    if parent.None? {
      return modified;
    }
    ParentIsBefore(lines, lineIndex);
    var p := parent.value;
    var k := lineIndex + 1;
    while k < |lines|
      invariant lineIndex < k <= |lines| && NoOtherChild(lines, p, lineIndex + 1) == NoOtherChild(lines, p, k)
    {
      if !IsPassed(lines[k]) {
        if Indent(lines[k]) > Indent(lines[p]) {
          return modified;
        }
        break;
      }
      k := k + 1;
    }
    r := modified[p := "# " + modified[p]];
  }

  /** The loop body: the line with its mark, and its parent's. */
  method RewriteLine(lines: seq<string>, modified: seq<string>, i: nat) returns (r: seq<string>, line: string)
    requires |modified| == i < |lines|
    ensures |r| == i && line == Mark(if IsPlaceholder(lines[i]) then 1 else 0, lines[i])
    ensures forall j :: 0 <= j < i ==> r[j] == if Comments(lines, i, j) then "# " + modified[j] else modified[j]
  {
    hide IsListItemScalar, IsScalar, IsBare, IsListItem, ParentBefore, NoOtherChild;
    r, line := modified, lines[i];
    if IsListItemScalar(line) {
      line := "# " + line;
      r := CommentOutParentKeyIfSoleChild(lines, modified, i);
    } else if IsScalar(line) {
      line := "# " + line;
    } else if IsBare(line) {
      line := "# " + line;
      r := CommentOutParentKeyIfSoleChild(lines, modified, i);
    } else if IsListItem(line) {
      line := "# " + line;
      r := CommentOutParentKeyIfSoleChild(lines, modified, i);
    }
    assert Mark(1, lines[i]) == "# " + Mark(0, lines[i]);
  }

  method CommentOutLinesWithPlaceholders(lines: seq<string>) returns (modified: seq<string>)
    ensures modified == Rewritten(lines)
  {
    hide Comments, IsPlaceholder, Marks;
    modified := [];
    for i := 0 to |lines|
      invariant |modified| == i
      invariant forall j :: 0 <= j < i ==> modified[j] == Mark(Marks(lines, j, i), lines[j])
    {
      ghost var before := modified;
      var line;
      modified, line := RewriteLine(lines, modified, i);
      forall j | 0 <= j < i ensures modified[j] == Mark(Marks(lines, j, i + 1), lines[j]) {
        forall k | 0 <= k < i ensures !(Comments(lines, k, j) && Comments(lines, i, j)) {
          ParentOnce(lines, k, i, j);
        }
        MarksNext(lines, j, i);
        assert before[j] == Mark(Marks(lines, j, i), lines[j]);
      }
      OwnMarks(lines, i);
      modified := modified + [line];
    }
  }

  // ---------- each parent is commented out once ----------

  lemma FirstKept(line: string, n: nat)
    requires n < |line| && !IsTrimmed(line[n]) && forall i :: 0 <= i < n ==> IsTrimmed(line[i])
    ensures TrimSpace(line) != "" && TrimSpace(line)[0] == line[n]
  {
    TrimLeftOf(line, n);
    RightKeepsFirst(line[n..]);
  }

  lemma {:induction false} TrimLeftOf(line: string, n: nat)
    requires n < |line| && !IsTrimmed(line[n]) && forall i :: 0 <= i < n ==> IsTrimmed(line[i])
    ensures TrimLeft(line) == line[n..]
  {
    if n > 0 {
      TrimLeftOf(line[1..], n - 1);
      assert line[1..][n - 1..] == line[n..];
    }
  }

  lemma {:induction false} RightKeepsFirst(s: string)
    requires s != "" && !IsTrimmed(s[0])
    ensures TrimRight(s) != "" && TrimRight(s)[0] == s[0]
    decreases |s|
  {
    if |s| > 1 && IsTrimmed(s[|s| - 1]) { RightKeepsFirst(s[..|s| - 1]); }
  }

  /** A placeholder that asks for its parent is neither blank nor a comment. */
  lemma AskersKept(line: string)
    requires AsksParent(line)
    ensures !IsSkipped(line)
  {
    var n := SpaceLength(line);
    assert line[n..][0] == line[n] && (line[n] == '-' || line[n] == '$');
    FirstKept(line, n);
  }

  /** Two placeholders never share a parent: the later one finds the earlier one first. */
  lemma ParentOnce(lines: seq<string>, k: nat, k': nat, j: nat)
    requires k < k' < |lines|
    ensures !(Comments(lines, k, j) && Comments(lines, k', j))
  {
    hide IsSkipped, EndsWithColon, AsksParent, NoOtherChild;
    if Comments(lines, k, j) && Comments(lines, k', j) {
      AskersKept(lines[k]);
      ParentIsBefore(lines, k);
      ParentIsBefore(lines, k');
      assert false;
    }
  }

  lemma MarksNext(lines: seq<string>, j: nat, i: nat)
    requires j < i < |lines| && (Comments(lines, i, j) ==> !CommentedByChild(lines, j, i))
    ensures Marks(lines, j, i + 1) == Marks(lines, j, i) + if Comments(lines, i, j) then 1 else 0
  {
    hide Comments, IsPlaceholder;
  }

  /** A line is never the parent of an earlier one, so at its own turn it has only its own mark. */
  lemma OwnMarks(lines: seq<string>, i: nat)
    requires i < |lines|
    ensures Marks(lines, i, i + 1) == if IsPlaceholder(lines[i]) then 1 else 0
  {
    hide IsPlaceholder, AsksParent, NoOtherChild;
    if CommentedByChild(lines, i, i + 1) {
      var k :| 0 <= k < i + 1 && Comments(lines, k, i);
      ParentIsBefore(lines, k);
    }
  }

  // ---------- what the result promises ----------

  lemma MarkStart(n: nat, line: string)
    requires n >= 1
    ensures "# " <= Mark(n, line)
  {
  }

  lemma HashLengths(s: string)
    requires "# " <= s
    ensures SpaceLength(s) == 0 && TokenLength(s) == 1
  {
    assert s[0] == '#' && s[1] == ' ';
    assert !IsSpace(s[0]) && IsSpace(s[1..][0]);
  }

  lemma HashNoPlaceholder(s: string)
    requires "# " <= s && SpaceLength(s) == 0 && TokenLength(s) == 1
    ensures !IsPlaceholder(s)
  {
    hide SpaceLength, TokenLength, IsSpace;
    assert s[0..] == s && s[0] == '#';
    assert !KeyThenDollar(s);
  }

  lemma HashSkipped(s: string)
    requires "# " <= s
    ensures IsSkipped(s)
  {
    hide TrimSpace;
    assert s[0] == '#';
    FirstKept(s, 0);
  }

  lemma MarkedLine(n: nat, line: string)
    requires n >= 1
    ensures IsSkipped(Mark(n, line)) && !IsPlaceholder(Mark(n, line))
  {
    hide IsSkipped, IsPlaceholder, Mark, SpaceLength, TokenLength;
    MarkStart(n, line);
    HashLengths(Mark(n, line));
    HashNoPlaceholder(Mark(n, line));
    HashSkipped(Mark(n, line));
  }

  /** No line of the result matches any of the four patterns. */
  lemma NoPlaceholderLeft(lines: seq<string>, i: nat)
    requires i < |lines|
    ensures !IsPlaceholder(Rewritten(lines)[i])
  {
    if Marks(lines, i, |lines|) >= 1 {
      MarkedLine(Marks(lines, i, |lines|), lines[i]);
    }
  }

  /** A second run changes nothing. */
  lemma RewriteIdempotent(lines: seq<string>)
    ensures Rewritten(Rewritten(lines)) == Rewritten(lines)
  {
    var once := Rewritten(lines);
    forall i | 0 <= i < |once| ensures !IsPlaceholder(once[i]) { NoPlaceholderLeft(lines, i); }
    hide IsListItemScalar, IsScalar, IsBare, IsListItem;
    assert forall i :: 0 <= i < |once| ==> !AsksParent(once[i]);
    assert forall j :: 0 <= j < |once| ==> Marks(once, j, |once|) == 0;
    assert Rewritten(once) == once;
  }

  /** Line `t` belongs to the block below line `j`: every line up to it is skipped or indented deeper. */
  ghost predicate InBlock(lines: seq<string>, j: nat, t: nat) {
    j < t < |lines| && forall u :: j < u <= t ==> IsSkipped(lines[u]) || Indent(lines[u]) > Indent(lines[j])
  }

  lemma {:induction false} BlockPassed(lines: seq<string>, j: nat, k: nat, t: nat)
    requires InBlock(lines, j, t) && j < k <= t && NoOtherChild(lines, j, k)
    ensures IsPassed(lines[t])
    decreases t - k
  {
    hide IsSkipped, IsListItem, IsListItemScalar, IsBare, Indent;
    if k < t { BlockPassed(lines, j, k + 1, t); }
  }

  /** When a parent key is commented out, nothing of its block is left: every line of it is blank or a comment. */
  lemma CommentedParentHasNoChild(lines: seq<string>, j: nat, t: nat)
    ensures CommentedByChild(lines, j, |lines|) && InBlock(lines, j, t) ==> IsSkipped(Rewritten(lines)[t])
  {
    hide IsListItemScalar, IsScalar, IsBare, IsListItem, IsSkipped, EndsWithColon, Indent;
    if CommentedByChild(lines, j, |lines|) && InBlock(lines, j, t) {
      var k :| 0 <= k < |lines| && Comments(lines, k, j);
      ParentIsBefore(lines, k);
      if t > k {
        BlockPassed(lines, j, k + 1, t);
      }
      assert IsSkipped(lines[t]) || IsPlaceholder(lines[t]);
      if Marks(lines, t, |lines|) >= 1 {
        MarkedLine(Marks(lines, t, |lines|), lines[t]);
      }
    }
  }

  /** `p` is the closest earlier line that is neither blank nor a comment. */
  ghost predicate ClosestBefore(lines: seq<string>, p: nat, k: nat) {
    p < k < |lines| && !IsSkipped(lines[p]) && forall i :: p < i < k ==> IsSkipped(lines[i])
  }

  /** A placeholder in a list or on its own; a line of the form `key: $value` is none, whatever else it is. */
  ghost predicate StandsAlone(line: string) {
    IsListItemScalar(line) || ((IsListItem(line) || IsBare(line)) && !IsScalar(line))
  }

  /** Something that keeps its parent: not blank, no comment, and no placeholder in a list or on its own. */
  ghost predicate IsContent(line: string) {
    !IsSkipped(line) && !IsListItem(line) && !IsListItemScalar(line) && !IsBare(line)
  }

  ghost predicate FirstContent(lines: seq<string>, k: nat, m: nat) {
    k < m < |lines| && IsContent(lines[m]) && forall i :: k < i < m ==> !IsContent(lines[i])
  }

  /** The first content after line `k`, if any, is indented no deeper than line `p`. */
  ghost predicate NothingElseBelow(lines: seq<string>, p: nat, k: nat)
    requires p < |lines|
  {
    forall m: nat :: FirstContent(lines, k, m) ==> Indent(lines[m]) <= Indent(lines[p])
  }

  lemma {:induction false} ClosestIsParent(lines: seq<string>, p: nat, k: nat, j: nat)
    requires ClosestBefore(lines, p, k) && p < j <= k
    ensures ParentBefore(lines, j) == if EndsWithColon(lines[p]) then Some(p) else None
  {
    hide IsSkipped, EndsWithColon;
    if p < j - 1 { ClosestIsParent(lines, p, k, j - 1); }
  }

  lemma {:induction false} NoOtherChildExactly(lines: seq<string>, p: nat, k: nat)
    requires p < |lines|
    ensures NoOtherChild(lines, p, k + 1) <==> NothingElseBelow(lines, p, k)
    decreases |lines| - k
  {
    hide IsSkipped, IsListItem, IsListItemScalar, IsBare, Indent;
    if k + 1 < |lines| {
      if IsPassed(lines[k + 1]) {
        NoOtherChildExactly(lines, p, k + 1);
        forall m: nat ensures FirstContent(lines, k, m) <==> FirstContent(lines, k + 1, m) {}
      } else {
        assert FirstContent(lines, k, k + 1);
      }
    }
  }

  /**
   * The line before a placeholder that stands alone, blank lines and comments aside: it gets a mark for it exactly if
   * it ends in a colon and the first content after the placeholder, if any, is indented no deeper.
   */
  lemma ParentCommentedExactly(lines: seq<string>, p: nat, k: nat)
    requires ClosestBefore(lines, p, k) && StandsAlone(lines[k])
    ensures Rewritten(lines)[p] ==
            Mark((if IsPlaceholder(lines[p]) then 1 else 0)
                 + (if EndsWithColon(lines[p]) && NothingElseBelow(lines, p, k) then 1 else 0),
                 lines[p])
  {
    hide IsListItemScalar, IsScalar, IsBare, IsListItem, IsSkipped, EndsWithColon, NoOtherChild,
         NothingElseBelow, Mark;
    ClosestIsParent(lines, p, k, k);
    NoOtherChildExactly(lines, p, k);
    forall k' | 0 <= k' < |lines| && Comments(lines, k', p) ensures k' == k {
      AskersKept(lines[k]);
      AskersKept(lines[k']);
      ParentIsBefore(lines, k');
    }
    assert CommentedByChild(lines, p, |lines|) <==> Comments(lines, k, p);
  }

  /** All other lines have no mark but their own. */
  lemma OthersKeepTheirs(lines: seq<string>, j: nat)
    requires j < |lines| && forall k: nat :: ClosestBefore(lines, j, k) ==> !StandsAlone(lines[k])
    ensures Rewritten(lines)[j] == Mark(if IsPlaceholder(lines[j]) then 1 else 0, lines[j])
  {
    hide IsListItemScalar, IsScalar, IsBare, IsListItem, IsSkipped, EndsWithColon, NoOtherChild, Mark;
    if CommentedByChild(lines, j, |lines|) {
      var k :| 0 <= k < |lines| && Comments(lines, k, j);
      CommentsFrom(lines, k, j);
      assert false;
    }
  }

  lemma CommentsFrom(lines: seq<string>, k: nat, j: nat)
    requires k < |lines| && Comments(lines, k, j)
    ensures ClosestBefore(lines, j, k) && StandsAlone(lines[k])
  {
    hide IsListItemScalar, IsScalar, IsBare, IsListItem, IsSkipped, EndsWithColon, NoOtherChild;
    ParentIsBefore(lines, k);
  }

  /** The indentation is the number of blanks and tabs in front of anything else. */
  lemma {:induction false} IndentExactly(line: string, n: nat)
    ensures Indent(line) == n <==>
            && n <= |line| && (forall i :: 0 <= i < n ==> line[i] in {' ', '\t'})
            && (n < |line| ==> line[n] !in {' ', '\t'})
  {
    if line != "" && line[0] in {' ', '\t'} && n > 0 {
      IndentExactly(line[1..], n - 1);
      assert forall i :: 0 <= i < n - 1 && n <= |line| ==> line[1..][i] == line[i + 1];
    }
  }

  // ---------- whole files ----------

  ghost function RewrittenText(text: string): string {
    Join(Rewritten(Split(text, '\n')), '\n')
  }

  lemma {:induction false} MarkKeepsLine(n: nat, line: string)
    requires '\n' !in line
    ensures '\n' !in Mark(n, line)
  {
    if n > 0 { MarkKeepsLine(n - 1, line); }
  }

  /** Running the tool on its own output gives the same file. */
  lemma RewriteTextIdempotent(text: string)
    ensures RewrittenText(RewrittenText(text)) == RewrittenText(text)
  {
    var lines := Split(text, '\n');
    var once := Rewritten(lines);
    forall i | 0 <= i < |once| ensures '\n' !in once[i] {
      MarkKeepsLine(Marks(lines, i, |lines|), lines[i]);
    }
    SplitOfJoin(once, '\n');
    RewriteIdempotent(lines);
  }
}
