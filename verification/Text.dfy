/** String helpers shared by the models: splitting, joining, searching. */
module Text {

  /** `strings.Split` on a one-character separator: never empty, keeps empty pieces. */
  function Split(s: string, sep: char): (pieces: seq<string>)
    ensures |pieces| >= 1
    ensures forall i :: 0 <= i < |pieces| ==> sep !in pieces[i]
  {
    if s == "" then [""]
    else
      var rest := Split(s[1..], sep);
      if s[0] == sep then [""] + rest else [[s[0]] + rest[0]] + rest[1..]
  }

  /** `strings.Join` on a one-character separator. */
  function Join(pieces: seq<string>, sep: char): string {
    if pieces == [] then ""
    else if |pieces| == 1 then pieces[0]
    else pieces[0] + [sep] + Join(pieces[1..], sep)
  }

  lemma {:induction false} SplitPiece(piece: string, s: string, sep: char)
    requires sep !in piece
    ensures Split(piece, sep) == [piece]
    ensures Split(piece + [sep] + s, sep) == [piece] + Split(s, sep)
  {
    if piece == "" {
      assert (piece + [sep] + s)[1..] == s;
    } else {
      SplitPiece(piece[1..], s, sep);
      assert (piece + [sep] + s)[1..] == piece[1..] + [sep] + s;
      assert [piece[0]] + piece[1..] == piece;
    }
  }

  lemma {:induction false} SplitLast(s: string, piece: string, sep: char)
    requires sep !in piece
    ensures Split(s + [sep] + piece, sep) == Split(s, sep) + [piece]
  {
    if s == "" {
      SplitPiece(piece, "", sep);
      SplitPiece("", piece, sep);
    } else {
      SplitLast(s[1..], piece, sep);
      assert (s + [sep] + piece)[0] == s[0] && (s + [sep] + piece)[1..] == s[1..] + [sep] + piece;
      var front, rest := Split(s[1..], sep), Split(s[1..] + [sep] + piece, sep);
      assert rest[0] == front[0] && rest[1..] == front[1..] + [piece];
    }
  }

  /** Splitting undoes joining when no piece holds the separator. */
  lemma {:induction false} SplitOfJoin(pieces: seq<string>, sep: char)
    requires pieces != [] && forall i :: 0 <= i < |pieces| ==> sep !in pieces[i]
    ensures Split(Join(pieces, sep), sep) == pieces
  {
    if |pieces| == 1 {
      SplitPiece(pieces[0], "", sep);
    } else {
      SplitOfJoin(pieces[1..], sep);
      SplitPiece(pieces[0], Join(pieces[1..], sep), sep);
    }
  }

  /** Joining always undoes splitting. */
  lemma {:induction false} JoinOfSplit(s: string, sep: char)
    ensures Join(Split(s, sep), sep) == s
  {
    if s != "" {
      JoinOfSplit(s[1..], sep);
      var rest := Split(s[1..], sep);
      if s[0] == sep {
        assert (["" ] + rest)[1..] == rest;
      } else {
        assert ([[s[0]] + rest[0]] + rest[1..])[1..] == rest[1..];
        assert s == [s[0]] + s[1..];
      }
    }
  }
}
