// What stripping does to a text, in literal characters: one equation for every way a text can go on.
module JsoncText {
  import opened Seqs
  import opened Jsonc

  // ---- String literals.

  // The inside of a literal: characters other than `"` and `\`, and `\` with any character behind it.
  predicate IsBody(s: string) {
    || s == ""
    || (s[0] != '"' && s[0] != '\\' && IsBody(s[1..]))
    || (s[0] == '\\' && |s| >= 2 && IsBody(s[2..]))
  }

  lemma {:induction false} CommentsInBody(body: string, rest: string)
    requires IsBody(body)
    ensures RemoveComments(body + ['"'] + rest, InString) == body + ['"'] + RemoveComments(rest, Code)
  {
    var s := body + ['"'] + rest;
    if body == "" {
      assert s[1..] == rest;
    } else if s[0] != '\\' {
      assert s[1..] == body[1..] + ['"'] + rest;
      CommentsInBody(body[1..], rest);
    } else {
      assert s[1..][1..] == body[2..] + ['"'] + rest && s[1..][0] == body[1];
      CommentsInBody(body[2..], rest);
      assert body == [body[0]] + ([body[1]] + body[2..]);
    }
  }

  lemma {:induction false} CommasInBody(body: string, rest: string)
    requires IsBody(body)
    ensures DropTrailingCommas(body + ['"'] + rest, InString) == body + ['"'] + DropTrailingCommas(rest, Code)
  {
    var s := body + ['"'] + rest;
    if body == "" {
      assert s[1..] == rest;
    } else if s[0] != '\\' {
      assert s[1..] == body[1..] + ['"'] + rest;
      CommasInBody(body[1..], rest);
    } else {
      assert s[1..][1..] == body[2..] + ['"'] + rest && s[1..][0] == body[1];
      CommasInBody(body[2..], rest);
      assert body == [body[0]] + ([body[1]] + body[2..]);
    }
  }

  // A literal stays as it is, whatever it holds, and stripping goes on behind it.
  lemma LiteralStays(body: string, rest: string)
    requires IsBody(body)
    ensures Stripped(['"'] + (body + ['"'] + rest)) == ['"'] + (body + ['"'] + Stripped(rest))
  {
    LiteralOpens(body + ['"'] + rest);
    CommentsInBody(body, rest);
    LiteralOpens(body + ['"'] + RemoveComments(rest, Code));
    CommasInBody(body, RemoveComments(rest, Code));
  }

  lemma LiteralOpens(s: string)
    ensures RemoveComments(['"'] + s, Code) == ['"'] + RemoveComments(s, InString)
    ensures DropTrailingCommas(['"'] + s, Code) == ['"'] + DropTrailingCommas(s, InString)
  {
    assert (['"'] + s)[1..] == s;
  }

  // The last backslash of an unclosed literal may stand alone.
  predicate IsUnclosed(s: string) {
    IsBody(s) || (s != "" && s[|s| - 1] == '\\' && IsBody(s[..|s| - 1]))
  }

  lemma {:induction false} InsideStays(s: string, m: Mode)
    requires m == InString ==> IsUnclosed(s)
    requires m == Escaped ==> s == "" || IsUnclosed(s[1..])
    requires m != Code
    ensures RemoveComments(s, m) == s && DropTrailingCommas(s, m) == s
  {
    if s != "" {
      if m == InString && s[0] == '\\' {
        UnclosedEscape(s);
        InsideStays(s[1..], Escaped);
      } else {
        if m == InString {
          UnclosedChar(s);
        }
        InsideStays(s[1..], InString);
      }
      assert s == [s[0]] + s[1..];
    }
  }

  lemma UnclosedChar(s: string)
    requires IsUnclosed(s) && s != "" && s[0] != '\\'
    ensures s[0] != '"' && IsUnclosed(s[1..])
  {
    if !IsBody(s) {
      assert s[..|s| - 1][1..] == s[1..][..|s[1..]| - 1];
    }
  }

  lemma UnclosedEscape(s: string)
    requires IsUnclosed(s) && s != "" && s[0] == '\\'
    ensures s[1..] == "" || IsUnclosed(s[1..][1..])
  {
    if |s| > 1 {
      assert s[1..][1..] == s[2..];
      if !IsBody(s) {
        assert s[..|s| - 1][0] == '\\';
        assert s[..|s| - 1][2..] == s[2..][..|s[2..]| - 1];
      }
    }
  }

  // A literal that is never closed stays as it is to the end.
  lemma UnclosedLiteralStays(s: string)
    requires IsUnclosed(s)
    ensures Stripped(['"'] + s) == ['"'] + s
  {
    assert (['"'] + s)[1..] == s;
    InsideStays(s, InString);
  }

  // ---- Whitespace and comments.

  datatype Piece = Space(c: char) | Line(t: string) | Block(t: string)

  // A line comment runs up to its newline, a block comment up to the first `*/` behind its opener.
  ghost predicate IsPiece(p: Piece) {
    match p
    case Space(c) => c == ' ' || c == '\t' || c == '\n' || c == '\r'
    case Line(t) => '\n' !in t
    case Block(t) => NoEnd(t)
  }

  ghost predicate NoEnd(t: string) {
    forall i :: 0 <= i < |t| ==> !(t[i] == '*' && (t + ['*', '/'])[i + 1] == '/')
  }

  function Written(p: Piece): string {
    match p
    case Space(c) => [c]
    case Line(t) => ['/', '/'] + t + ['\n']
    case Block(t) => ['/', '*'] + t + ['*', '/']
  }

  // What stripping leaves of a piece: a line comment leaves its newline, a block comment nothing.
  function Left(p: Piece): string {
    match p
    case Space(c) => [c]
    case Line(_) => ['\n']
    case Block(_) => []
  }

  function AllWritten(gap: seq<Piece>): string {
    if gap == [] then "" else Written(gap[0]) + AllWritten(gap[1..])
  }

  function AllLeft(gap: seq<Piece>): string {
    if gap == [] then "" else Left(gap[0]) + AllLeft(gap[1..])
  }

  ghost predicate IsGap(gap: seq<Piece>) {
    forall i :: 0 <= i < |gap| ==> IsPiece(gap[i])
  }

  lemma {:induction false} AfterLineText(t: string, rest: string)
    requires '\n' !in t
    ensures AfterLine(t + ['\n'] + rest) == ['\n'] + rest
    ensures AfterLine(t) == ""
  {
    var s := t + ['\n'] + rest;
    if t == "" {
      assert s == ['\n'] + rest;
    } else {
      assert s[1..] == t[1..] + ['\n'] + rest;
      AfterLineText(t[1..], rest);
    }
  }

  lemma NoEndTail(t: string)
    requires t != "" && NoEnd(t)
    ensures NoEnd(t[1..])
  {
    forall i | 0 <= i < |t[1..]| ensures !(t[1..][i] == '*' && (t[1..] + ['*', '/'])[i + 1] == '/') {
      assert t[1..][i] == t[i + 1] && (t[1..] + ['*', '/'])[i + 1] == (t + ['*', '/'])[i + 2];
    }
  }

  lemma {:induction false} AfterBlockText(t: string, rest: string)
    requires NoEnd(t)
    ensures AfterBlock(t + ['*', '/'] + rest) == rest
  {
    var s := t + ['*', '/'] + rest;
    if t == "" {
      assert s[2..] == rest;
    } else {
      NoEndTail(t);
      assert s[1..] == t[1..] + ['*', '/'] + rest;
      assert s[1] == (t + ['*', '/'])[1];
      AfterBlockText(t[1..], rest);
    }
  }

  // Opened and never closed: the text behind the opener has no end of comment.
  ghost predicate NeverEnds(t: string) {
    forall i :: 0 <= i < |t| - 1 ==> !(t[i] == '*' && t[i + 1] == '/')
  }

  lemma {:induction false} AfterOpenBlock(t: string)
    requires NeverEnds(t)
    ensures AfterBlock(t) == ""
  {
    if |t| >= 2 {
      forall i | 0 <= i < |t[1..]| - 1 ensures !(t[1..][i] == '*' && t[1..][i + 1] == '/') {
        assert t[1..][i] == t[i + 1] && t[1..][i + 1] == t[i + 2];
      }
      AfterOpenBlock(t[1..]);
    }
  }

  lemma LineRemoved(t: string, rest: string)
    requires '\n' !in t
    ensures RemoveComments(['/', '/'] + t + ['\n'] + rest, Code) == ['\n'] + RemoveComments(rest, Code)
  {
    var s := ['/', '/'] + t + ['\n'] + rest;
    assert s[2..] == t + ['\n'] + rest;
    AfterLineText(t, rest);
    assert (['\n'] + rest)[1..] == rest;
  }

  lemma BlockRemoved(t: string, rest: string)
    requires NoEnd(t)
    ensures RemoveComments(['/', '*'] + t + ['*', '/'] + rest, Code) == RemoveComments(rest, Code)
  {
    var s := ['/', '*'] + t + ['*', '/'] + rest;
    assert s[2..] == t + ['*', '/'] + rest;
    AfterBlockText(t, rest);
  }

  lemma PieceRemoved(p: Piece, rest: string)
    requires IsPiece(p)
    ensures RemoveComments(Written(p) + rest, Code) == Left(p) + RemoveComments(rest, Code)
  {
    match p {
      case Space(c) =>
        assert ([c] + rest)[1..] == rest;
      case Line(t) =>
        LineRemoved(t, rest);
      case Block(t) =>
        BlockRemoved(t, rest);
        assert [] + RemoveComments(rest, Code) == RemoveComments(rest, Code);
    }
  }

  lemma {:induction false} GapRemoved(gap: seq<Piece>, rest: string)
    requires IsGap(gap)
    ensures RemoveComments(AllWritten(gap) + rest, Code) == AllLeft(gap) + RemoveComments(rest, Code)
  {
    if gap == [] {
      assert "" + rest == rest;
    } else {
      Assoc(Written(gap[0]), AllWritten(gap[1..]), rest);
      PieceRemoved(gap[0], AllWritten(gap[1..]) + rest);
      GapRemoved(gap[1..], rest);
      Assoc(Left(gap[0]), AllLeft(gap[1..]), RemoveComments(rest, Code));
    }
  }

  lemma {:induction false} GapIsSpace(gap: seq<Piece>)
    requires IsGap(gap)
    ensures AllSpace(AllLeft(gap))
  {
    if gap != [] {
      GapIsSpace(gap[1..]);
    }
  }

  // Whitespace stays, comments go, line comments up to their newline.
  lemma GapStripped(gap: seq<Piece>, rest: string)
    requires IsGap(gap)
    ensures Stripped(AllWritten(gap) + rest) == AllLeft(gap) + Stripped(rest)
  {
    GapRemoved(gap, rest);
    GapIsSpace(gap);
    DropBehindSpace(AllLeft(gap), RemoveComments(rest, Code));
  }

  // The end of the text, which may cut a comment short.
  ghost predicate IsEnd(s: string) {
    || s == ""
    || (|s| >= 2 && s[0] == '/' && s[1] == '/' && '\n' !in s[2..])
    || (|s| >= 2 && s[0] == '/' && s[1] == '*' && NeverEnds(s[2..]))
  }

  lemma EndRemoved(end: string)
    requires IsEnd(end)
    ensures RemoveComments(end, Code) == ""
  {
    if end != "" {
      if end[1] == '/' {
        AfterLineText(end[2..], "");
      } else {
        AfterOpenBlock(end[2..]);
      }
    }
  }

  lemma EndStripped(end: string)
    requires IsEnd(end)
    ensures Stripped(end) == ""
  {
    EndRemoved(end);
  }

  // ---- Commas and all other characters.

  // Not the start of a comment.
  predicate NoOpener(s: string) {
    !(|s| >= 2 && s[0] == '/' && (s[1] == '/' || s[1] == '*'))
  }

  // Any character but a quote and a comma, comment openers aside, stays.
  lemma CharStays(c: char, rest: string)
    requires c != '"' && c != ',' && NoOpener([c] + rest)
    ensures Stripped([c] + rest) == [c] + Stripped(rest)
  {
    assert ([c] + rest)[1..] == rest;
    DropHead(c, RemoveComments(rest, Code), Code);
  }

  lemma CommaRemoval(gap: seq<Piece>, rest: string)
    requires IsGap(gap)
    ensures var r := RemoveComments(rest, Code);
      Stripped([','] + (AllWritten(gap) + rest))
        == (if ClosesNext(r) then AllLeft(gap) else [','] + AllLeft(gap)) + DropTrailingCommas(r, Code)
  {
    var s := [','] + (AllWritten(gap) + rest);
    assert s[1..] == AllWritten(gap) + rest;
    GapRemoved(gap, rest);
    GapIsSpace(gap);
    Assoc([','], AllLeft(gap), RemoveComments(rest, Code));
    ResolvePending(AllLeft(gap), RemoveComments(rest, Code));
  }

  // A comma in front of a closing brace or bracket goes, whitespace and comments aside.
  lemma TrailingCommaGoes(gap: seq<Piece>, c: char, rest: string)
    requires IsGap(gap) && (c == '}' || c == ']')
    ensures Stripped([','] + (AllWritten(gap) + ([c] + rest))) == AllLeft(gap) + ([c] + Stripped(rest))
  {
    CommaRemoval(gap, [c] + rest);
    assert ([c] + rest)[1..] == rest;
    CharStays(c, rest);
    assert ClosesNext([c] + RemoveComments(rest, Code));
  }

  // In front of anything else it stays.
  lemma CommaStays(gap: seq<Piece>, c: char, rest: string)
    requires IsGap(gap) && NoOpener([c] + rest)
    requires c != ' ' && c != '\t' && c != '\n' && c != '\r' && c != '}' && c != ']'
    ensures Stripped([','] + (AllWritten(gap) + ([c] + rest))) == [','] + AllLeft(gap) + Stripped([c] + rest)
  {
    CommaRemoval(gap, [c] + rest);
    assert ([c] + rest)[1..] == rest;
    var r := RemoveComments([c] + rest, Code);
    assert r[0] == c;
    assert !ClosesNext(r);
  }

  // So it does at the end of the text.
  lemma LastCommaStays(gap: seq<Piece>, end: string)
    requires IsGap(gap) && IsEnd(end)
    ensures Stripped([','] + (AllWritten(gap) + end)) == [','] + AllLeft(gap)
  {
    CommaRemoval(gap, end);
    EndRemoved(end);
  }
}
