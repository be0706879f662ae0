// The string-aware JSONC stripper of benchmarks/apps/lesto/alchemy.run.ts: one pass with a
// back-patched output array, proved equal to two simple passes run one after the other.
module Jsonc {
  import opened Seqs

  // Where a character stands: outside strings, inside one, or just after a backslash in one.
  datatype Mode = Code | InString | Escaped

  predicate IsSpace(c: char) {
    c == ' ' || c == '\t' || c == '\n' || c == '\r'
  }

  predicate IsCloser(c: char) {
    c == '}' || c == ']'
  }

  // String delimiting as in section 7 of RFC 8259: `"` opens and closes, `\` escapes one character.
  function Next(m: Mode, c: char): Mode {
    match m
    case Code => if c == '"' then InString else Code
    case InString => if c == '\\' then Escaped else if c == '"' then Code else InString
    case Escaped => InString
  }

  predicate OpensLine(s: string) {
    |s| >= 2 && s[0] == '/' && s[1] == '/'
  }

  predicate OpensBlock(s: string) {
    |s| >= 2 && s[0] == '/' && s[1] == '*'
  }

  // The rest of the text from the newline on; a line comment keeps its newline.
  function AfterLine(s: string): (r: string)
    ensures |r| <= |s|
  {
    if s == "" || s[0] == '\n' then s else AfterLine(s[1..])
  }

  // The rest of the text behind the next `*/`; nothing when the comment is not closed.
  function AfterBlock(s: string): (r: string)
    ensures |r| <= |s|
  {
    if |s| < 2 then "" else if s[0] == '*' && s[1] == '/' then s[2..] else AfterBlock(s[1..])
  }

  // First pass: delete the comments that stand outside strings.
  function RemoveComments(s: string, m: Mode): string
    decreases |s|
  {
    if s == "" then ""
    else if m == Code && OpensLine(s) then RemoveComments(AfterLine(s[2..]), Code)
    else if m == Code && OpensBlock(s) then RemoveComments(AfterBlock(s[2..]), Code)
    else [s[0]] + RemoveComments(s[1..], Next(m, s[0]))
  }

  // The next character that is not whitespace closes an object or an array.
  predicate ClosesNext(s: string) {
    s != "" && (IsCloser(s[0]) || (IsSpace(s[0]) && ClosesNext(s[1..])))
  }

  predicate TrailingComma(s: string, m: Mode) {
    m == Code && s != "" && s[0] == ',' && ClosesNext(s[1..])
  }

  // Second pass: delete the commas, outside strings, whose next significant character is a closer.
  function DropTrailingCommas(s: string, m: Mode): string
    decreases |s|
  {
    if s == "" then ""
    else if TrailingComma(s, m) then DropTrailingCommas(s[1..], Code)
    else [s[0]] + DropTrailingCommas(s[1..], Next(m, s[0]))
  }

  function Stripped(text: string): string {
    DropTrailingCommas(RemoveComments(text, Code), Code)
  }

  // The pieces joined with nothing between them.
  function Join(parts: seq<string>): string {
    if parts == [] then "" else parts[0] + Join(parts[1..])
  }

  lemma {:induction false} JoinConcat(a: seq<string>, b: seq<string>)
    ensures Join(a + b) == Join(a) + Join(b)
  {
    if a == [] {
      assert a + b == b;
    } else {
      assert (a + b)[1..] == a[1..] + b;
      JoinConcat(a[1..], b);
    }
  }

  lemma JoinPush(a: seq<string>, x: string)
    ensures Join(a + [x]) == Join(a) + x
  {
    JoinConcat(a, [x]);
    assert [x][1..] == [];
  }

  // Blanking the slot `p` deletes exactly what it held.
  lemma JoinBlank(a: seq<string>, p: nat)
    requires p < |a|
    ensures Join(a) == Join(a[..p]) + a[p] + Join(a[p + 1..])
    ensures Join(a[p := ""]) == Join(a[..p]) + Join(a[p + 1..])
  {
    JoinConcat(a[..p], a[p..]);
    assert a == a[..p] + a[p..];
    assert a[p..][1..] == a[p + 1..];
    var b := a[p := ""];
    JoinConcat(b[..p], b[p..]);
    assert b == b[..p] + b[p..];
    assert b[..p] == a[..p];
    assert b[p..][1..] == a[p + 1..];
  }

  predicate AllSpace(s: string) {
    forall k :: 0 <= k < |s| ==> IsSpace(s[k])
  }

  // Whitespace behind a comma neither decides whether the comma trails nor changes.
  lemma {:induction false} DropBehindSpace(space: string, rest: string)
    requires AllSpace(space)
    ensures ClosesNext(space + rest) == ClosesNext(rest)
    ensures DropTrailingCommas(space + rest, Code) == space + DropTrailingCommas(rest, Code)
  {
    if space == "" {
      assert space + rest == rest;
    } else {
      assert (space + rest)[1..] == space[1..] + rest;
      DropBehindSpace(space[1..], rest);
      assert space == [space[0]] + space[1..];
    }
  }

  lemma DropComma(rest: string)
    ensures DropTrailingCommas([','] + rest, Code)
         == if ClosesNext(rest) then DropTrailingCommas(rest, Code) else [','] + DropTrailingCommas(rest, Code)
  {
    assert ([','] + rest)[1..] == rest;
  }

  // A comma still pending in front of whitespace is dropped exactly when `rest` closes next.
  lemma ResolvePending(space: string, rest: string)
    requires AllSpace(space)
    ensures DropTrailingCommas([','] + space + rest, Code)
         == (if ClosesNext(rest) then space else [','] + space) + DropTrailingCommas(rest, Code)
  {
    Assoc([','], space, rest);
    DropComma(space + rest);
    DropBehindSpace(space, rest);
    Assoc([','], space, DropTrailingCommas(rest, Code));
  }

  // The first pass by index into the text, as the loop reads it: where a line comment and a
  // block comment opened at `i - 2` leave off, and what is left of the text from `i` on.
  function LineEnd(text: string, i: nat): (r: nat)
    requires i <= |text|
    ensures i <= r <= |text|
    decreases |text| - i
  {
    if i == |text| || text[i] == '\n' then i else LineEnd(text, i + 1)
  }

  function BlockEnd(text: string, i: nat): (r: nat)
    requires i <= |text|
    ensures i <= r <= |text|
    decreases |text| - i
  {
    if |text| - i < 2 then |text|
    else if text[i] == '*' && text[i + 1] == '/' then i + 2
    else BlockEnd(text, i + 1)
  }

  function RemoveCommentsAt(text: string, i: nat, m: Mode): string
    requires i <= |text|
    decreases |text| - i
  {
    if i == |text| then ""
    else if m == Code && i + 1 < |text| && text[i] == '/' && text[i + 1] == '/' then
      RemoveCommentsAt(text, LineEnd(text, i + 2), Code)
    else if m == Code && i + 1 < |text| && text[i] == '/' && text[i + 1] == '*' then
      RemoveCommentsAt(text, BlockEnd(text, i + 2), Code)
    else [text[i]] + RemoveCommentsAt(text, i + 1, Next(m, text[i]))
  }

  lemma {:induction false} LineEndSuffix(text: string, i: nat)
    requires i <= |text|
    ensures text[LineEnd(text, i)..] == AfterLine(text[i..])
    decreases |text| - i
  {
    if i < |text| && text[i] != '\n' {
      assert text[i..][1..] == text[i + 1..];
      LineEndSuffix(text, i + 1);
    }
  }

  lemma {:induction false} BlockEndSuffix(text: string, i: nat)
    requires i <= |text|
    ensures text[BlockEnd(text, i)..] == AfterBlock(text[i..])
    decreases |text| - i
  {
    if |text| - i >= 2 {
      assert text[i..][1..] == text[i + 1..] && text[i..][2..] == text[i + 2..];
      if !(text[i] == '*' && text[i + 1] == '/') {
        BlockEndSuffix(text, i + 1);
      }
    }
  }

  lemma {:induction false} RemoveCommentsSuffix(text: string, i: nat, m: Mode)
    requires i <= |text|
    ensures RemoveCommentsAt(text, i, m) == RemoveComments(text[i..], m)
    decreases |text| - i
  {
    if i < |text| {
      var s := text[i..];
      assert s[1..] == text[i + 1..] && (i + 2 <= |text| ==> s[2..] == text[i + 2..]);
      if m == Code && OpensLine(s) {
        LineEndSuffix(text, i + 2);
        RemoveCommentsSuffix(text, LineEnd(text, i + 2), Code);
      } else if m == Code && OpensBlock(s) {
        BlockEndSuffix(text, i + 2);
        RemoveCommentsSuffix(text, BlockEnd(text, i + 2), Code);
      } else {
        RemoveCommentsSuffix(text, i + 1, Next(m, text[i]));
      }
    }
  }

  // The loop invariant: with `rest` of the comment-free text to go, the output so far and the
  // second pass over `rest` make up the goal. A live pendingComma indexes a comma in `out` that
  // is followed by whitespace only, and the second pass has yet to decide about it.
  ghost predicate Pending(out: seq<string>, p: int, mode: Mode, rest: string, goal: string) {
    if p == -1 then
      goal == Join(out) + DropTrailingCommas(rest, mode)
    else
      && 0 <= p < |out| && mode == Code && out[p] == "," && AllSpace(Join(out[p + 1..]))
      && goal == Join(out[..p]) + DropTrailingCommas([','] + Join(out[p + 1..]) + rest, Code)
  }

  // What the closer branch does to the output: blank the pending comma, if there is one.
  function Blanked(out: seq<string>, p: int): seq<string> {
    if 0 <= p < |out| then out[p := ""] else out
  }

  // Any character other than whitespace, or the end of the text, settles the pending comma.
  lemma Settle(out: seq<string>, p: int, mode: Mode, rest: string, goal: string)
    requires Pending(out, p, mode, rest, goal)
    ensures goal == Join(if ClosesNext(rest) then Blanked(out, p) else out) + DropTrailingCommas(rest, mode)
  {
    if p != -1 {
      var front, space, tail := Join(out[..p]), Join(out[p + 1..]), DropTrailingCommas(rest, mode);
      ResolvePending(space, rest);
      Assoc(front, space, tail);
      Assoc(front, [','] + space, tail);
      Assoc(front, [','], space);
      JoinBlank(out, p);
    }
  }

  lemma DropHead(ch: char, later: string, mode: Mode)
    requires !(mode == Code && ch == ',')
    ensures DropTrailingCommas([ch] + later, mode) == [ch] + DropTrailingCommas(later, Next(mode, ch))
  {
    assert ([ch] + later)[1..] == later;
  }

  lemma KeepChar(out: seq<string>, mode: Mode, ch: char, later: string, goal: string)
    requires goal == Join(out) + DropTrailingCommas([ch] + later, mode)
    requires !(mode == Code && ch == ',')
    ensures Pending(out + [[ch]], -1, Next(mode, ch), later, goal)
  {
    DropHead(ch, later, mode);
    JoinPush(out, [ch]);
    Assoc(Join(out), [ch], DropTrailingCommas(later, Next(mode, ch)));
  }

  lemma KeepStringChar(out: seq<string>, p: int, mode: Mode, ch: char, later: string, goal: string)
    requires Pending(out, p, mode, [ch] + later, goal) && mode != Code
    ensures p == -1 && Pending(out + [[ch]], -1, Next(mode, ch), later, goal)
  {
    KeepChar(out, mode, ch, later, goal);
  }

  lemma KeepOther(out: seq<string>, p: int, ch: char, later: string, goal: string)
    requires Pending(out, p, Code, [ch] + later, goal)
    requires ch != ',' && !IsCloser(ch) && !IsSpace(ch)
    ensures Pending(out + [[ch]], -1, Next(Code, ch), later, goal)
  {
    Settle(out, p, Code, [ch] + later, goal);
    KeepChar(out, Code, ch, later, goal);
  }

  lemma KeepCloser(out: seq<string>, p: int, ch: char, later: string, goal: string)
    requires Pending(out, p, Code, [ch] + later, goal) && IsCloser(ch)
    ensures Pending(Blanked(out, p) + [[ch]], -1, Code, later, goal)
  {
    Settle(out, p, Code, [ch] + later, goal);
    KeepChar(Blanked(out, p), Code, ch, later, goal);
  }

  lemma KeepSpace(out: seq<string>, p: int, ch: char, later: string, goal: string)
    requires Pending(out, p, Code, [ch] + later, goal) && IsSpace(ch)
    ensures Pending(out + [[ch]], p, Code, later, goal)
  {
    if p == -1 {
      KeepChar(out, Code, ch, later, goal);
    } else {
      var space := Join(out[p + 1..]);
      assert (out + [[ch]])[p + 1..] == out[p + 1..] + [[ch]];
      assert (out + [[ch]])[..p] == out[..p];
      JoinPush(out[p + 1..], [ch]);
      Assoc([','] + space, [ch], later);
      Assoc([','], space, [ch]);
    }
  }

  lemma HoldComma(out: seq<string>, p: int, later: string, goal: string)
    requires Pending(out, p, Code, [','] + later, goal)
    ensures Pending(out + [","], |out|, Code, later, goal)
  {
    Settle(out, p, Code, [','] + later, goal);
    var o := out + [","];
    assert o[|out| + 1..] == [] && o[..|out|] == out;
    assert [','] + Join([]) + later == [','] + later;
  }

  // What the loop body does with a character that opens no comment.
  method Push(out: seq<string>, pendingComma: int, mode: Mode, ch: char, ghost later: string, ghost goal: string)
    returns (out': seq<string>, pendingComma': int, mode': Mode)
    requires Pending(out, pendingComma, mode, [ch] + later, goal)
    ensures mode' == Next(mode, ch) && Pending(out', pendingComma', mode', later, goal)
  {
    out', pendingComma', mode' := out, pendingComma, Next(mode, ch);
    if mode != Code {
      KeepStringChar(out, pendingComma, mode, ch, later, goal);
    } else if ch == ',' {
      HoldComma(out, pendingComma, later, goal);
      pendingComma' := |out|;
    } else if IsCloser(ch) {
      KeepCloser(out, pendingComma, ch, later, goal);
      if pendingComma != -1 {
        out' := out[pendingComma := ""];
        pendingComma' := -1;
      }
    } else if IsSpace(ch) {
      KeepSpace(out, pendingComma, ch, later, goal);
    } else {
      KeepOther(out, pendingComma, ch, later, goal);
      pendingComma' := -1;
    }
    out' := out' + [[ch]];
  }

  // What is left of the comment-free text at index i, which may have run past the end.
  function Ahead(text: string, i: nat, mode: Mode): string {
    if i <= |text| then RemoveCommentsAt(text, i, mode) else ""
  }

  lemma BehindLine(text: string, i: nat)
    requires i + 1 < |text| && text[i] == '/' && text[i + 1] == '/'
    ensures Ahead(text, LineEnd(text, i + 2), Code) == Ahead(text, i, Code)
  {
  }

  lemma BehindBlock(text: string, i: nat, star: nat)
    requires i + 1 < |text| && text[i] == '/' && text[i + 1] == '*'
    requires star <= |text| && BlockEnd(text, i + 2) == if star == |text| then star else star + 2
    ensures Ahead(text, star + 2, Code) == Ahead(text, i, Code)
  {
    assert RemoveCommentsAt(text, |text|, Code) == "";
    assert Ahead(text, i, Code) == RemoveCommentsAt(text, BlockEnd(text, i + 2), Code);
  }

  lemma BehindChar(text: string, i: nat, mode: Mode)
    requires i < |text|
    requires mode == Code ==> !OpensAt(text, i, '/') && !OpensAt(text, i, '*')
    ensures Ahead(text, i, mode) == [text[i]] + Ahead(text, i + 1, Next(mode, text[i]))
  {
  }

  // The invariant of the stripping loop: at index i, with this output, what is left of the text
  // still completes the goal.
  ghost predicate OnCourse(text: string, i: nat, mode: Mode, out: seq<string>, p: int, goal: string) {
    Pending(out, p, mode, Ahead(text, i, mode), goal)
  }

  // A line comment: the inner loop stops on the newline, and the step back lets the outer loop's
  // `i++` land there.
  method SkipLine(text: string, i: nat, ghost out: seq<string>, ghost p: int, ghost goal: string) returns (i': nat)
    requires i + 1 < |text| && text[i] == '/' && text[i + 1] == '/' && OnCourse(text, i, Code, out, p, goal)
    ensures i < i' && OnCourse(text, i' + 1, Code, out, p, goal)
  {
    BehindLine(text, i);
    i' := i + 2;
    while i' < |text| && text[i'] != '\n'
      invariant i + 2 <= i' <= |text| && LineEnd(text, i') == LineEnd(text, i + 2)
    {
      i' := i' + 1;
    }
    i' := i' - 1;
  }

  // A block comment: the inner loop stops on the `*` of `*/`, or runs off the text.
  method SkipBlock(text: string, i: nat, ghost out: seq<string>, ghost p: int, ghost goal: string) returns (i': nat)
    requires i + 1 < |text| && text[i] == '/' && text[i + 1] == '*' && OnCourse(text, i, Code, out, p, goal)
    ensures i < i' && OnCourse(text, i' + 1, Code, out, p, goal)
  {
    i' := i + 2;
    while i' < |text| && !(text[i'] == '*' && i' + 1 < |text| && text[i' + 1] == '/')
      invariant i + 2 <= i' <= |text| && BlockEnd(text, i') == BlockEnd(text, i + 2)
    {
      i' := i' + 1;
    }
    BehindBlock(text, i, i');
    i' := i' + 1;
  }

  // Any other character goes to the output, perhaps at the cost of the pending comma.
  method Take(text: string, i: nat, mode: Mode, out: seq<string>, pendingComma: int, ghost goal: string)
    returns (mode': Mode, out': seq<string>, pendingComma': int)
    requires i < |text| && OnCourse(text, i, mode, out, pendingComma, goal)
    requires mode == Code ==> !OpensAt(text, i, '/') && !OpensAt(text, i, '*')
    ensures OnCourse(text, i + 1, mode', out', pendingComma', goal)
  {
    BehindChar(text, i, mode);
    out', pendingComma', mode' := Push(out, pendingComma, mode, text[i], Ahead(text, i + 1, Next(mode, text[i])), goal);
  }

  predicate OpensAt(text: string, i: nat, second: char) {
    i + 1 < |text| && text[i] == '/' && text[i + 1] == second
  }

  // One round of the stripping loop, its closing `i++` included.
  method Round(text: string, i: nat, mode: Mode, out: seq<string>, pendingComma: int, ghost goal: string)
    returns (i': nat, mode': Mode, out': seq<string>, pendingComma': int)
    requires i < |text| && OnCourse(text, i, mode, out, pendingComma, goal)
    ensures i < i' && OnCourse(text, i', mode', out', pendingComma', goal)
  {
    mode', out', pendingComma' := mode, out, pendingComma;
    if mode == Code && OpensAt(text, i, '/') {
      i' := SkipLine(text, i, out, pendingComma, goal);
      i' := i' + 1;
      return;
    }
    if mode == Code && OpensAt(text, i, '*') {
      i' := SkipBlock(text, i, out, pendingComma, goal);
      i' := i' + 1;
      return;
    }
    mode', out', pendingComma' := Take(text, i, mode, out, pendingComma, goal);
    i' := i + 1;
  }

  // The stripping loop. It stops at the end of the text, or past it behind an unclosed block comment.
  method Strip(text: string) returns (result: string)
    ensures result == Stripped(text)
  {
    var out: seq<string> := [];
    var mode := Code;
    var pendingComma := -1;
    var i: nat := 0;
    OnCourseAtStart(text);
    while i < |text|
      invariant OnCourse(text, i, mode, out, pendingComma, Stripped(text))
      decreases |text| - i
    {
      i, mode, out, pendingComma := Round(text, i, mode, out, pendingComma, Stripped(text));
    }
    GoalAtEnd(text, i, mode, out, pendingComma, Stripped(text));
    result := Join(out);
  }

  lemma OnCourseAtStart(text: string)
    ensures OnCourse(text, 0, Code, [], -1, Stripped(text))
  {
    RemoveCommentsSuffix(text, 0, Code);
    assert text[0..] == text;
  }

  lemma GoalAtEnd(text: string, i: nat, mode: Mode, out: seq<string>, p: int, goal: string)
    requires i >= |text| && OnCourse(text, i, mode, out, p, goal)
    ensures Join(out) == goal
  {
    assert Ahead(text, i, mode) == "";
    Settle(out, p, mode, "", goal);
  }
}
