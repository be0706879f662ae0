// What stripping keeps, what it leaves behind, and when it changes nothing.
module JsoncShape {
  import opened Jsonc

  predicate OpensComment(s: string) {
    OpensLine(s) || OpensBlock(s)
  }

  // Some comment opener stands outside strings.
  predicate HasComment(s: string, m: Mode) {
    s != "" && ((m == Code && OpensComment(s)) || HasComment(s[1..], Next(m, s[0])))
  }

  // Some comma outside strings is followed by a closer, whitespace aside.
  predicate HasTrailingComma(s: string, m: Mode) {
    s != "" && (TrailingComma(s, m) || HasTrailingComma(s[1..], Next(m, s[0])))
  }

  // The next significant character is a comma that itself trails.
  predicate TrailingCommaNext(s: string) {
    s != "" && (TrailingComma(s, Code) || (IsSpace(s[0]) && TrailingCommaNext(s[1..])))
  }

  // Two commas outside strings, with whitespace only between them and a closer behind.
  predicate HasDoubleTrailing(s: string, m: Mode) {
    s != "" && ((m == Code && s[0] == ',' && TrailingCommaNext(s[1..])) || HasDoubleTrailing(s[1..], Next(m, s[0])))
  }

  // ---- When stripping changes nothing.

  lemma {:induction false} RemoveCommentsShrinks(s: string, m: Mode)
    ensures |RemoveComments(s, m)| <= |s|
    ensures RemoveComments(s, m) == s <==> !HasComment(s, m)
    ensures HasComment(s, m) ==> |RemoveComments(s, m)| < |s|
    decreases |s|
  {
    if s == "" {
    } else if m == Code && OpensLine(s) {
      RemoveCommentsShrinks(AfterLine(s[2..]), Code);
    } else if m == Code && OpensBlock(s) {
      RemoveCommentsShrinks(AfterBlock(s[2..]), Code);
    } else {
      RemoveCommentsShrinks(s[1..], Next(m, s[0]));
      var r := RemoveComments(s[1..], Next(m, s[0]));
      assert s == [s[0]] + s[1..];
      assert ([s[0]] + r)[1..] == r;
    }
  }

  lemma {:induction false} DropShrinks(s: string, m: Mode)
    ensures |DropTrailingCommas(s, m)| <= |s|
    ensures DropTrailingCommas(s, m) == s <==> !HasTrailingComma(s, m)
    ensures HasTrailingComma(s, m) ==> |DropTrailingCommas(s, m)| < |s|
    decreases |s|
  {
    if s == "" {
    } else if TrailingComma(s, m) {
      DropShrinks(s[1..], Code);
    } else {
      DropShrinks(s[1..], Next(m, s[0]));
      var r := DropTrailingCommas(s[1..], Next(m, s[0]));
      assert s == [s[0]] + s[1..];
      assert ([s[0]] + r)[1..] == r;
    }
  }

  // Exactly the texts without comments and without trailing commas come out unchanged.
  lemma UnchangedIffPlain(text: string)
    ensures Stripped(text) == text <==> !HasComment(text, Code) && !HasTrailingComma(text, Code)
  {
    RemoveCommentsShrinks(text, Code);
    DropShrinks(RemoveComments(text, Code), Code);
  }

  // ---- No comment opener survives.

  // A `/` that is kept keeps its right neighbour, so no opener can form across a deletion.
  lemma {:induction false} RemoveCommentsLeavesNone(s: string, m: Mode)
    ensures !HasComment(RemoveComments(s, m), m)
    decreases |s|
  {
    if s == "" {
    } else if m == Code && OpensLine(s) {
      RemoveCommentsLeavesNone(AfterLine(s[2..]), Code);
    } else if m == Code && OpensBlock(s) {
      RemoveCommentsLeavesNone(AfterBlock(s[2..]), Code);
    } else {
      var r := RemoveComments(s[1..], Next(m, s[0]));
      RemoveCommentsLeavesNone(s[1..], Next(m, s[0]));
      assert ([s[0]] + r)[1..] == r;
      if m == Code && s[0] == '/' && |s| > 1 {
        assert s[1..][0] == s[1];
        assert r[0] == s[1];
      }
    }
  }

  lemma {:induction false} DropLeavesNone(s: string, m: Mode)
    requires !HasComment(s, m)
    ensures !HasComment(DropTrailingCommas(s, m), m)
    decreases |s|
  {
    if s == "" {
    } else if TrailingComma(s, m) {
      DropLeavesNone(s[1..], Code);
    } else {
      var r := DropTrailingCommas(s[1..], Next(m, s[0]));
      DropLeavesNone(s[1..], Next(m, s[0]));
      assert ([s[0]] + r)[1..] == r;
      if m == Code && s[0] == '/' && |s| > 1 && r != "" {
        assert s[1..][0] == s[1];
        assert r[0] == s[1] || IsSpace(r[0]) || IsCloser(r[0]) by {
          if TrailingComma(s[1..], Code) {
            assert ClosesNext(s[1..][1..]);
          }
        }
      }
    }
  }

  lemma NoCommentSurvives(text: string)
    ensures !HasComment(Stripped(text), Code)
  {
    RemoveCommentsLeavesNone(text, Code);
    DropLeavesNone(RemoveComments(text, Code), Code);
  }

  // ---- Idempotence, and exactly when it fails.

  lemma {:induction false} DropThenCloses(s: string)
    ensures ClosesNext(DropTrailingCommas(s, Code)) <==> ClosesNext(s) || TrailingCommaNext(s)
    decreases |s|
  {
    if s == "" {
    } else if TrailingComma(s, Code) {
      assert ClosesNext(s[1..]);
      DropThenCloses(s[1..]);
    } else {
      var r := DropTrailingCommas(s[1..], Next(Code, s[0]));
      assert ([s[0]] + r)[1..] == r;
      if IsSpace(s[0]) {
        DropThenCloses(s[1..]);
      }
    }
  }

  lemma {:induction false} TrailingAfterDrop(s: string, m: Mode)
    ensures HasTrailingComma(DropTrailingCommas(s, m), m) <==> HasDoubleTrailing(s, m)
    decreases |s|
  {
    if s == "" {
    } else if TrailingComma(s, m) {
      TrailingAfterDrop(s[1..], Code);
      ClosesExcludesComma(s[1..]);
    } else {
      var r := DropTrailingCommas(s[1..], Next(m, s[0]));
      TrailingAfterDrop(s[1..], Next(m, s[0]));
      assert ([s[0]] + r)[1..] == r;
      if m == Code && s[0] == ',' {
        DropThenCloses(s[1..]);
      }
    }
  }

  lemma {:induction false} ClosesExcludesComma(s: string)
    requires ClosesNext(s)
    ensures !TrailingCommaNext(s)
  {
    if IsSpace(s[0]) {
      ClosesExcludesComma(s[1..]);
    }
  }

  // A second strip changes nothing exactly when, comments aside, no two commas in a row precede
  // a closer: the pass drops the last comma of such a row and so makes the one before it trail.
  lemma IdempotentIff(text: string)
    ensures Stripped(Stripped(text)) == Stripped(text) <==> !HasDoubleTrailing(RemoveComments(text, Code), Code)
  {
    NoCommentSurvives(text);
    UnchangedIffPlain(Stripped(text));
    TrailingAfterDrop(RemoveComments(text, Code), Code);
  }

  lemma DoubleCommaIsNotIdempotent()
    ensures Stripped("[1,,]") == "[1,]" && Stripped("[1,]") == "[1]"
  {
    var t := "[1,,]";
    assert t[1..] == "1,,]" && t[1..][1..] == ",,]" && t[1..][1..][1..] == ",]" && t[1..][1..][1..][1..] == "]";
    assert RemoveComments("]", Code) == "]" && RemoveComments(",]", Code) == ",]";
    assert RemoveComments(",,]", Code) == ",,]" && RemoveComments("1,,]", Code) == "1,,]";
    assert DropTrailingCommas("]", Code) == "]";
    assert ClosesNext("]") && DropTrailingCommas(",]", Code) == "]" && DropTrailingCommas(",,]", Code) == ",]";
    var u := "[1,]";
    assert u[1..] == "1,]" && u[1..][1..] == ",]";
    assert RemoveComments("1,]", Code) == "1,]";
  }

  // ---- What survives, and in which order.

  // Everything but comments and whitespace outside strings, each character with the mode in which
  // it is read: all string literals verbatim, with their delimiters, and all other tokens.
  function Tokens(s: string, m: Mode): seq<(char, Mode)>
    decreases |s|
  {
    if s == "" then []
    else if m == Code && OpensLine(s) then Tokens(AfterLine(s[2..]), Code)
    else if m == Code && OpensBlock(s) then Tokens(AfterBlock(s[2..]), Code)
    else (if m == Code && IsSpace(s[0]) then [] else [(s[0], m)]) + Tokens(s[1..], Next(m, s[0]))
  }

  // A comma outside strings with nothing but whitespace and comments up to the next closer.
  predicate TrailsBehindComments(s: string, m: Mode) {
    m == Code && s != "" && s[0] == ',' && ClosesNext(RemoveComments(s[1..], Code))
  }

  // The tokens without the trailing commas.
  function Significant(s: string, m: Mode): seq<(char, Mode)>
    decreases |s|
  {
    if s == "" then []
    else if m == Code && OpensLine(s) then Significant(AfterLine(s[2..]), Code)
    else if m == Code && OpensBlock(s) then Significant(AfterBlock(s[2..]), Code)
    else
      (if (m == Code && IsSpace(s[0])) || TrailsBehindComments(s, m) then [] else [(s[0], m)])
      + Significant(s[1..], Next(m, s[0]))
  }

  lemma {:induction false} RemoveCommentsKeepsSignificant(s: string, m: Mode)
    ensures Significant(RemoveComments(s, m), m) == Significant(s, m)
    decreases |s|
  {
    if s == "" {
    } else if m == Code && OpensLine(s) {
      RemoveCommentsKeepsSignificant(AfterLine(s[2..]), Code);
    } else if m == Code && OpensBlock(s) {
      RemoveCommentsKeepsSignificant(AfterBlock(s[2..]), Code);
    } else {
      var r := RemoveComments(s[1..], Next(m, s[0]));
      RemoveCommentsKeepsSignificant(s[1..], Next(m, s[0]));
      RemoveCommentsLeavesNone(s, m);
      RemoveCommentsLeavesNone(s[1..], Next(m, s[0]));
      RemoveCommentsShrinks(r, Next(m, s[0]));
      assert ([s[0]] + r)[1..] == r;
      assert !(m == Code && OpensComment([s[0]] + r));
    }
  }

  lemma {:induction false} DropKeepsSignificant(s: string, m: Mode)
    requires !HasComment(s, m)
    ensures Tokens(DropTrailingCommas(s, m), m) == Significant(s, m)
    decreases |s|
  {
    if s == "" {
    } else {
      RemoveCommentsShrinks(s[1..], Next(m, s[0]));
      if TrailingComma(s, m) {
        DropKeepsSignificant(s[1..], Code);
      } else {
        var r := DropTrailingCommas(s[1..], Next(m, s[0]));
        DropKeepsSignificant(s[1..], Next(m, s[0]));
        DropLeavesNone(s, m);
        assert ([s[0]] + r)[1..] == r;
        assert !(m == Code && OpensComment([s[0]] + r));
      }
    }
  }

  // Of the tokens of a text stripping drops the trailing commas and nothing else, and the order stays.
  lemma SignificantSurvives(text: string)
    ensures Tokens(Stripped(text), Code) == Significant(text, Code)
  {
    RemoveCommentsKeepsSignificant(text, Code);
    RemoveCommentsLeavesNone(text, Code);
    DropKeepsSignificant(RemoveComments(text, Code), Code);
  }

  // a is what remains of b after deletions.
  predicate Subsequence(a: string, b: string) {
    a == "" || (b != "" && ((a[0] == b[0] && Subsequence(a[1..], b[1..])) || Subsequence(a, b[1..])))
  }

  lemma {:induction false} SubsequenceTail(a: string, b: string)
    requires a != "" && Subsequence(a, b)
    ensures Subsequence(a[1..], b)
  {
    if a[0] == b[0] && Subsequence(a[1..], b[1..]) {
      SubsequenceSkip(a[1..], b);
    } else {
      SubsequenceTail(a, b[1..]);
      SubsequenceSkip(a[1..], b);
    }
  }

  lemma SubsequenceSkip(a: string, b: string)
    requires b != "" && Subsequence(a, b[1..])
    ensures Subsequence(a, b)
  {
  }

  lemma {:induction false} SubsequenceTransitive(a: string, b: string, c: string)
    requires Subsequence(a, b) && Subsequence(b, c)
    ensures Subsequence(a, c)
    decreases |c|
  {
    if a != "" {
      if b[0] == c[0] && Subsequence(b[1..], c[1..]) {
        if a[0] == b[0] && Subsequence(a[1..], b[1..]) {
          SubsequenceTransitive(a[1..], b[1..], c[1..]);
        } else {
          SubsequenceTransitive(a, b[1..], c[1..]);
        }
      } else {
        SubsequenceTransitive(a, b, c[1..]);
      }
    }
  }

  lemma {:induction false} SubsequenceSuffix(a: string, b: string, k: nat)
    requires k <= |b| && Subsequence(a, b[k..])
    ensures Subsequence(a, b)
  {
    if k > 0 {
      assert b[1..][k - 1..] == b[k..];
      SubsequenceSuffix(a, b[1..], k - 1);
    } else {
      assert b[0..] == b;
    }
  }

  lemma {:induction false} AfterLineSuffix(s: string)
    ensures AfterLine(s) == s[|s| - |AfterLine(s)|..]
  {
    if s != "" && s[0] != '\n' {
      AfterLineSuffix(s[1..]);
    }
  }

  lemma {:induction false} AfterBlockSuffix(s: string)
    ensures AfterBlock(s) == s[|s| - |AfterBlock(s)|..]
  {
    if |s| >= 2 && !(s[0] == '*' && s[1] == '/') {
      AfterBlockSuffix(s[1..]);
    }
  }

  lemma {:induction false} RemoveCommentsDeletes(s: string, m: Mode)
    ensures Subsequence(RemoveComments(s, m), s)
    decreases |s|
  {
    if s == "" {
    } else if m == Code && OpensLine(s) {
      var t := AfterLine(s[2..]);
      AfterLineSuffix(s[2..]);
      RemoveCommentsDeletes(t, Code);
      assert t == s[|s| - |t|..];
      SubsequenceSuffix(RemoveComments(t, Code), s, |s| - |t|);
    } else if m == Code && OpensBlock(s) {
      var t := AfterBlock(s[2..]);
      AfterBlockSuffix(s[2..]);
      RemoveCommentsDeletes(t, Code);
      assert t == s[|s| - |t|..];
      SubsequenceSuffix(RemoveComments(t, Code), s, |s| - |t|);
    } else {
      var r := RemoveComments(s[1..], Next(m, s[0]));
      RemoveCommentsDeletes(s[1..], Next(m, s[0]));
      assert ([s[0]] + r)[1..] == r;
    }
  }

  lemma {:induction false} DropDeletes(s: string, m: Mode)
    ensures Subsequence(DropTrailingCommas(s, m), s)
    decreases |s|
  {
    if s == "" {
    } else if TrailingComma(s, m) {
      DropDeletes(s[1..], Code);
      SubsequenceSkip(DropTrailingCommas(s[1..], Code), s);
    } else {
      var r := DropTrailingCommas(s[1..], Next(m, s[0]));
      DropDeletes(s[1..], Next(m, s[0]));
      assert ([s[0]] + r)[1..] == r;
    }
  }

  // Stripping only deletes.
  lemma StrippedIsSubsequence(text: string)
    ensures Subsequence(Stripped(text), text)
  {
    RemoveCommentsDeletes(text, Code);
    DropDeletes(RemoveComments(text, Code), Code);
    SubsequenceTransitive(Stripped(text), RemoveComments(text, Code), text);
  }
}
