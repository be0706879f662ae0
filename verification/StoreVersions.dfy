// Picking one store entry for a declared range: packages/e2e/link-workspace.ts.
module StoreVersions {
  import opened Digits
  import opened Options
  import opened Seqs
  import opened StableSort
  import opened Utf16

  // ---- Versions.

  // What is left behind the first n characters.
  function Slice(s: string, n: nat): string {
    if n <= |s| then s[n..] else ""
  }

  // The parts between the occurrences of c.
  function Split(s: string, c: char): (parts: seq<string>)
    ensures parts != []
  {
    if s == "" then [""]
    else
      var rest := Split(s[1..], c);
      if s[0] == c then [""] + rest else [[s[0]] + rest[0]] + rest[1..]
  }

  // The leading digits of s as a number, on top of the digits read before.
  function LeadingNumber(s: string, before: int): int {
    if s == "" || !IsDigit(s[0]) then before
    else LeadingNumber(s[1..], 10 * before + (s[0] as int - '0' as int))
  }

  // White space and line ends, as the language knows them.
  predicate IsSpace(c: char) {
    var n := c as int;
    || 9 <= n <= 13 || n == 32 || n == 0xA0 || n == 0x1680 || 0x2000 <= n <= 0x200A
    || n == 0x2028 || n == 0x2029 || n == 0x202F || n == 0x205F || n == 0x3000 || n == 0xFEFF
  }

  // The integer a text starts with, white space and a sign in front allowed; 0 if there is none.
  function ParseInt(s: string): int {
    if s == "" then 0
    else if IsSpace(s[0]) then ParseInt(s[1..])
    else if s[0] == '-' then -LeadingNumber(s[1..], 0)
    else if s[0] == '+' then LeadingNumber(s[1..], 0)
    else LeadingNumber(s, 0)
  }

  // `<name>@<version>+<peerhash>`: the version behind the prefix.
  function VersionOf(prefix: string, entry: string): string {
    Split(Slice(entry, |prefix|), '+')[0]
  }

  function MajorOf(version: string): int {
    ParseInt(Split(version, '.')[0])
  }

  // The i-th component of major, minor, patch; 0 if absent.
  function Component(version: string, i: nat): int {
    var parts := Split(version, '.');
    if i < |parts| then ParseInt(parts[i]) else 0
  }

  // a is a higher version than b: major first, then minor, then patch.
  predicate Higher(a: string, b: string) {
    || Component(a, 0) > Component(b, 0)
    || (Component(a, 0) == Component(b, 0) && Component(a, 1) > Component(b, 1))
    || (Component(a, 0) == Component(b, 0) && Component(a, 1) == Component(b, 1) && Component(a, 2) > Component(b, 2))
  }

  // The difference in the first component from i on that differs.
  function Difference(a: string, b: string, i: nat): int
    requires i <= 3
    decreases 3 - i
  {
    if i == 3 then 0
    else if Component(b, i) != Component(a, i) then Component(b, i) - Component(a, i)
    else Difference(a, b, i + 1)
  }

  method CompareVersionDesc(a: string, b: string) returns (r: int)
    ensures r == Difference(a, b, 0)
    ensures (r < 0 <==> Higher(a, b)) && (r > 0 <==> Higher(b, a))
  {
    var pa, pb := Map(Split(a, '.'), ParseInt), Map(Split(b, '.'), ParseInt);
    var i := 0;
    while i < 3
      invariant i <= 3 && Difference(a, b, 0) == Difference(a, b, i)
      invariant forall k :: 0 <= k < i ==> Component(a, k) == Component(b, k)
    {
      var diff := (if i < |pb| then pb[i] else 0) - (if i < |pa| then pa[i] else 0);
      if diff != 0 {
        DifferenceMeans(a, b);
        return diff;
      }
      i := i + 1;
    }
    DifferenceMeans(a, b);
    r := 0;
  }

  lemma DifferenceMeans(a: string, b: string)
    ensures Difference(a, b, 0) < 0 <==> Higher(a, b)
    ensures Difference(a, b, 0) > 0 <==> Higher(b, a)
  {
    assert Difference(a, b, 2) == if Component(b, 2) != Component(a, 2) then Component(b, 2) - Component(a, 2) else 0;
    assert Difference(a, b, 1) == if Component(b, 1) != Component(a, 1) then Component(b, 1) - Component(a, 1) else Difference(a, b, 2);
  }

  // ---- Ranges.

  // One `||` alternative as far as it is read: an exact major, a lower bound, or one from which no
  // major is pinned (a wildcard, a protocol, a compound range).
  datatype Alternative = Exact(major: int) | AtLeast(floor: int) | Unreadable

  // None is a range that constrains nothing.
  type Wanted = Option<seq<Alternative>>

  function SplitBars(s: string): (parts: seq<string>)
    ensures parts != []
  {
    if |s| < 2 then [s]
    else if s[0] == '|' && s[1] == '|' then [""] + SplitBars(s[2..])
    else
      var rest := SplitBars(s[1..]);
      [[s[0]] + rest[0]] + rest[1..]
  }

  function TrimStart(s: string): string {
    if s != "" && IsSpace(s[0]) then TrimStart(s[1..]) else s
  }

  function TrimEnd(s: string): string {
    if s != "" && IsSpace(s[|s| - 1]) then TrimEnd(s[..|s| - 1]) else s
  }

  function Trim(s: string): string {
    TrimEnd(TrimStart(s))
  }

  function NonEmpty(): string -> bool {
    (s: string) => s != ""
  }

  function Alternatives(range: string): seq<string> {
    Filter(Map(SplitBars(range), Trim), NonEmpty())
  }

  predicate StartsWith(s: string, prefix: string) {
    |s| >= |prefix| && s[..|prefix|] == prefix
  }

  predicate HasSpace(s: string) {
    exists i :: 0 <= i < |s| && IsSpace(s[i])
  }

  // A wildcard, a tag, or another way than a version to name a package.
  predicate PinsNothing(s: string) {
    || s == "*" || s == "x" || s == "latest"
    || StartsWith(s, "workspace:") || StartsWith(s, "file:") || StartsWith(s, "link:") || StartsWith(s, "npm:")
    || StartsWith(s, "git") || StartsWith(s, "http:") || StartsWith(s, "https:")
  }

  // The text behind one character that may be there.
  function Skip(s: string, c: char): string {
    if s != "" && s[0] == c then s[1..] else s
  }

  function SkipOperator(s: string): string {
    if s != "" && (s[0] == '^' || s[0] == '~') then s[1..] else s
  }

  predicate DigitFirst(s: string) {
    s != "" && IsDigit(s[0])
  }

  // A version number is read up to the end of its major; `v` may stand in front of it, and `^` or
  // `~`, or for a lower bound `>` or `>=`.
  function ReadAlternative(s: string): Alternative {
    if HasSpace(s) || PinsNothing(s) then Unreadable
    else if s != "" && s[0] == '>' then
      var number := Skip(Skip(s[1..], '='), 'v');
      if DigitFirst(number) then AtLeast(LeadingNumber(number, 0)) else Unreadable
    else
      var number := Skip(SkipOperator(s), 'v');
      if DigitFirst(number) then Exact(LeadingNumber(number, 0)) else Unreadable
  }

  predicate AcceptsMajor(alternative: Alternative, major: int) {
    match alternative
    case Exact(m) => major == m
    case AtLeast(floor) => major >= floor
    case Unreadable => false
  }

  predicate Accepts(wanted: seq<Alternative>, major: int) {
    exists i :: 0 <= i < |wanted| && AcceptsMajor(wanted[i], major)
  }

  function Wants(range: string): (r: seq<Alternative>)
    ensures |r| == |Alternatives(range)|
  {
    Map(Alternatives(range), ReadAlternative)
  }

  predicate Readable(range: string) {
    forall i :: 0 <= i < |Wants(range)| ==> !Wants(range)[i].Unreadable?
  }

  // A range that is absent, empty or has an unreadable alternative constrains nothing: no guess.
  predicate Constrains(range: Option<string>) {
    range.Some? && Alternatives(range.value) != [] && Readable(range.value)
  }

  method MajorPredicate(range: Option<string>) returns (wanted: Wanted)
    ensures wanted == if Constrains(range) then Some(Wants(range.value)) else None
  {
    if range.None? {
      return None;
    }
    var alternatives := Alternatives(range.value);
    if |alternatives| == 0 {
      return None;
    }
    var predicates := [];
    var i := 0;
    while i < |alternatives|
      invariant i <= |alternatives| && predicates == Wants(range.value)[..i]
      invariant forall k :: 0 <= k < i ==> !Wants(range.value)[k].Unreadable?
    {
      var read := ReadAlternative(alternatives[i]);
      if read.Unreadable? {
        return None;
      }
      predicates := predicates + [read];
      i := i + 1;
    }
    assert predicates == Wants(range.value);
    wanted := Some(predicates);
  }

  // ---- What ranges mean.

  lemma {:induction false} LeadingConcat(a: string, b: string, before: int)
    requires forall i :: 0 <= i < |a| ==> IsDigit(a[i])
    ensures LeadingNumber(a + b, before) == LeadingNumber(b, LeadingNumber(a, before))
  {
    if a == "" {
      assert a + b == b;
    } else {
      assert (a + b)[1..] == a[1..] + b;
      LeadingConcat(a[1..], b, 10 * before + (a[0] as int - '0' as int));
    }
  }

  lemma DecimalDigits(n: nat)
    ensures Decimal(n) != "" && forall i :: 0 <= i < |Decimal(n)| ==> IsDigit(Decimal(n)[i])
  {
    ParseDecimal(n);
    ParsesIff(Decimal(n));
  }

  lemma {:induction false} LeadingDecimal(n: nat, rest: string)
    requires !DigitFirst(rest)
    ensures LeadingNumber(Decimal(n) + rest, 0) == n && DigitFirst(Decimal(n) + rest)
  {
    DecimalDigits(n);
    LeadingConcat(Decimal(n), rest, 0);
    DecimalIsRead(n);
  }

  lemma {:induction false} DecimalIsRead(n: nat)
    ensures LeadingNumber(Decimal(n), 0) == n
  {
    var digit := ['0' + (n % 10) as char];
    assert LeadingNumber(digit, n / 10 * 10 / 10) == 10 * (n / 10) + n % 10 by {
      assert digit[1..] == "";
    }
    if n >= 10 {
      DecimalIsRead(n / 10);
      DecimalDigits(n / 10);
      LeadingConcat(Decimal(n / 10), digit, 0);
    } else {
      assert digit[1..] == "";
    }
  }

  lemma NoSpace(a: string, b: string)
    requires !HasSpace(a) && !HasSpace(b)
    ensures !HasSpace(a + b)
  {
  }

  // A major, perhaps behind a `v`, and anything that does not go on with a digit.
  function VersionText(v: string, n: nat, rest: string): string {
    v + (Decimal(n) + rest)
  }

  lemma VersionTextFacts(v: string, n: nat, rest: string)
    requires v in {"", "v"} && !DigitFirst(rest) && !HasSpace(rest)
    ensures var s := VersionText(v, n, rest);
      && s != "" && (s[0] == 'v' || IsDigit(s[0])) && !HasSpace(s)
      && DigitFirst(Skip(s, 'v')) && LeadingNumber(Skip(s, 'v'), 0) == n
  {
    var number := Decimal(n) + rest;
    DecimalDigits(n);
    LeadingDecimal(n, rest);
    NoSpace(Decimal(n), rest);
    NoSpace(v, number);
    OptionalSkipped(v, 'v', number);
    assert v == "" ==> v + number == number;
  }

  lemma OperatorSkipped(op: string, t: string)
    requires op in {"", "^", "~"} && t != "" && t[0] != '^' && t[0] != '~'
    ensures SkipOperator(op + t) == t && op + t != "" && (op + t)[0] == if op == "" then t[0] else op[0]
  {
    if op == "" {
      assert op + t == t;
    } else {
      assert (op + t)[1..] == t;
    }
  }

  // ^19.1, ~19, 19.x, v19.2.0 and the like pin their major.
  lemma VersionPinsItsMajor(op: string, v: string, n: nat, rest: string)
    requires op in {"", "^", "~"} && v in {"", "v"} && !DigitFirst(rest) && !HasSpace(rest)
    ensures ReadAlternative(op + VersionText(v, n, rest)) == Exact(n)
  {
    var t := VersionText(v, n, rest);
    var s := op + t;
    VersionTextFacts(v, n, rest);
    NoSpace(op, t);
    OperatorSkipped(op, t);
    FirstPinsNothing(s);
  }

  // >=18, >18, >=v18.1 and the like are lower bounds, inclusive ones all.
  lemma BoundIsItsMajor(eq: string, v: string, n: nat, rest: string)
    requires eq in {"", "="} && v in {"", "v"} && !DigitFirst(rest) && !HasSpace(rest)
    ensures ReadAlternative(">" + (eq + VersionText(v, n, rest))) == AtLeast(n)
  {
    var t := VersionText(v, n, rest);
    var s := ">" + (eq + t);
    VersionTextFacts(v, n, rest);
    NoSpace(eq, t);
    NoSpace(">", eq + t);
    OptionalSkipped(eq, '=', t);
    assert s[0] == '>' && s[1..] == eq + t && s[..1] == ">";
    FirstPinsNothing(s);
  }

  lemma OptionalSkipped(o: string, c: char, s: string)
    requires (o == "" && s != "" && s[0] != c) || o == [c]
    ensures Skip(o + s, c) == s
  {
    assert o == "" ==> o + s == s;
    assert o != "" ==> (o + s)[1..] == s;
  }

  lemma FirstPinsNothing(s: string)
    requires s != "" && (IsDigit(s[0]) || s[0] in {'v', '^', '~', '>'})
    ensures !PinsNothing(s)
  {
  }

  // A union is the union of its two sides: it is read where both are, and accepts what either does.
  lemma UnionOfRanges(a: string, b: string)
    requires a == "" || a[|a| - 1] != '|'
    ensures Alternatives(a + "||" + b) == Alternatives(a) + Alternatives(b)
    ensures Wants(a + "||" + b) == Wants(a) + Wants(b)
    ensures Constrains(Some(a + "||" + b)) <==>
      Readable(a) && Readable(b) && (Alternatives(a) != [] || Alternatives(b) != [])
    ensures forall major :: Accepts(Wants(a + "||" + b), major) <==> Accepts(Wants(a), major) || Accepts(Wants(b), major)
  {
    SplitUnion(a, b);
    var x, y := Map(SplitBars(a), Trim), Map(SplitBars(b), Trim);
    assert Map(SplitBars(a) + SplitBars(b), Trim) == x + y;
    FilterConcat(x, y, NonEmpty());
    assert Wants(a + "||" + b) == Wants(a) + Wants(b);
    ReadableConcat(Wants(a), Wants(b));
    forall major ensures Accepts(Wants(a + "||" + b), major) <==> Accepts(Wants(a), major) || Accepts(Wants(b), major) {
      AcceptsConcat(Wants(a), Wants(b), major);
    }
  }

  lemma {:induction false} SplitUnion(a: string, b: string)
    requires a == "" || a[|a| - 1] != '|'
    ensures SplitBars(a + "||" + b) == SplitBars(a) + SplitBars(b)
  {
    var s := a + "||" + b;
    if a == "" {
      assert s[0] == '|' && s[1] == '|' && s[2..] == b;
    } else if |a| >= 2 && a[0] == '|' && a[1] == '|' {
      assert s[2..] == a[2..] + "||" + b;
      SplitUnion(a[2..], b);
    } else {
      assert s[1..] == a[1..] + "||" + b;
      SplitUnion(a[1..], b);
      SplitTail(a);
    }
  }

  lemma SplitTail(a: string)
    requires a != "" && !(|a| >= 2 && a[0] == '|' && a[1] == '|')
    ensures var rest := SplitBars(a[1..]); SplitBars(a) == [[a[0]] + rest[0]] + rest[1..]
  {
    if |a| == 1 {
      assert a[1..] == "" && [a[0]] + "" == a;
    }
  }

  lemma ReadableConcat(a: seq<Alternative>, b: seq<Alternative>)
    ensures (forall i :: 0 <= i < |a + b| ==> !(a + b)[i].Unreadable?) <==>
      (forall i :: 0 <= i < |a| ==> !a[i].Unreadable?) && (forall i :: 0 <= i < |b| ==> !b[i].Unreadable?)
  {
    assert forall i :: 0 <= i < |a| ==> (a + b)[i] == a[i];
    assert forall i :: 0 <= i < |b| ==> (a + b)[|a| + i] == b[i];
  }

  lemma AcceptsConcat(a: seq<Alternative>, b: seq<Alternative>, major: int)
    ensures Accepts(a + b, major) <==> Accepts(a, major) || Accepts(b, major)
  {
    if Accepts(a, major) {
      var i :| 0 <= i < |a| && AcceptsMajor(a[i], major);
      assert (a + b)[i] == a[i];
    }
    if Accepts(b, major) {
      var i :| 0 <= i < |b| && AcceptsMajor(b[i], major);
      assert (a + b)[|a| + i] == b[i];
    }
  }

  // ---- The pick.

  // Higher versions come first; of equal versions the entry whose name is not behind the other.
  predicate EntryLe(prefix: string, a: string, b: string) {
    var d := Difference(VersionOf(prefix, a), VersionOf(prefix, b), 0);
    d < 0 || (d == 0 && TextLe(a, b))
  }

  function ByVersion(prefix: string): (string, string) -> bool {
    (a: string, b: string) => EntryLe(prefix, a, b)
  }

  predicate Accepted(wanted: seq<Alternative>, prefix: string, entry: string) {
    Accepts(wanted, MajorOf(VersionOf(prefix, entry)))
  }

  function Satisfies(wanted: seq<Alternative>, prefix: string): string -> bool {
    (entry: string) => Accepted(wanted, prefix, entry)
  }

  // None where the source throws.
  function PickStoreEntry(wanted: Wanted, prefix: string, matches: seq<string>): Option<string> {
    if |matches| == 1 then
      if wanted.Some? && !Accepted(wanted.value, prefix, matches[0]) then None else Some(matches[0])
    else
      var satisfying := if wanted.Some? then Filter(matches, Satisfies(wanted.value, prefix)) else [];
      SortedLength(ByVersion(prefix), satisfying);
      if satisfying == [] then None else Some(Sort(ByVersion(prefix), satisfying)[0])
  }

  lemma EntryLeTransitive(prefix: string, a: string, b: string, c: string)
    requires EntryLe(prefix, a, b) && EntryLe(prefix, b, c)
    ensures EntryLe(prefix, a, c)
  {
    DifferenceMeans(VersionOf(prefix, a), VersionOf(prefix, b));
    DifferenceMeans(VersionOf(prefix, b), VersionOf(prefix, c));
    DifferenceMeans(VersionOf(prefix, a), VersionOf(prefix, c));
    if TextLe(a, b) && TextLe(b, c) {
      UnitsTransitive(Encode(a), Encode(b), Encode(c));
    }
  }

  // The order of the entries is total, and only an entry itself ties with it.
  lemma EntriesOrdered(prefix: string)
    ensures TotalPreorder(ByVersion(prefix))
    ensures forall a, b :: Ties(ByVersion(prefix), a, b) ==> a == b
  {
    forall a, b ensures ByVersion(prefix)(a, b) || ByVersion(prefix)(b, a) {
      EntriesCompare(prefix, a, b);
    }
    forall a, b, c | ByVersion(prefix)(a, b) && ByVersion(prefix)(b, c) ensures ByVersion(prefix)(a, c) {
      EntryLeTransitive(prefix, a, b, c);
    }
    forall a, b | Ties(ByVersion(prefix), a, b) ensures a == b {
      EntriesCompare(prefix, a, b);
    }
  }

  lemma EntriesCompare(prefix: string, a: string, b: string)
    ensures EntryLe(prefix, a, b) || EntryLe(prefix, b, a)
    ensures EntryLe(prefix, a, b) && EntryLe(prefix, b, a) ==> a == b
  {
    DifferenceMeans(VersionOf(prefix, a), VersionOf(prefix, b));
    DifferenceMeans(VersionOf(prefix, b), VersionOf(prefix, a));
    TextTotal(a, b);
  }

  // The order in which the directory lists its entries is immaterial.
  lemma PickIgnoresOrder(wanted: Wanted, prefix: string, m1: seq<string>, m2: seq<string>)
    requires multiset(m1) == multiset(m2)
    ensures PickStoreEntry(wanted, prefix, m1) == PickStoreEntry(wanted, prefix, m2)
  {
    assert |multiset(m1)| == |multiset(m2)|;
    if |m1| == 1 {
      assert m1[0] in multiset(m2);
    } else if wanted.Some? {
      var s1, s2 := Filter(m1, Satisfies(wanted.value, prefix)), Filter(m2, Satisfies(wanted.value, prefix));
      FilterKeepsBag(m1, m2, Satisfies(wanted.value, prefix));
      assert |multiset(s1)| == |multiset(s2)|;
      EntriesOrdered(prefix);
      SortOfPermutation(ByVersion(prefix), s1, s2);
    }
  }

  // The pick is an accepted entry, no accepted entry has a higher version, and among equal
  // versions it has the least name.
  lemma PickIsHighest(wanted: seq<Alternative>, prefix: string, matches: seq<string>)
    requires PickStoreEntry(Some(wanted), prefix, matches).Some?
    ensures var e := PickStoreEntry(Some(wanted), prefix, matches).value;
      && e in matches && Accepted(wanted, prefix, e)
      && forall x :: x in matches && Accepted(wanted, prefix, x) ==>
           !Higher(VersionOf(prefix, x), VersionOf(prefix, e))
           && (Higher(VersionOf(prefix, e), VersionOf(prefix, x)) || TextLe(e, x))
  {
    var e := PickStoreEntry(Some(wanted), prefix, matches).value;
    var satisfying := Filter(matches, Satisfies(wanted, prefix));
    FilterMembers(matches, Satisfies(wanted, prefix));
    EntriesOrdered(prefix);
    if |matches| == 1 {
      EntriesCompare(prefix, e, e);
      DifferenceMeans(VersionOf(prefix, e), VersionOf(prefix, e));
    } else {
      var sorted := Sort(ByVersion(prefix), satisfying);
      SortFacts(ByVersion(prefix), satisfying);
      assert sorted[0] in multiset(sorted);
      forall x | x in matches && Accepted(wanted, prefix, x)
        ensures !Higher(VersionOf(prefix, x), VersionOf(prefix, e))
        ensures Higher(VersionOf(prefix, e), VersionOf(prefix, x)) || TextLe(e, x)
      {
        assert x in multiset(sorted);
        HeadIsLeast(ByVersion(prefix), sorted, x);
        assert EntryLe(prefix, e, x);
        DifferenceMeans(VersionOf(prefix, e), VersionOf(prefix, x));
      }
    }
  }

  // It refuses exactly when no entry has an accepted major; a range that pins no major is
  // accepted for a lone entry only.
  lemma PickRefusesIff(wanted: Wanted, prefix: string, matches: seq<string>)
    ensures PickStoreEntry(wanted, prefix, matches).None? <==>
      if wanted.Some? then forall x :: x in matches ==> !Accepted(wanted.value, prefix, x) else |matches| != 1
  {
    if wanted.Some? {
      var satisfying := Filter(matches, Satisfies(wanted.value, prefix));
      FilterMembers(matches, Satisfies(wanted.value, prefix));
      assert satisfying != [] ==> satisfying[0] in satisfying;
    }
  }
}
