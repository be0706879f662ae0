// The pick in numbers: entries `<prefix>M.m.p` with or without `+hash`, and what a declared range
// chooses among them.
module StorePicks {
  import opened Digits
  import opened Options
  import opened Seqs
  import opened StableSort
  import opened Utf16
  import opened StoreVersions

  datatype Version = Version(major: nat, minor: nat, patch: nat, hash: Option<string>)

  function Number(v: Version): string {
    Decimal(v.major) + ("." + (Decimal(v.minor) + ("." + Decimal(v.patch))))
  }

  function Entry(prefix: string, v: Version): string {
    prefix + (Number(v) + if v.hash.Some? then "+" + v.hash.value else "")
  }

  // ---- Reading an entry.

  lemma {:induction false} SplitOff(a: string, c: char, rest: string)
    requires c !in a
    ensures Split(a + ([c] + rest), c) == [a] + Split(rest, c)
  {
    var s := a + ([c] + rest);
    if a == "" {
      assert s[1..] == rest;
    } else {
      assert s[1..] == a[1..] + ([c] + rest);
      SplitOff(a[1..], c, rest);
      assert a == [a[0]] + a[1..];
    }
  }

  lemma {:induction false} SplitNone(a: string, c: char)
    requires c !in a
    ensures Split(a, c) == [a]
  {
    if a != "" {
      SplitNone(a[1..], c);
      assert a == [a[0]] + a[1..];
    }
  }

  lemma DecimalIsParsed(n: nat)
    ensures ParseInt(Decimal(n)) == n
    ensures '.' !in Decimal(n) && '+' !in Decimal(n)
  {
    DecimalDigits(n);
    DecimalIsRead(n);
    var c := Decimal(n)[0];
    assert IsDigit(c) && !IsSpace(c) && c != '-' && c != '+';
  }

  // A number is read up to its last digit; a sign may stand in front.
  lemma NumberIsParsed(n: nat, rest: string)
    requires !DigitFirst(rest)
    ensures ParseInt(Decimal(n) + rest) == n
  {
    DecimalDigits(n);
    LeadingDecimal(n, rest);
    var c := (Decimal(n) + rest)[0];
    assert IsDigit(c) && !IsSpace(c) && c != '-' && c != '+';
  }

  lemma SignedNumber(number: string)
    ensures ParseInt(['+'] + number) == LeadingNumber(number, 0)
    ensures ParseInt(['-'] + number) == -LeadingNumber(number, 0)
  {
    assert (['+'] + number)[1..] == number && (['-'] + number)[1..] == number;
  }

  // Without a digit there is no number, which counts as 0.
  lemma NoNumber(s: string)
    requires s == "" || (!DigitFirst(s) && !IsSpace(s[0]) && s[0] != '-' && s[0] != '+')
    ensures ParseInt(s) == 0
  {
  }

  // Blanks in front are skipped.
  lemma {:induction false} PaddingSkipped(pad: string, s: string)
    requires IsPadding(pad)
    ensures ParseInt(pad + s) == ParseInt(s)
  {
    if pad == "" {
      assert pad + s == s;
    } else {
      assert (pad + s)[1..] == pad[1..] + s;
      PaddingSkipped(pad[1..], s);
    }
  }

  // Of a dotted version the major is the number in front of the first dot.
  lemma MajorIsFirst(n: nat, rest: string)
    ensures MajorOf(Decimal(n) + ("." + rest)) == n
  {
    DecimalIsParsed(n);
    SplitOff(Decimal(n), '.', rest);
  }

  lemma NumberParts(v: Version)
    ensures Split(Number(v), '.') == [Decimal(v.major), Decimal(v.minor), Decimal(v.patch)]
    ensures '+' !in Number(v)
  {
    DecimalIsParsed(v.major);
    DecimalIsParsed(v.minor);
    DecimalIsParsed(v.patch);
    SplitOff(Decimal(v.major), '.', Decimal(v.minor) + ("." + Decimal(v.patch)));
    SplitOff(Decimal(v.minor), '.', Decimal(v.patch));
    SplitNone(Decimal(v.patch), '.');
  }

  // The version of an entry is what stands between the prefix and the hash.
  lemma VersionIsNumber(prefix: string, v: Version)
    ensures VersionOf(prefix, Entry(prefix, v)) == Number(v)
  {
    var tail := if v.hash.Some? then "+" + v.hash.value else "";
    assert Entry(prefix, v)[|prefix|..] == Number(v) + tail;
    NumberParts(v);
    if v.hash.Some? {
      SplitOff(Number(v), '+', v.hash.value);
      assert Number(v) + tail == Number(v) + (['+'] + v.hash.value);
    } else {
      SplitNone(Number(v), '+');
      assert Number(v) + "" == Number(v);
    }
  }

  // Its three components are the three numbers, and its major is the first.
  lemma ComponentsAreNumbers(prefix: string, v: Version)
    ensures var text := VersionOf(prefix, Entry(prefix, v));
      Component(text, 0) == v.major && Component(text, 1) == v.minor && Component(text, 2) == v.patch && MajorOf(text) == v.major
  {
    VersionIsNumber(prefix, v);
    NumberParts(v);
    DecimalIsParsed(v.major);
    DecimalIsParsed(v.minor);
    DecimalIsParsed(v.patch);
  }

  // ---- Reading a range.

  lemma {:induction false} NoBars(s: string)
    requires '|' !in s
    ensures SplitBars(s) == [s]
  {
    if |s| >= 2 {
      NoBars(s[1..]);
      assert s == [s[0]] + s[1..];
    }
  }

  predicate IsPadding(s: string) {
    forall i :: 0 <= i < |s| ==> s[i] == ' ' || s[i] == '\t' || s[i] == '\n' || s[i] == '\r'
  }

  lemma {:induction false} StartTrimmed(pad: string, s: string)
    requires IsPadding(pad) && s != "" && !IsSpace(s[0])
    ensures TrimStart(pad + s) == s
  {
    if pad == "" {
      assert pad + s == s;
    } else {
      assert (pad + s)[1..] == pad[1..] + s;
      StartTrimmed(pad[1..], s);
    }
  }

  lemma {:induction false} EndTrimmed(s: string, pad: string)
    requires IsPadding(pad) && s != "" && !IsSpace(s[|s| - 1])
    ensures TrimEnd(s + pad) == s
  {
    if pad == "" {
      assert s + pad == s;
    } else {
      assert (s + pad)[..|s + pad| - 1] == s + pad[..|pad| - 1];
      EndTrimmed(s, pad[..|pad| - 1]);
    }
  }

  // A range without bars is one alternative, blanks around it aside.
  lemma PaddedRange(before: string, s: string, after: string)
    requires IsPadding(before) && IsPadding(after) && s != "" && '|' !in s && !HasSpace(s)
    ensures Alternatives(before + (s + after)) == [s]
  {
    var range := before + (s + after);
    NoBars(range);
    assert (s + after)[0] == s[0] && !IsSpace(s[0]) && !IsSpace(s[|s| - 1]);
    StartTrimmed(before, s + after);
    EndTrimmed(s, after);
    assert Map([range], Trim) == [s];
    assert Filter([s], NonEmpty()) == [s] by {
      assert [s][1..] == [];
    }
  }

  // A range of blanks only, or none at all, has no alternative.
  lemma BlankRange(pad: string)
    requires IsPadding(pad)
    ensures Alternatives(pad) == [] && !Constrains(Some(pad)) && !Constrains(None)
  {
    NoBars(pad);
    AllTrimmed(pad);
    assert Map([pad], Trim) == [""];
    assert [""][1..] == [];
  }

  lemma {:induction false} AllTrimmed(pad: string)
    requires IsPadding(pad)
    ensures TrimStart(pad) == ""
  {
    if pad != "" {
      AllTrimmed(pad[1..]);
    }
  }

  lemma VersionRange(op: string, n: nat)
    requires op in {"", "^", "~"}
    ensures Wants(op + Decimal(n)) == [Exact(n)] && Constrains(Some(op + Decimal(n)))
  {
    DecimalDigits(n);
    VersionPinsItsMajor(op, "", n, "");
    assert VersionText("", n, "") == Decimal(n);
    var s := op + Decimal(n);
    PaddedRange("", s, "");
    assert "" + (s + "") == s;
  }

  lemma BoundRange(eq: string, n: nat)
    requires eq in {"", "="}
    ensures Wants(">" + (eq + Decimal(n))) == [AtLeast(n)] && Constrains(Some(">" + (eq + Decimal(n))))
  {
    DecimalDigits(n);
    BoundIsItsMajor(eq, "", n, "");
    assert VersionText("", n, "") == Decimal(n);
    var s := ">" + (eq + Decimal(n));
    PaddedRange("", s, "");
    assert "" + (s + "") == s;
  }

  // Wildcards, other ways to name a package, compound ranges and what is no version pin nothing.
  lemma UnreadableAlternatives(s: string, rest: string)
    ensures ReadAlternative("*") == Unreadable && ReadAlternative("x") == Unreadable && ReadAlternative("latest") == Unreadable
    ensures ReadAlternative("workspace:" + rest) == Unreadable && ReadAlternative("file:" + rest) == Unreadable
    ensures ReadAlternative("link:" + rest) == Unreadable && ReadAlternative("npm:" + rest) == Unreadable
    ensures ReadAlternative("git" + rest) == Unreadable
    ensures ReadAlternative("http:" + rest) == Unreadable && ReadAlternative("https:" + rest) == Unreadable
    ensures ' ' in s || '\t' in s ==> ReadAlternative(s) == Unreadable
    ensures s != "" && s[0] !in {'^', '~', '>', 'v'} && !('0' <= s[0] <= '9') ==> ReadAlternative(s) == Unreadable
    ensures s != "" && s[0] in {'^', '~', '>', 'v'} && |s| == 1 ==> ReadAlternative(s) == Unreadable
  {
    PrefixPinsNothing(rest);
    if ' ' in s || '\t' in s {
      var i :| 0 <= i < |s| && (s[i] == ' ' || s[i] == '\t');
      assert IsSpace(s[i]);
    }
  }

  lemma PrefixPinsNothing(rest: string)
    ensures PinsNothing("workspace:" + rest) && PinsNothing("file:" + rest) && PinsNothing("link:" + rest)
    ensures PinsNothing("npm:" + rest) && PinsNothing("git" + rest) && PinsNothing("http:" + rest) && PinsNothing("https:" + rest)
  {
    StartsWithIt("workspace:", rest);
    StartsWithIt("file:", rest);
    StartsWithIt("link:", rest);
    StartsWithIt("npm:", rest);
    StartsWithIt("git", rest);
    StartsWithIt("http:", rest);
    StartsWithIt("https:", rest);
  }

  lemma StartsWithIt(prefix: string, rest: string)
    ensures StartsWith(prefix + rest, prefix)
  {
    assert (prefix + rest)[..|prefix|] == prefix;
  }

  // ---- The pick.

  function EntryAt(prefix: string): Version -> string {
    (v: Version) => Entry(prefix, v)
  }

  // v is a lower version than w, or the same.
  predicate NotAbove(v: Version, w: Version) {
    || v.major < w.major
    || (v.major == w.major && (v.minor < w.minor || (v.minor == w.minor && v.patch <= w.patch)))
  }

  // An entry with an admissible major, and of those with the highest version.
  ghost predicate IsBest(prefix: string, versions: seq<Version>, ok: nat -> bool, pick: string) {
    exists v :: v in versions && pick == Entry(prefix, v) && ok(v.major)
      && forall w :: w in versions && ok(w.major) ==> NotAbove(w, v)
  }

  lemma PickInNumbers(wanted: seq<Alternative>, prefix: string, versions: seq<Version>, ok: nat -> bool)
    requires forall major: nat :: Accepts(wanted, major) <==> ok(major)
    ensures var pick := PickStoreEntry(Some(wanted), prefix, Map(versions, EntryAt(prefix)));
      && (pick == None <==> forall v :: v in versions ==> !ok(v.major))
      && (pick.Some? ==> IsBest(prefix, versions, ok, pick.value))
  {
    var matches := Map(versions, EntryAt(prefix));
    forall v | v in versions ensures Entry(prefix, v) in matches && (Accepted(wanted, prefix, Entry(prefix, v)) <==> ok(v.major)) {
      var i :| 0 <= i < |versions| && versions[i] == v;
      assert matches[i] == Entry(prefix, v);
      ComponentsAreNumbers(prefix, v);
    }
    PickRefusesIff(Some(wanted), prefix, matches);
    var pick := PickStoreEntry(Some(wanted), prefix, matches);
    forall x | x in matches ensures exists v :: v in versions && x == Entry(prefix, v) {
      var i :| 0 <= i < |matches| && matches[i] == x;
      assert versions[i] in versions;
    }
    if pick.Some? {
      BestPick(wanted, prefix, versions, ok);
    }
  }

  lemma BestPick(wanted: seq<Alternative>, prefix: string, versions: seq<Version>, ok: nat -> bool)
    requires forall major: nat :: Accepts(wanted, major) <==> ok(major)
    requires PickStoreEntry(Some(wanted), prefix, Map(versions, EntryAt(prefix))).Some?
    ensures IsBest(prefix, versions, ok, PickStoreEntry(Some(wanted), prefix, Map(versions, EntryAt(prefix))).value)
  {
    var matches := Map(versions, EntryAt(prefix));
    var e := PickStoreEntry(Some(wanted), prefix, matches).value;
    PickIsHighest(wanted, prefix, matches);
    var i :| 0 <= i < |matches| && matches[i] == e;
    var v := versions[i];
    ComponentsAreNumbers(prefix, v);
    forall w | w in versions && ok(w.major) ensures NotAbove(w, v) {
      var j :| 0 <= j < |versions| && versions[j] == w;
      assert matches[j] == Entry(prefix, w);
      ComponentsAreNumbers(prefix, w);
      assert Accepted(wanted, prefix, Entry(prefix, w));
      assert !Higher(VersionOf(prefix, Entry(prefix, w)), VersionOf(prefix, e));
    }
  }

  function Is(n: nat): nat -> bool {
    (major: nat) => major == n
  }

  function AtLeastThat(n: nat): nat -> bool {
    (major: nat) => major >= n
  }

  // For a range that wants exactly major n, as n, ^n and ~n do: the entry of major n with the
  // highest minor and patch, if there is one of major n.
  lemma ExactPick(n: nat, prefix: string, versions: seq<Version>)
    ensures var pick := PickStoreEntry(Some([Exact(n)]), prefix, Map(versions, EntryAt(prefix)));
      && (pick == None <==> forall v :: v in versions ==> v.major != n)
      && (pick.Some? ==> IsBest(prefix, versions, Is(n), pick.value))
  {
    assert forall major: nat :: Accepts([Exact(n)], major) <==> AcceptsMajor([Exact(n)][0], major);
    PickInNumbers([Exact(n)], prefix, versions, Is(n));
  }

  // For a range with the lower bound n, as >=n and >n: the highest entry of major n or above.
  lemma BoundPick(n: nat, prefix: string, versions: seq<Version>)
    ensures var pick := PickStoreEntry(Some([AtLeast(n)]), prefix, Map(versions, EntryAt(prefix)));
      && (pick == None <==> forall v :: v in versions ==> v.major < n)
      && (pick.Some? ==> IsBest(prefix, versions, AtLeastThat(n), pick.value))
  {
    assert forall major: nat :: Accepts([AtLeast(n)], major) <==> AcceptsMajor([AtLeast(n)][0], major);
    PickInNumbers([AtLeast(n)], prefix, versions, AtLeastThat(n));
  }

  // A range that pins nothing takes a lone entry as it is, and refuses to choose among several.
  lemma OpenPick(prefix: string, matches: seq<string>)
    ensures PickStoreEntry(None, prefix, matches) == if |matches| == 1 then Some(matches[0]) else None
  {
    PickRefusesIff(None, prefix, matches);
  }
}
