// Strings as the language stores them, by 16-bit units: their length and their order.
module Utf16 {

  // A character beyond the first 2^16 takes two units, a surrogate pair.
  function Units(c: char): seq<nat> {
    var n := c as nat;
    if n < 0x10000 then [n] else [0xD800 + (n - 0x10000) / 0x400, 0xDC00 + (n - 0x10000) % 0x400]
  }

  function Encode(s: string): (r: seq<nat>)
    ensures |r| >= |s|
  {
    if s == "" then [] else Units(s[0]) + Encode(s[1..])
  }

  predicate UnitsLe(a: seq<nat>, b: seq<nat>) {
    a == [] || (b != [] && (a[0] < b[0] || (a[0] == b[0] && UnitsLe(a[1..], b[1..]))))
  }

  // a does not come after b.
  predicate TextLe(a: string, b: string) {
    UnitsLe(Encode(a), Encode(b))
  }

  lemma {:induction false} UnitsTotal(a: seq<nat>, b: seq<nat>)
    ensures UnitsLe(a, b) || UnitsLe(b, a)
    ensures UnitsLe(a, b) && UnitsLe(b, a) ==> a == b
  {
    if a != [] && b != [] && a[0] == b[0] {
      UnitsTotal(a[1..], b[1..]);
      assert a == [a[0]] + a[1..] && b == [b[0]] + b[1..];
    }
  }

  lemma {:induction false} UnitsTransitive(a: seq<nat>, b: seq<nat>, c: seq<nat>)
    requires UnitsLe(a, b) && UnitsLe(b, c)
    ensures UnitsLe(a, c)
  {
    if a != [] && a[0] == b[0] && b[0] == c[0] {
      UnitsTransitive(a[1..], b[1..], c[1..]);
    }
  }

  // The first units tell the character, and how many units it takes.
  lemma UnitsOfHead(c: char, d: char, x: seq<nat>, y: seq<nat>)
    requires Units(c) + x == Units(d) + y
    ensures c == d && x == y
  {
    var a, b := Units(c) + x, Units(d) + y;
    assert a[0] == Units(c)[0] && b[0] == Units(d)[0];
    assert |Units(c)| == |Units(d)|;
    assert |Units(c)| == 2 ==> a[1] == Units(c)[1] && b[1] == Units(d)[1];
    assert a[|Units(c)|..] == x && b[|Units(d)|..] == y;
  }

  lemma {:induction false} EncodeInjective(a: string, b: string)
    requires Encode(a) == Encode(b)
    ensures a == b
  {
    if a != "" && b != "" {
      UnitsOfHead(a[0], b[0], Encode(a[1..]), Encode(b[1..]));
      EncodeInjective(a[1..], b[1..]);
      assert a == [a[0]] + a[1..] && b == [b[0]] + b[1..];
    }
  }

  // The order is total, and only equal texts tie.
  lemma TextTotal(a: string, b: string)
    ensures TextLe(a, b) || TextLe(b, a)
    ensures TextLe(a, b) && TextLe(b, a) ==> a == b
  {
    UnitsTotal(Encode(a), Encode(b));
    if Encode(a) == Encode(b) {
      EncodeInjective(a, b);
    }
  }

  // ---- In plain terms.

  // Characters below 2^16 take one unit each.
  lemma {:induction false} PlainLength(s: string)
    requires forall i :: 0 <= i < |s| ==> (s[i] as int) < 65536
    ensures |Encode(s)| == |s|
  {
    if s != "" {
      PlainLength(s[1..]);
    }
  }

  // Others take two: a high and a low surrogate that together give the character back.
  lemma PairGivesCharacter(c: char)
    requires c as int >= 65536
    ensures var u := Units(c);
      |u| == 2 && 55296 <= u[0] < 56320 && 56320 <= u[1] < 57344 && 65536 + (u[0] - 55296) * 1024 + (u[1] - 56320) == c as int
  {
  }

  lemma {:induction false} EncodeConcat(a: string, b: string)
    ensures Encode(a + b) == Encode(a) + Encode(b)
  {
    if a == "" {
      assert a + b == b;
    } else {
      assert (a + b)[1..] == a[1..] + b;
      EncodeConcat(a[1..], b);
    }
  }

  lemma {:induction false} UnitsAfterPrefix(p: seq<nat>, a: seq<nat>, b: seq<nat>)
    ensures UnitsLe(p + a, p + b) == UnitsLe(a, b)
  {
    if p == [] {
      assert p + a == a && p + b == b;
    } else {
      assert (p + a)[1..] == p[1..] + a && (p + b)[1..] == p[1..] + b;
      UnitsAfterPrefix(p[1..], a, b);
    }
  }

  // The first difference decides: the text with the lower character, or the one that ends, comes first.
  lemma FirstDifferenceDecides(p: string, c: char, d: char, x: string, y: string)
    requires c < d && (d as int) < 65536
    ensures TextLe(p + ([c] + x), p + ([d] + y)) && !TextLe(p + ([d] + y), p + ([c] + x))
    ensures TextLe(p, p + ([c] + x)) && !TextLe(p + ([c] + x), p)
  {
    EncodeConcat(p, [c] + x);
    EncodeConcat(p, [d] + y);
    UnitsAfterPrefix(Encode(p), Encode([c] + x), Encode([d] + y));
    UnitsAfterPrefix(Encode(p), Encode([d] + y), Encode([c] + x));
    UnitsAfterPrefix(Encode(p), [], Encode([c] + x));
    UnitsAfterPrefix(Encode(p), Encode([c] + x), []);
    assert Encode(p) + [] == Encode(p);
  }
}
