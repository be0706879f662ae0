// A stable sort by a comparator, which enters as the relation that holds where the comparator is
// not positive; callers state when that is a total preorder.
module StableSort {

  ghost predicate TotalPreorder<T(!new)>(le: (T, T) -> bool) {
    && (forall x, y :: le(x, y) || le(y, x))
    && (forall x, y, z :: le(x, y) && le(y, z) ==> le(x, z))
  }

  ghost predicate Sorted<T>(le: (T, T) -> bool, s: seq<T>) {
    forall i, j :: 0 <= i < j < |s| ==> le(s[i], s[j])
  }

  predicate Ties<T>(le: (T, T) -> bool, x: T, y: T) {
    le(x, y) && le(y, x)
  }

  // The elements of s that tie with x, in the order in which s holds them.
  function TiedWith<T>(le: (T, T) -> bool, s: seq<T>, x: T): seq<T> {
    if s == [] then [] else
    (if Ties(le, s[0], x) then [s[0]] else []) + TiedWith(le, s[1..], x)
  }

  // Distinct elements never tie, so the sorted order of a bag of them is unique.
  ghost predicate Antisymmetric<T>(le: (T, T) -> bool, s: seq<T>) {
    forall x, y :: x in s && y in s && Ties(le, x, y) ==> x == y
  }

  // x goes in front of the first element it is not greater than: ties keep their order.
  function Insert<T>(le: (T, T) -> bool, x: T, s: seq<T>): seq<T> {
    if s == [] || le(x, s[0]) then [x] + s else [s[0]] + Insert(le, x, s[1..])
  }

  function Sort<T>(le: (T, T) -> bool, s: seq<T>): seq<T> {
    if s == [] then [] else Insert(le, s[0], Sort(le, s[1..]))
  }

  lemma {:induction false} InsertLength<T>(le: (T, T) -> bool, x: T, s: seq<T>)
    ensures |Insert(le, x, s)| == |s| + 1
  {
    if s != [] && !le(x, s[0]) {
      InsertLength(le, x, s[1..]);
    }
  }

  lemma {:induction false} SortedLength<T>(le: (T, T) -> bool, s: seq<T>)
    ensures |Sort(le, s)| == |s|
  {
    if s != [] {
      SortedLength(le, s[1..]);
      InsertLength(le, s[0], Sort(le, s[1..]));
    }
  }

  lemma HeadIsLeast<T(!new)>(le: (T, T) -> bool, s: seq<T>, x: T)
    requires TotalPreorder(le) && Sorted(le, s) && x in s
    ensures le(s[0], x)
  {
    var i :| 0 <= i < |s| && s[i] == x;
    assert i == 0 || le(s[0], s[i]);
  }

  lemma {:induction false} InsertBag<T>(le: (T, T) -> bool, x: T, s: seq<T>)
    ensures multiset(Insert(le, x, s)) == multiset{x} + multiset(s)
  {
    if s != [] && !le(x, s[0]) {
      InsertBag(le, x, s[1..]);
      assert s == [s[0]] + s[1..];
    }
  }

  lemma {:induction false} InsertSorted<T(!new)>(le: (T, T) -> bool, x: T, s: seq<T>)
    requires TotalPreorder(le) && Sorted(le, s)
    ensures Sorted(le, Insert(le, x, s))
  {
    var r := Insert(le, x, s);
    if s == [] || le(x, s[0]) {
      forall j | 0 <= j < |s| ensures le(x, s[j]) {
        HeadIsLeast(le, s, s[j]);
      }
    } else {
      InsertSorted(le, x, s[1..]);
      InsertBag(le, x, s[1..]);
      forall z | z in r[1..] ensures le(s[0], z) {
        assert z in multiset(r[1..]);
        if z != x {
          assert z in multiset(s[1..]);
          HeadIsLeast(le, s, z);
        }
      }
    }
  }

  lemma {:induction false} InsertTies<T(!new)>(le: (T, T) -> bool, x: T, s: seq<T>, y: T)
    requires TotalPreorder(le)
    ensures TiedWith(le, Insert(le, x, s), y) == TiedWith(le, [x] + s, y)
  {
    assert ([x] + s)[1..] == s;
    if s != [] && !le(x, s[0]) {
      var t := Insert(le, x, s[1..]);
      InsertTies(le, x, s[1..], y);
      assert ([s[0]] + t)[1..] == t;
      assert ([x] + s[1..])[1..] == s[1..];
    }
  }

  lemma {:induction false} SortTies<T(!new)>(le: (T, T) -> bool, s: seq<T>, y: T)
    requires TotalPreorder(le)
    ensures TiedWith(le, Sort(le, s), y) == TiedWith(le, s, y)
  {
    if s != [] {
      var t := Sort(le, s[1..]);
      SortTies(le, s[1..], y);
      InsertTies(le, s[0], t, y);
      assert ([s[0]] + t)[1..] == t;
    }
  }

  lemma {:induction false} SortOrders<T(!new)>(le: (T, T) -> bool, s: seq<T>)
    requires TotalPreorder(le)
    ensures Sorted(le, Sort(le, s)) && multiset(Sort(le, s)) == multiset(s)
  {
    if s != [] {
      var t := Sort(le, s[1..]);
      SortOrders(le, s[1..]);
      InsertSorted(le, s[0], t);
      InsertBag(le, s[0], t);
      assert s == [s[0]] + s[1..];
    }
  }

  // Sorting permutes its input, orders it, and keeps the order of tied elements.
  lemma SortFacts<T(!new)>(le: (T, T) -> bool, s: seq<T>)
    requires TotalPreorder(le)
    ensures Sorted(le, Sort(le, s))
    ensures multiset(Sort(le, s)) == multiset(s)
    ensures |Sort(le, s)| == |s|
    ensures forall y :: TiedWith(le, Sort(le, s), y) == TiedWith(le, s, y)
  {
    SortOrders(le, s);
    SortedLength(le, s);
    forall y ensures TiedWith(le, Sort(le, s), y) == TiedWith(le, s, y) {
      SortTies(le, s, y);
    }
  }

  lemma {:induction false} TiedMembers<T>(le: (T, T) -> bool, s: seq<T>, x: T)
    ensures forall y :: y in TiedWith(le, s, x) <==> y in s && Ties(le, y, x)
  {
    if s != [] {
      TiedMembers(le, s[1..], x);
      assert s == [s[0]] + s[1..];
    }
  }

  // The specification of a stable sort determines its result.
  lemma {:induction false} StableSortUnique<T(!new)>(le: (T, T) -> bool, a: seq<T>, b: seq<T>)
    requires TotalPreorder(le) && Sorted(le, a) && Sorted(le, b)
    requires forall y :: TiedWith(le, a, y) == TiedWith(le, b, y)
    ensures a == b
  {
    assert b != [] ==> TiedWith(le, a, b[0]) == TiedWith(le, b, b[0]) != [];
    if a != [] {
      var x := a[0];
      assert TiedWith(le, a, x)[0] == x;
      TiedMembers(le, b, x);
      assert x in b;
      TiedMembers(le, a, b[0]);
      assert b[0] in TiedWith(le, b, b[0]);
      assert b[0] in a;
      HeadIsLeast(le, a, b[0]);
      HeadIsLeast(le, b, x);
      assert Ties(le, b[0], x);
      assert TiedWith(le, b, x)[0] == b[0];
      assert b[0] == x;
      forall y ensures TiedWith(le, a[1..], y) == TiedWith(le, b[1..], y) {
        var head := if Ties(le, x, y) then [x] else [];
        assert TiedWith(le, a, y) == head + TiedWith(le, a[1..], y);
        assert TiedWith(le, b, y) == head + TiedWith(le, b[1..], y);
        assert TiedWith(le, a[1..], y) == TiedWith(le, a, y)[|head|..];
        assert TiedWith(le, b[1..], y) == TiedWith(le, b, y)[|head|..];
      }
      StableSortUnique(le, a[1..], b[1..]);
    }
  }

  lemma SameHead<T(!new)>(le: (T, T) -> bool, a: seq<T>, b: seq<T>)
    requires Sorted(le, a) && Sorted(le, b) && TotalPreorder(le)
    requires multiset(a) == multiset(b) && Antisymmetric(le, a) && a != []
    ensures b != [] && a[0] == b[0]
  {
    assert a[0] in multiset(b);
    assert b[0] in multiset(a);
    HeadIsLeast(le, a, b[0]);
    HeadIsLeast(le, b, a[0]);
    assert Ties(le, a[0], b[0]);
  }

  lemma TailBag<T>(a: seq<T>)
    requires a != []
    ensures multiset(a[1..]) == multiset(a) - multiset{a[0]}
  {
    assert a == [a[0]] + a[1..];
  }

  // Without ties between distinct elements the order of the input is immaterial.
  lemma {:induction false} SortedBagUnique<T(!new)>(le: (T, T) -> bool, a: seq<T>, b: seq<T>)
    requires Sorted(le, a) && Sorted(le, b) && TotalPreorder(le)
    requires multiset(a) == multiset(b) && Antisymmetric(le, a)
    ensures a == b
  {
    assert |multiset(a)| == |multiset(b)|;
    if a != [] {
      SameHead(le, a, b);
      TailBag(a);
      TailBag(b);
      SortedBagUnique(le, a[1..], b[1..]);
      assert a == [a[0]] + a[1..] == [b[0]] + b[1..] == b;
    }
  }

  lemma SortOfPermutation<T(!new)>(le: (T, T) -> bool, s: seq<T>, t: seq<T>)
    requires TotalPreorder(le) && multiset(s) == multiset(t) && Antisymmetric(le, s)
    ensures Sort(le, s) == Sort(le, t)
  {
    SortFacts(le, s);
    SortFacts(le, t);
    forall x | x in Sort(le, s) ensures x in s {
      assert x in multiset(Sort(le, s));
    }
    SortedBagUnique(le, Sort(le, s), Sort(le, t));
  }

  lemma SortOfSorted<T(!new)>(le: (T, T) -> bool, s: seq<T>)
    requires TotalPreorder(le) && Sorted(le, s)
    ensures Sort(le, s) == s
  {
    SortFacts(le, s);
    StableSortUnique(le, Sort(le, s), s);
  }
}
