// The docs sidebar of site/src/content.ts: grouping by section, and the prev/next links.
module SiteNav {
  import opened Options
  import opened Seqs
  import opened StableSort

  datatype DocEntry = DocEntry(route: string, title: string, navLabel: Option<string>, section: string)
  // `text` is the sidebar label.
  datatype NavItem = NavItem(route: string, title: string, text: string)
  datatype NavSection = NavSection(title: string, items: seq<NavItem>)

  // Whether the locale sorts the first text not behind the second.
  type Collation = (string, string) -> bool

  const SECTION_ORDER: seq<string> := ["Getting started", "Guides", "Migrate", "Batteries", "Deploy", "Reference"]

  function IndexIn(list: seq<string>, x: string): (r: nat)
    ensures r <= |list|
  {
    if list == [] || list[0] == x then 0 else 1 + IndexIn(list[1..], x)
  }

  // Sections that are not named sort last.
  function SectionRank(title: string): nat {
    IndexIn(SECTION_ORDER, title)
  }

  predicate TitleLe(collate: Collation, a: string, b: string) {
    SectionRank(a) < SectionRank(b) || (SectionRank(a) == SectionRank(b) && collate(a, b))
  }

  function ByTitle(collate: Collation): (string, string) -> bool {
    (a: string, b: string) => TitleLe(collate, a, b)
  }

  function BySection(collate: Collation): (NavSection, NavSection) -> bool {
    (a: NavSection, b: NavSection) => TitleLe(collate, a.title, b.title)
  }

  function ByDocSection(collate: Collation): (DocEntry, DocEntry) -> bool {
    (a: DocEntry, b: DocEntry) => TitleLe(collate, a.section, b.section)
  }

  function ItemOf(d: DocEntry): NavItem {
    NavItem(d.route, d.title, if d.navLabel.Some? then d.navLabel.value else d.title)
  }

  function InSection(title: string): DocEntry -> bool {
    (d: DocEntry) => d.section == title
  }

  function DocsIn(docs: seq<DocEntry>, title: string): seq<DocEntry> {
    Filter(docs, InSection(title))
  }

  function ItemsIn(docs: seq<DocEntry>, title: string): seq<NavItem> {
    Map(DocsIn(docs, title), ItemOf)
  }

  // The sections in the order in which they first occur.
  function FirstSeen(docs: seq<DocEntry>): seq<string> {
    if docs == [] then []
    else
      var before := FirstSeen(docs[..|docs| - 1]);
      var section := docs[|docs| - 1].section;
      if section in before then before else before + [section]
  }

  function SectionOf(docs: seq<DocEntry>): string -> NavSection {
    (title: string) => NavSection(title, ItemsIn(docs, title))
  }

  function Nav(docs: seq<DocEntry>, collate: Collation): seq<NavSection> {
    Sort(BySection(collate), Map(FirstSeen(docs), SectionOf(docs)))
  }

  lemma {:induction false} FirstSeenFacts(docs: seq<DocEntry>)
    ensures forall t :: t in FirstSeen(docs) <==> exists i :: 0 <= i < |docs| && docs[i].section == t
    ensures Distinct(FirstSeen(docs))
  {
    if docs != [] {
      var n := |docs| - 1;
      FirstSeenFacts(docs[..n]);
      forall t ensures t in FirstSeen(docs) <==> exists i :: 0 <= i < |docs| && docs[i].section == t {
        if exists i :: 0 <= i < |docs| && docs[i].section == t {
          var i :| 0 <= i < |docs| && docs[i].section == t;
          assert i < n ==> docs[..n][i].section == t;
        }
      }
    }
  }

  lemma OneMoreDoc(docs: seq<DocEntry>, k: nat, title: string)
    requires k < |docs|
    ensures ItemsIn(docs[..k + 1], title)
         == if docs[k].section == title then ItemsIn(docs[..k], title) + [ItemOf(docs[k])] else ItemsIn(docs[..k], title)
  {
    assert docs[..k + 1] == docs[..k] + [docs[k]];
    FilterPush(docs[..k], docs[k], InSection(title));
    assert DocsIn(docs[..k], title) + [] == DocsIn(docs[..k], title);
  }

  // The items of a section; none when it has not occurred yet.
  function Group(groups: map<string, seq<NavItem>>, title: string): seq<NavItem> {
    if title in groups then groups[title] else []
  }

  // `order` and `groups` are the Map of the source: its keys in insertion order, and its values.
  ghost predicate GroupsOf(docs: seq<DocEntry>, order: seq<string>, groups: map<string, seq<NavItem>>) {
    && order == FirstSeen(docs)
    && (forall t :: t in groups <==> t in order)
    && (forall t :: Group(groups, t) == ItemsIn(docs, t))
  }

  lemma GroupOneMore(docs: seq<DocEntry>, k: nat, order: seq<string>, groups: map<string, seq<NavItem>>)
    requires k < |docs| && GroupsOf(docs[..k], order, groups)
    ensures GroupsOf(docs[..k + 1],
                     if docs[k].section in groups then order else order + [docs[k].section],
                     groups[docs[k].section := Group(groups, docs[k].section) + [ItemOf(docs[k])]])
  {
    assert docs[..k + 1][..k] == docs[..k];
    var groups' := groups[docs[k].section := Group(groups, docs[k].section) + [ItemOf(docs[k])]];
    forall t ensures Group(groups', t) == ItemsIn(docs[..k + 1], t) {
      GroupAfter(docs, k, groups, t);
    }
  }

  lemma GroupAfter(docs: seq<DocEntry>, k: nat, groups: map<string, seq<NavItem>>, title: string)
    requires k < |docs| && Group(groups, title) == ItemsIn(docs[..k], title)
    ensures Group(groups[docs[k].section := Group(groups, docs[k].section) + [ItemOf(docs[k])]], title)
         == ItemsIn(docs[..k + 1], title)
  {
    OneMoreDoc(docs, k, title);
  }

  method BuildNav(docs: seq<DocEntry>, collate: Collation) returns (nav: seq<NavSection>)
    ensures nav == Nav(docs, collate)
  {
    var order: seq<string>, groups: map<string, seq<NavItem>> := [], map[];
    var k := 0;
    while k < |docs|
      invariant k <= |docs| && GroupsOf(docs[..k], order, groups)
    {
      var section := docs[k].section;
      GroupOneMore(docs, k, order, groups);
      order := if section in groups then order else order + [section];
      groups := groups[section := Group(groups, section) + [ItemOf(docs[k])]];
      k := k + 1;
    }
    assert docs[..k] == docs;
    var sections := seq(|order|, i requires 0 <= i < |order| => NavSection(order[i], Group(groups, order[i])));
    assert sections == Map(order, SectionOf(docs));
    nav := Sort(BySection(collate), sections);
  }

  // ---- Grouping equals sorting.

  // The sections that occur are totally ordered: the collation tells them apart.
  ghost predicate TellsApart(collate: Collation, docs: seq<DocEntry>) {
    TotalPreorder(collate) &&
    forall i, j :: 0 <= i < |docs| && 0 <= j < |docs| && Ties(collate, docs[i].section, docs[j].section) ==>
      docs[i].section == docs[j].section
  }

  lemma TitlesPreordered(collate: Collation)
    requires TotalPreorder(collate)
    ensures TotalPreorder(ByTitle(collate)) && TotalPreorder(ByDocSection(collate))
  {
  }

  // Sorting commutes with a map that respects the comparison.
  lemma {:induction false} InsertMap<T, U>(leT: (T, T) -> bool, leU: (U, U) -> bool, f: T -> U, x: T, s: seq<T>)
    requires forall i :: 0 <= i < |s| ==> leU(f(x), f(s[i])) == leT(x, s[i])
    ensures Insert(leU, f(x), Map(s, f)) == Map(Insert(leT, x, s), f)
  {
    if s != [] {
      assert Map(s, f)[1..] == Map(s[1..], f);
      InsertMap(leT, leU, f, x, s[1..]);
    }
  }

  lemma {:induction false} SortMap<T(!new), U>(leT: (T, T) -> bool, leU: (U, U) -> bool, f: T -> U, s: seq<T>)
    requires forall x, y :: leU(f(x), f(y)) == leT(x, y)
    ensures Sort(leU, Map(s, f)) == Map(Sort(leT, s), f)
  {
    if s != [] {
      assert Map(s, f)[1..] == Map(s[1..], f);
      SortMap(leT, leU, f, s[1..]);
      InsertMap(leT, leU, f, s[0], Sort(leT, s[1..]));
    }
  }

  // The documents, section after section.
  function Blocks(docs: seq<DocEntry>, titles: seq<string>): seq<DocEntry> {
    if titles == [] then [] else DocsIn(docs, titles[0]) + Blocks(docs, titles[1..])
  }

  lemma {:induction false} BlockMembers(docs: seq<DocEntry>, titles: seq<string>)
    ensures forall d :: d in Blocks(docs, titles) ==> d in docs && d.section in titles
  {
    if titles != [] {
      FilterMembers(docs, InSection(titles[0]));
      BlockMembers(docs, titles[1..]);
    }
  }

  lemma {:induction false} BlocksSorted(docs: seq<DocEntry>, titles: seq<string>, collate: Collation)
    requires TotalPreorder(collate) && Sorted(ByTitle(collate), titles)
    ensures Sorted(ByDocSection(collate), Blocks(docs, titles))
  {
    if titles != [] {
      var a, b := DocsIn(docs, titles[0]), Blocks(docs, titles[1..]);
      BlocksSorted(docs, titles[1..], collate);
      FilterMembers(docs, InSection(titles[0]));
      BlockMembers(docs, titles[1..]);
      TitlesPreordered(collate);
      forall i, j | 0 <= i < j < |a + b| ensures ByDocSection(collate)((a + b)[i], (a + b)[j]) {
        if i < |a| {
          assert a[i] in a && a[i].section == titles[0];
          if j < |a| {
            assert a[j] in a;
          } else {
            assert b[j - |a|] in b;
            HeadIsLeast(ByTitle(collate), titles, b[j - |a|].section);
          }
        }
      }
    }
  }

  lemma {:induction false} TiedConcat<T>(le: (T, T) -> bool, a: seq<T>, b: seq<T>, y: T)
    ensures TiedWith(le, a + b, y) == TiedWith(le, a, y) + TiedWith(le, b, y)
  {
    if a == [] {
      assert a + b == b;
    } else {
      TiedConcat(le, a[1..], b, y);
      assert (a + b)[1..] == a[1..] + b && (a + b)[0] == a[0];
      var head := if Ties(le, a[0], y) then [a[0]] else [];
      Assoc(head, TiedWith(le, a[1..], y), TiedWith(le, b, y));
    }
  }

  // Of the documents, those of a section that ties with y are the ones that tie with y.
  lemma {:induction false} TiedInSection(docs: seq<DocEntry>, title: string, collate: Collation, y: DocEntry)
    requires forall i :: 0 <= i < |docs| ==>
      (Ties(ByTitle(collate), docs[i].section, y.section) <==> docs[i].section == title)
    ensures TiedWith(ByDocSection(collate), docs, y) == DocsIn(docs, title)
  {
    if docs != [] {
      TiedInSection(docs[1..], title, collate, y);
    }
  }

  lemma {:induction false} NoneTied(s: seq<DocEntry>, collate: Collation, y: DocEntry)
    requires forall i :: 0 <= i < |s| ==> !Ties(ByTitle(collate), s[i].section, y.section)
    ensures TiedWith(ByDocSection(collate), s, y) == []
  {
    if s != [] {
      NoneTied(s[1..], collate, y);
    }
  }

  lemma {:induction false} AllTied(s: seq<DocEntry>, collate: Collation, y: DocEntry)
    requires forall i :: 0 <= i < |s| ==> Ties(ByTitle(collate), s[i].section, y.section)
    ensures TiedWith(ByDocSection(collate), s, y) == s
  {
    if s != [] {
      AllTied(s[1..], collate, y);
    }
  }

  // In the blocks the documents that tie with y form one block, or there are none.
  lemma {:induction false} TiedInBlocks(docs: seq<DocEntry>, titles: seq<string>, collate: Collation, y: DocEntry, title: string)
    requires Distinct(titles)
    requires forall t :: t in titles && Ties(ByTitle(collate), t, y.section) ==> t == title
    ensures TiedWith(ByDocSection(collate), Blocks(docs, titles), y)
         == if title in titles && Ties(ByTitle(collate), title, y.section) then DocsIn(docs, title) else []
  {
    if titles != [] {
      var a, b := DocsIn(docs, titles[0]), Blocks(docs, titles[1..]);
      TiedInBlocks(docs, titles[1..], collate, y, title);
      TiedConcat(ByDocSection(collate), a, b, y);
      FilterMembers(docs, InSection(titles[0]));
      forall i | 0 <= i < |a| ensures a[i].section == titles[0] {
        assert a[i] in a;
      }
      if Ties(ByTitle(collate), titles[0], y.section) {
        AllTied(a, collate, y);
        assert title !in titles[1..];
      } else {
        NoneTied(a, collate, y);
      }
    }
  }

  // The section of the documents that ties with y, if there is one.
  lemma TyingTitle(docs: seq<DocEntry>, collate: Collation, y: DocEntry) returns (title: string)
    requires TellsApart(collate, docs)
    ensures forall i :: 0 <= i < |docs| && Ties(ByTitle(collate), docs[i].section, y.section) ==> docs[i].section == title
    ensures (exists i :: 0 <= i < |docs| && docs[i].section == title) ==> Ties(ByTitle(collate), title, y.section)
  {
    if i :| 0 <= i < |docs| && Ties(ByTitle(collate), docs[i].section, y.section) {
      title := docs[i].section;
      forall j | 0 <= j < |docs| && Ties(ByTitle(collate), docs[j].section, y.section) ensures docs[j].section == title {
        assert Ties(collate, docs[j].section, title);
      }
    } else {
      title := y.section;
      TitlesPreordered(collate);
      assert ByTitle(collate)(title, title);
    }
  }

  lemma BlocksTied(docs: seq<DocEntry>, titles: seq<string>, collate: Collation, y: DocEntry)
    requires TellsApart(collate, docs) && Distinct(titles)
    requires forall t :: t in titles <==> exists i :: 0 <= i < |docs| && docs[i].section == t
    ensures TiedWith(ByDocSection(collate), Blocks(docs, titles), y) == TiedWith(ByDocSection(collate), docs, y)
  {
    var title := TyingTitle(docs, collate, y);
    TiedInBlocks(docs, titles, collate, y, title);
    TiedInSection(docs, title, collate, y);
    FilterMembers(docs, InSection(title));
    assert DocsIn(docs, title) != [] ==> DocsIn(docs, title)[0] in DocsIn(docs, title);
  }

  function NavItems(nav: seq<NavSection>): seq<NavItem> {
    Flatten(Map(nav, (s: NavSection) => s.items))
  }

  lemma {:induction false} FlattenBlocks(docs: seq<DocEntry>, titles: seq<string>)
    ensures NavItems(Map(titles, SectionOf(docs))) == Map(Blocks(docs, titles), ItemOf)
  {
    if titles != [] {
      FlattenBlocks(docs, titles[1..]);
      var nav := Map(titles, SectionOf(docs));
      assert nav[1..] == Map(titles[1..], SectionOf(docs));
      var items := Map(nav, (s: NavSection) => s.items);
      assert items[1..] == Map(nav[1..], (s: NavSection) => s.items);
      assert items[0] == Map(DocsIn(docs, titles[0]), ItemOf);
    }
  }

  // Reading the sidebar from top to bottom is reading the documents stably sorted by section rank
  // and section title: none is lost, none repeated, and inside a section the given order stays.
  lemma GroupingIsSorting(docs: seq<DocEntry>, collate: Collation)
    requires TellsApart(collate, docs)
    ensures NavItems(Nav(docs, collate)) == Map(Sort(ByDocSection(collate), docs), ItemOf)
  {
    var titles := Sort(ByTitle(collate), FirstSeen(docs));
    TitlesPreordered(collate);
    SortMap(ByTitle(collate), BySection(collate), SectionOf(docs), FirstSeen(docs));
    FlattenBlocks(docs, titles);
    SortedTitles(docs, collate);
    BlocksSorted(docs, titles, collate);
    SortFacts(ByDocSection(collate), docs);
    forall y ensures TiedWith(ByDocSection(collate), Blocks(docs, titles), y)
      == TiedWith(ByDocSection(collate), Sort(ByDocSection(collate), docs), y)
    {
      BlocksTied(docs, titles, collate, y);
    }
    StableSortUnique(ByDocSection(collate), Blocks(docs, titles), Sort(ByDocSection(collate), docs));
  }

  lemma SortedTitles(docs: seq<DocEntry>, collate: Collation)
    requires TotalPreorder(collate)
    ensures var titles := Sort(ByTitle(collate), FirstSeen(docs));
      && Sorted(ByTitle(collate), titles) && Distinct(titles)
      && forall t :: t in titles <==> exists i :: 0 <= i < |docs| && docs[i].section == t
  {
    FirstSeenFacts(docs);
    TitlesPreordered(collate);
    SortFacts(ByTitle(collate), FirstSeen(docs));
    SameElements(FirstSeen(docs), Sort(ByTitle(collate), FirstSeen(docs)));
    DistinctBag(FirstSeen(docs), Sort(ByTitle(collate), FirstSeen(docs)));
  }

  lemma SameElements<T(!new)>(a: seq<T>, b: seq<T>)
    requires multiset(a) == multiset(b)
    ensures forall x :: x in a <==> x in b
  {
    assert forall x :: x in a <==> x in multiset(a);
    assert forall x :: x in b <==> x in multiset(b);
  }

  // ---- The links between pages.

  function FindRoute(items: seq<NavItem>, route: string): Option<nat> {
    if items == [] then None
    else if items[0].route == route then Some(0)
    else
      var rest := FindRoute(items[1..], route);
      if rest.Some? then Some(rest.value + 1) else None
  }

  // The pages before and after `current`; None is undefined.
  function AdjacentDocs(nav: seq<NavSection>, current: string): (Option<NavItem>, Option<NavItem>) {
    var items := NavItems(nav);
    var index := FindRoute(items, current);
    if index.None? then (None, None)
    else
      FindRouteHits(items, current);
      (if index.value > 0 then Some(items[index.value - 1]) else None,
       if index.value + 1 < |items| then Some(items[index.value + 1]) else None)
  }

  lemma {:induction false} FindRouteHits(items: seq<NavItem>, route: string)
    ensures var r := FindRoute(items, route);
      if r.None? then forall i :: 0 <= i < |items| ==> items[i].route != route
      else r.value < |items| && items[r.value].route == route && forall i :: 0 <= i < r.value ==> items[i].route != route
  {
    if items != [] && items[0].route != route {
      FindRouteHits(items[1..], route);
      var r := FindRoute(items[1..], route);
      if r.None? {
        assert forall i :: 1 <= i < |items| ==> items[i] == items[1..][i - 1];
      } else {
        assert forall i :: 1 <= i <= r.value ==> items[i] == items[1..][i - 1];
      }
    }
  }

  ghost predicate UniqueRoutes(items: seq<NavItem>) {
    forall i, j :: 0 <= i < j < |items| ==> items[i].route != items[j].route
  }

  // With unique routes prev and next undo each other along the sidebar, and are undefined exactly
  // at its two ends; a page that is not in the sidebar has neither.
  lemma PrevAndNextAreInverse(nav: seq<NavSection>, a: NavItem, b: NavItem)
    requires UniqueRoutes(NavItems(nav)) && a in NavItems(nav) && b in NavItems(nav)
    ensures AdjacentDocs(nav, a.route).1 == Some(b) <==> AdjacentDocs(nav, b.route).0 == Some(a)
    ensures AdjacentDocs(nav, a.route).0 == None <==> a == NavItems(nav)[0]
    ensures AdjacentDocs(nav, a.route).1 == None <==> a == NavItems(nav)[|NavItems(nav)| - 1]
  {
    var items := NavItems(nav);
    FindRouteHits(items, a.route);
    FindRouteHits(items, b.route);
    var i :| 0 <= i < |items| && items[i] == a;
    var j :| 0 <= j < |items| && items[j] == b;
    assert FindRoute(items, a.route) == Some(i) && FindRoute(items, b.route) == Some(j);
  }

  lemma RoutesOfPermutation(docs: seq<DocEntry>, sorted: seq<DocEntry>)
    requires multiset(sorted) == multiset(docs)
    requires forall i, j :: 0 <= i < j < |docs| ==> docs[i].route != docs[j].route
    ensures UniqueRoutes(Map(sorted, ItemOf))
  {
    forall i, j | 0 <= i < j < |sorted| ensures sorted[i].route != sorted[j].route {
      assert sorted[i] in multiset(docs) && sorted[j] in multiset(docs);
      var a :| 0 <= a < |docs| && docs[a] == sorted[i];
      var b :| 0 <= b < |docs| && docs[b] == sorted[j];
      if a == b {
        CountTwice(sorted, i, j);
        assert Distinct(docs);
        CountOnce(docs, sorted[i]);
      }
    }
  }

  // Documents with unique routes have a sidebar with unique routes.
  lemma SidebarRoutesUnique(docs: seq<DocEntry>, collate: Collation)
    requires TellsApart(collate, docs)
    requires forall i, j :: 0 <= i < j < |docs| ==> docs[i].route != docs[j].route
    ensures UniqueRoutes(NavItems(Nav(docs, collate)))
  {
    GroupingIsSorting(docs, collate);
    TitlesPreordered(collate);
    SortFacts(ByDocSection(collate), docs);
    RoutesOfPermutation(docs, Sort(ByDocSection(collate), docs));
  }

  lemma UnlistedHasNoNeighbours(nav: seq<NavSection>, route: string)
    ensures (forall i :: 0 <= i < |NavItems(nav)| ==> NavItems(nav)[i].route != route) ==>
      AdjacentDocs(nav, route) == (None, None)
  {
    FindRouteHits(NavItems(nav), route);
  }

  // ---- The sidebar in plain terms.

  // The six named sections, in their order, and then every other.
  lemma SectionsAreRanked(title: string)
    ensures SectionRank("Getting started") == 0 && SectionRank("Guides") == 1 && SectionRank("Migrate") == 2
    ensures SectionRank("Batteries") == 3 && SectionRank("Deploy") == 4 && SectionRank("Reference") == 5
    ensures title !in {"Getting started", "Guides", "Migrate", "Batteries", "Deploy", "Reference"} ==> SectionRank(title) == 6
  {
    var l0 := SECTION_ORDER;
    var l1, l2 := ["Guides", "Migrate", "Batteries", "Deploy", "Reference"], ["Migrate", "Batteries", "Deploy", "Reference"];
    var l3, l4, l5 := ["Batteries", "Deploy", "Reference"], ["Deploy", "Reference"], ["Reference"];
    assert l0[1..] == l1 && l1[1..] == l2 && l2[1..] == l3 && l3[1..] == l4 && l4[1..] == l5 && l5[1..] == [];
    forall x ensures IndexIn(l0, x) == if x == "Getting started" then 0 else 1 + IndexIn(l1, x) {
    }
    forall x ensures IndexIn(l3, x) == if x == "Batteries" then 0 else if x == "Deploy" then 1 else if x == "Reference" then 2 else 3 {
      assert IndexIn(l4, x) == if x == "Deploy" then 0 else 1 + IndexIn(l5, x);
    }
    forall x ensures IndexIn(l1, x) == if x == "Guides" then 0 else if x == "Migrate" then 1 else 2 + IndexIn(l3, x) {
      assert IndexIn(l2, x) == if x == "Migrate" then 0 else 1 + IndexIn(l3, x);
    }
  }

  // Sections stand by rank, and sections of one rank as the locale sorts their titles; no title twice.
  lemma SectionsAreOrdered(docs: seq<DocEntry>, collate: Collation)
    requires TotalPreorder(collate)
    ensures var nav := Nav(docs, collate);
      forall i, j :: 0 <= i < j < |nav| ==>
        && nav[i].title != nav[j].title
        && (SectionRank(nav[i].title) < SectionRank(nav[j].title)
            || (SectionRank(nav[i].title) == SectionRank(nav[j].title) && collate(nav[i].title, nav[j].title)))
  {
    SortedTitles(docs, collate);
    SortMap(ByTitle(collate), BySection(collate), SectionOf(docs), FirstSeen(docs));
    var nav, titles := Nav(docs, collate), Sort(ByTitle(collate), FirstSeen(docs));
    forall i, j | 0 <= i < j < |nav|
      ensures nav[i].title != nav[j].title && TitleLe(collate, nav[i].title, nav[j].title)
    {
      assert ByTitle(collate)(titles[i], titles[j]);
    }
  }

  // The k-th item is the k-th document of the sorted list: its route, its title, and for a label
  // the short one, if it has one, else the title.
  lemma ItemIsDocument(docs: seq<DocEntry>, collate: Collation, k: nat)
    requires TellsApart(collate, docs) && k < |docs|
    ensures var sorted, items := Sort(ByDocSection(collate), docs), NavItems(Nav(docs, collate));
      && |sorted| == |items| == |docs|
      && items[k].route == sorted[k].route && items[k].title == sorted[k].title
      && (sorted[k].navLabel.Some? ==> items[k].text == sorted[k].navLabel.value)
      && (sorted[k].navLabel.None? ==> items[k].text == sorted[k].title)
  {
    GroupingIsSorting(docs, collate);
    SortedLength(ByDocSection(collate), docs);
  }

  // The neighbours of the k-th item are the items before and behind it.
  lemma NeighboursAre(nav: seq<NavSection>, k: nat)
    requires UniqueRoutes(NavItems(nav)) && k < |NavItems(nav)|
    ensures var items := NavItems(nav);
      AdjacentDocs(nav, items[k].route) == (if k == 0 then None else Some(items[k - 1]), if k == |items| - 1 then None else Some(items[k + 1]))
  {
    var items := NavItems(nav);
    FindRouteHits(items, items[k].route);
    assert FindRoute(items, items[k].route) == Some(k);
  }
}
