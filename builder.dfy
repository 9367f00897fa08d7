/**
 * The skeleton builder: `createChapters`, `createSongs` and `createLilas`.
 * Each first checks the configured main book and then creates nodes and
 * their aliases in a fixed order.  That order is captured as a plan, a
 * list of (node, alias) items computed from the configuration alone.
 * Each builder method is proved to carry out its plan, and the lemmas
 * state what the plans contain.
 */
module Builder {
  import opened Base
  import opened Slugs
  import opened Content
  import opened Resolver

  /** The `structure.<type>` block of the module's settings.  `chapters`
      is the chapter count of a single-level book.  `perDivision` is the
      `chapters` table of a divided book, keyed by song number or lila
      name. */
  datatype BookSettings = BookSettings(mainBookNid: nat, chapters: Option<int>, perDivision: map<string, int>)

  type Settings = map<string, BookSettings>

  /** A missing block reads as empty. */
  function SettingsFor(settings: Settings, bookType: string): BookSettings
  {
    if bookType in settings then settings[bookType] else BookSettings(0, None, map[])
  }

  /** One node to create, with the alias to give it. */
  datatype Item = Item(node: Node, alias: string)

  /** What a builder does: fail before touching the store, or create these
      items in this order. */
  datatype Plan = Refuse(failure: Failure) | Build(items: seq<Item>)

  // ---------------------------------------------------------------------
  // Carrying out a list of items

  /** The node map after creating `items` under consecutive ids from `start`. */
  function Placed(nodes: map<nat, Node>, start: nat, items: seq<Item>): map<nat, Node>
  {
    if items == [] then nodes
    else Placed(nodes, start, items[..|items| - 1])[start + |items| - 1 := items[|items| - 1].node]
  }

  /** The alias table after `createPathAlias` for each item in turn. */
  function AliasesAfter(rows: seq<PathAlias>, start: nat, items: seq<Item>): seq<PathAlias>
  {
    if items == [] then rows
    else WithAlias(AliasesAfter(rows, start, items[..|items| - 1]), start + |items| - 1, items[|items| - 1].alias)
  }

  /** Item `k` lands under id `start + k`; every other node stays as it was. */
  lemma {:induction false} PlacedFacts(nodes: map<nat, Node>, start: nat, items: seq<Item>)
    ensures var r := Placed(nodes, start, items);
      && (forall k :: 0 <= k < |items| ==> start + k in r && r[start + k] == items[k].node)
      && (forall id :: id in r <==> id in nodes || start <= id < start + |items|)
      && (forall id :: id in nodes && !(start <= id < start + |items|) ==> r[id] == nodes[id])
  {
    if items != [] {
      var front := items[..|items| - 1];
      PlacedFacts(nodes, start, front);
      assert forall k :: 0 <= k < |front| ==> front[k] == items[k];
    }
  }

  /** Item `k` lands under id `start + k`. */
  lemma {:induction false} PlacedAtIndex(nodes: map<nat, Node>, start: nat, items: seq<Item>, k: nat)
    requires k < |items|
    ensures start + k in Placed(nodes, start, items) && Placed(nodes, start, items)[start + k] == items[k].node
    decreases |items|
  {
    var front := items[..|items| - 1];
    if k < |front| {
      PlacedAtIndex(nodes, start, front, k);
      assert front[k] == items[k];
    }
  }

  /** Ids below `start` are untouched by creating items from `start` on. */
  lemma {:induction false} PlacedBelow(nodes: map<nat, Node>, start: nat, items: seq<Item>, id: nat)
    requires id < start
    ensures id in Placed(nodes, start, items) <==> id in nodes
    ensures id in nodes ==> Placed(nodes, start, items)[id] == nodes[id]
    decreases |items|
  {
    if items != [] {
      PlacedBelow(nodes, start, items[..|items| - 1], id);
    }
  }

  /** The alias table only grows, and afterwards every item's alias exists. */
  lemma {:induction false} AliasesAfterFacts(rows: seq<PathAlias>, start: nat, items: seq<Item>)
    ensures var r := AliasesAfter(rows, start, items);
      && |rows| <= |r| && r[..|rows|] == rows
      && forall k :: 0 <= k < |items| ==> AliasTaken(r, items[k].alias)
  {
    if items != [] {
      var front := items[..|items| - 1];
      AliasesAfterFacts(rows, start, front);
      var before := AliasesAfter(rows, start, front);
      var r := AliasesAfter(rows, start, items);
      assert forall k :: 0 <= k < |front| ==> front[k] == items[k];
      forall a | AliasTaken(before, a) ensures AliasTaken(r, a) {
        var k :| 0 <= k < |before| && before[k].alias == a;
        assert r[k] == before[k];
      }
    }
  }

  /** Creating one more item: one more node, one more `createPathAlias`. */
  lemma {:induction false} Snoc(nodes: map<nat, Node>, rows: seq<PathAlias>, start: nat, items: seq<Item>, x: Item)
    ensures Placed(nodes, start, items + [x]) == Placed(nodes, start, items)[start + |items| := x.node]
    ensures AliasesAfter(rows, start, items + [x]) == WithAlias(AliasesAfter(rows, start, items), start + |items|, x.alias)
  {
    SnocPlaced(nodes, start, items, x, start + |items|);
    SnocAliases(rows, start, items, x, start + |items|);
  }

  lemma {:induction false} SnocPlaced(nodes: map<nat, Node>, start: nat, items: seq<Item>, x: Item, id: nat)
    requires id == start + |items|
    ensures Placed(nodes, start, items + [x]) == Placed(nodes, start, items)[id := x.node]
  {
    assert (items + [x])[..|items|] == items;
  }

  lemma {:induction false} SnocAliases(rows: seq<PathAlias>, start: nat, items: seq<Item>, x: Item, id: nat)
    requires id == start + |items|
    ensures AliasesAfter(rows, start, items + [x]) == WithAlias(AliasesAfter(rows, start, items), id, x.alias)
  {
    assert (items + [x])[..|items|] == items;
  }

  /** Creating the items of a rerun whose aliases all exist adds no alias. */
  lemma {:induction false} NothingNew(rows: seq<PathAlias>, start: nat, items: seq<Item>)
    requires forall k :: 0 <= k < |items| ==> AliasTaken(rows, items[k].alias)
    ensures AliasesAfter(rows, start, items) == rows
  {
    if items != [] {
      var front := items[..|items| - 1];
      NothingNew(rows, start, front);
    }
  }

  /** Creating `first` and then `second` is creating `first + second`. */
  lemma Append(nodes: map<nat, Node>, rows: seq<PathAlias>, start: nat, first: seq<Item>, second: seq<Item>)
    ensures Placed(Placed(nodes, start, first), start + |first|, second) == Placed(nodes, start, first + second)
    ensures AliasesAfter(AliasesAfter(rows, start, first), start + |first|, second) == AliasesAfter(rows, start, first + second)
  {
    AppendPlaced(nodes, start, first, second);
    AppendAliases(rows, start, first, second);
  }

  lemma {:induction false} AppendPlaced(nodes: map<nat, Node>, start: nat, first: seq<Item>, second: seq<Item>)
    ensures Placed(Placed(nodes, start, first), start + |first|, second) == Placed(nodes, start, first + second)
  {
    if second == [] {
      assert first + second == first;
    } else {
      var front := second[..|second| - 1];
      var x := second[|second| - 1];
      var id := start + |first| + |front|;
      var before := Placed(nodes, start, first);
      assert second == front + [x];
      assert first + second == (first + front) + [x];
      calc {
        Placed(before, start + |first|, second);
        Placed(before, start + |first|, front + [x]);
        { SnocPlaced(before, start + |first|, front, x, id); }
        Placed(before, start + |first|, front)[id := x.node];
        { AppendPlaced(nodes, start, first, front); }
        Placed(nodes, start, first + front)[id := x.node];
        { SnocPlaced(nodes, start, first + front, x, id); }
        Placed(nodes, start, (first + front) + [x]);
        Placed(nodes, start, first + second);
      }
    }
  }

  lemma {:induction false} AppendAliases(rows: seq<PathAlias>, start: nat, first: seq<Item>, second: seq<Item>)
    ensures AliasesAfter(AliasesAfter(rows, start, first), start + |first|, second) == AliasesAfter(rows, start, first + second)
  {
    if second == [] {
      assert first + second == first;
    } else {
      var front := second[..|second| - 1];
      var x := second[|second| - 1];
      var id := start + |first| + |front|;
      var before := AliasesAfter(rows, start, first);
      assert second == front + [x];
      assert first + second == (first + front) + [x];
      calc {
        AliasesAfter(before, start + |first|, second);
        AliasesAfter(before, start + |first|, front + [x]);
        { SnocAliases(before, start + |first|, front, x, id); }
        WithAlias(AliasesAfter(before, start + |first|, front), id, x.alias);
        { AppendAliases(rows, start, first, front); }
        WithAlias(AliasesAfter(rows, start, first + front), id, x.alias);
        { SnocAliases(rows, start, first + front, x, id); }
        AliasesAfter(rows, start, (first + front) + [x]);
        AliasesAfter(rows, start, first + second);
      }
    }
  }

  function AliasSet(items: seq<Item>): set<string>
  {
    set x | x in items :: x.alias
  }

  /** Every alias of `second` is also an alias of `first`. */
  predicate Covers(first: seq<Item>, second: seq<Item>)
  {
    forall k :: 0 <= k < |second| ==> second[k].alias in AliasSet(first)
  }

  lemma SameAliasesCover(first: seq<Item>, second: seq<Item>)
    requires |first| == |second|
    requires forall k :: 0 <= k < |second| ==> first[k].alias == second[k].alias
    ensures Covers(first, second)
  {
    forall k | 0 <= k < |second| ensures second[k].alias in AliasSet(first) {
      assert first[k] in first;
    }
  }

  /** Running a build a second time, with items whose aliases the first
      run already created, leaves the alias table as the first run left it. */
  lemma {:induction false} RerunAddsNoAliases(rows: seq<PathAlias>, s1: nat, first: seq<Item>, s2: nat, second: seq<Item>)
    requires Covers(first, second)
    ensures AliasesAfter(AliasesAfter(rows, s1, first), s2, second) == AliasesAfter(rows, s1, first)
  {
    var r := AliasesAfter(rows, s1, first);
    AliasesAfterFacts(rows, s1, first);
    forall k | 0 <= k < |second| ensures AliasTaken(r, second[k].alias) {
      var x :| x in first && x.alias == second[k].alias;
      var j :| 0 <= j < |first| && first[j] == x;
    }
    NothingNew(r, s2, second);
  }

  /** The state change a builder makes when it follows plan `p`. */
  twostate predicate Performed(site: Site, p: Plan, out: Outcome)
    reads site
  {
    && site.links == old(site.links) && site.nextUuid == old(site.nextUuid)
    && (p.Refuse? ==>
        && out == Fail(p.failure)
        && site.nodes == old(site.nodes) && site.nextId == old(site.nextId) && site.aliases == old(site.aliases))
    && (p.Build? ==>
        && out == Pass
        && site.nodes == Placed(old(site.nodes), old(site.nextId), p.items)
        && site.nextId == old(site.nextId) + |p.items|
        && site.aliases == AliasesAfter(old(site.aliases), old(site.nextId), p.items))
  }

  // ---------------------------------------------------------------------
  // The main book

  /** The two checks before any creation: a configured main book id, and a
      node under that id. */
  function MainBookCheck(nodes: map<nat, Node>, bs: BookSettings, tag: string): (r: Option<Failure>)
    ensures r.None? <==> bs.mainBookNid != 0 && bs.mainBookNid in nodes
    ensures r.Some? ==> r.value.Message().Some?
  {
    if bs.mainBookNid == 0 then Some(NotConfigured(tag))
    else if bs.mainBookNid !in nodes then Some(MainBookMissing(tag))
    else None
  }

  /** `$main_book->book['bid'] ?? $main_book->id()`: the main book's own
      outline when it has one (`??` keeps even a 0 `bid`), else its id. */
  function BookId(mainId: nat, main: Node): (bid: nat)
    ensures main.book.None? ==> bid == mainId
    ensures main.book.Some? ==> bid == main.book.value.bid
  {
    match main.book
    case None => mainId
    case Some(link) => link.bid
  }

  function ChapterTitle(i: int): Text
  {
    Text("Глава @num", [IntText(i)])
  }

  // ---------------------------------------------------------------------
  // createChapters

  /** `$config['chapters'] ?? $book_config['chapters'] ?? 0`, as the number
      of rounds of `for ($i = 1; $i <= $count; $i++)`. */
  function ChapterCount(config: Option<int>, setting: Option<int>): (n: nat)
    ensures config.Some? ==> n == if config.value < 0 then 0 else config.value
    ensures config.None? && setting.Some? ==> n == if setting.value < 0 then 0 else setting.value
    ensures config.None? && setting.None? ==> n == 0
  {
    var c := if config.Some? then config.value else if setting.Some? then setting.value else 0;
    if c < 0 then 0 else c
  }

  /** Chapter `i` of a single-level book. */
  function ChapterNode(bookType: string, i: nat, main: nat, bid: nat): Node
  {
    Node(ChapterBundle(bookType), ChapterTitle(i), Some(i), None, 1,
         if bookType == "bg" then Some(main) else None, None, None,
         Some(BookLink(bid, main, true, i)))
  }

  function ChapterItems(bookType: string, main: nat, bid: nat, n: nat): (r: seq<Item>)
    ensures |r| == n
  {
    if n == 0 then []
    else ChapterItems(bookType, main, bid, n - 1) + [ChapterItem(bookType, main, bid, n)]
  }

  function ChapterItem(bookType: string, main: nat, bid: nat, i: nat): Item
  {
    Item(ChapterNode(bookType, i, main, bid), ChapterAlias(bookType, i))
  }

  /** Item `k` of a chapter plan is chapter `k + 1`: node numbered, weighted
      and aliased `k + 1`, under the main book. */
  lemma {:induction false} ChapterItemsAt(bookType: string, main: nat, bid: nat, n: nat)
    ensures forall k :: 0 <= k < n ==> ChapterItems(bookType, main, bid, n)[k] == ChapterItem(bookType, main, bid, k + 1)
  {
    if n > 0 {
      ChapterItemsAt(bookType, main, bid, n - 1);
    }
  }

  /** The plan of `createChapters(bookType, config)`. */
  function ChaptersPlan(nodes: map<nat, Node>, settings: Settings, bookType: string, config: Option<int>): (p: Plan)
    ensures var bs := SettingsFor(settings, bookType);
      && (bs.mainBookNid == 0 ==> p == Refuse(NotConfigured(bookType)))
      && (bs.mainBookNid != 0 && bs.mainBookNid !in nodes ==> p == Refuse(MainBookMissing(bookType)))
      && (p.Build? ==> |p.items| == ChapterCount(config, bs.chapters))
  {
    var bs := SettingsFor(settings, bookType);
    var check := MainBookCheck(nodes, bs, bookType);
    if check.Some? then Refuse(check.value)
    else
      var main := bs.mainBookNid;
      Build(ChapterItems(bookType, main, BookId(main, nodes[main]), ChapterCount(config, bs.chapters)))
  }

  /** `createChapters`: chapters 1..count under the main book, each with
      the alias `/books/<type>/<i>`. */
  method CreateChapters(site: Site, settings: Settings, bookType: string, config: Option<int>) returns (out: Outcome)
    requires site.Valid()
    modifies site
    ensures site.Valid()
    ensures Performed(site, ChaptersPlan(old(site.nodes), settings, bookType, config), out)
  {
    var bs := SettingsFor(settings, bookType);
    if bs.mainBookNid == 0 {
      return Fail(NotConfigured(bookType));
    }
    if bs.mainBookNid !in site.nodes {
      return Fail(MainBookMissing(bookType));
    }
    var main := bs.mainBookNid;
    var bid := BookId(main, site.nodes[main]);
    var count := if config.Some? then config.value else if bs.chapters.Some? then bs.chapters.value else 0;
    ghost var n := ChapterCount(config, bs.chapters);
    ghost var start := site.nextId;
    ghost var nodes0 := site.nodes;
    ghost var rows0 := site.aliases;
    var i := 1;
    ghost var done: seq<Item> := [];
    while i <= count
      invariant 1 <= i <= n + 1
      invariant done == ChapterItems(bookType, main, bid, i - 1)
      invariant site.Valid()
      invariant site.nodes == Placed(nodes0, start, done)
      invariant site.nextId == start + |done|
      invariant site.aliases == AliasesAfter(rows0, start, done)
      invariant site.links == old(site.links) && site.nextUuid == old(site.nextUuid)
    {
      var item := ChapterItem(bookType, main, bid, i);
      var _ := PlaceItem(site, item, nodes0, rows0, start, done);
      done := done + [item];
      i := i + 1;
    }
    out := Pass;
  }

  /** On a store without chapters of this type, chapter `i` of a fresh
      build is the one `findChapter` returns for number `i`. */
  lemma {:induction false} BuiltChapterIsFound(nodes: map<nat, Node>, start: nat, bookType: string, main: nat, bid: nat, n: nat, i: nat)
    requires forall id :: id in nodes ==> id < start && nodes[id].bundle != ChapterBundle(bookType)
    requires 1 <= i <= n
    ensures FindChapter(Placed(nodes, start, ChapterItems(bookType, main, bid, n)), start + n, bookType, i)
      == Some(start + i - 1)
  {
    var items := ChapterItems(bookType, main, bid, n);
    PlacedFacts(nodes, start, items);
    ChapterItemsAt(bookType, main, bid, n);
    FoundAmongPlaced(nodes, Placed(nodes, start, items), start, items, bookType, i);
  }

  /** The same, for any map laid out as `Placed` lays it out and any item
      list whose item `k` is chapter `k + 1`. */
  lemma FoundAmongPlaced(nodes: map<nat, Node>, after: map<nat, Node>, start: nat, items: seq<Item>, bookType: string, i: nat)
    requires forall id :: id in nodes ==> id < start && nodes[id].bundle != ChapterBundle(bookType)
    requires 1 <= i <= |items|
    requires forall k :: 0 <= k < |items| ==> start + k in after && after[start + k] == items[k].node
    requires forall id :: id in after <==> id in nodes || start <= id < start + |items|
    requires forall id :: id in nodes && !(start <= id < start + |items|) ==> after[id] == nodes[id]
    requires forall k :: 0 <= k < |items| ==> items[k].node.bundle == ChapterBundle(bookType) && items[k].node.number == Some(k + 1)
    ensures FindChapter(after, start + |items|, bookType, i) == Some(start + i - 1)
  {
    var want := start + (i - 1);
    assert after[want] == items[i - 1].node;
    forall id: nat | id < want
      ensures !IsChapter(after, id, bookType, i)
    {
      if id in after && id >= start {
        var k: nat := id - start;
        assert after[id] == items[k].node;
      }
    }
    FirstChapterIs(after, start + |items|, bookType, i, want);
  }

  /** `findChapter` returns the least matching id below its bound. */
  lemma FirstChapterIs(nodes: map<nat, Node>, hi: nat, bookType: string, number: int, id: nat)
    requires id < hi && IsChapter(nodes, id, bookType, number)
    requires forall j: nat :: j < id ==> !IsChapter(nodes, j, bookType, number)
    ensures FindChapter(nodes, hi, bookType, number) == Some(id)
  {
    var r := FindChapter(nodes, hi, bookType, number);
    assert r.Some?;
  }

  /** Running `createChapters` again with the same count adds no alias,
      but creates every chapter node again. */
  lemma {:induction false} ChaptersRerun(n1: map<nat, Node>, n2: map<nat, Node>, settings: Settings, bookType: string, config: Option<int>,
                      rows: seq<PathAlias>, s1: nat, s2: nat)
    requires ChaptersPlan(n1, settings, bookType, config).Build?
    requires ChaptersPlan(n2, settings, bookType, config).Build?
    ensures var first := ChaptersPlan(n1, settings, bookType, config).items;
      var second := ChaptersPlan(n2, settings, bookType, config).items;
      && AliasesAfter(AliasesAfter(rows, s1, first), s2, second) == AliasesAfter(rows, s1, first)
      && |second| == |first| == ChapterCount(config, SettingsFor(settings, bookType).chapters)
  {
    var bs := SettingsFor(settings, bookType);
    var main := bs.mainBookNid;
    var count := ChapterCount(config, bs.chapters);
    var first := ChaptersPlan(n1, settings, bookType, config).items;
    var second := ChaptersPlan(n2, settings, bookType, config).items;
    assert first == ChapterItems(bookType, main, BookId(main, n1[main]), count);
    assert second == ChapterItems(bookType, main, BookId(main, n2[main]), count);
    ChapterItemsAt(bookType, main, BookId(main, n1[main]), count);
    ChapterItemsAt(bookType, main, BookId(main, n2[main]), count);
    forall k | 0 <= k < |second| ensures first[k].alias == second[k].alias {
      assert first[k] == ChapterItem(bookType, main, BookId(main, n1[main]), k + 1);
      assert second[k] == ChapterItem(bookType, main, BookId(main, n2[main]), k + 1);
    }
    SameAliasesCover(first, second);
    RerunAddsNoAliases(rows, s1, first, s2, second);
  }

  // ---------------------------------------------------------------------
  // createSongs and createLilas

  /** A division of a divided book: its `field_number`, the slug its
      aliases and its chapter-count key use, and its title. */
  datatype Division = Division(number: nat, slug: string, title: Text)

  function SongTitle(i: nat): Text
  {
    Text("Песнь @num", [IntText(i)])
  }

  function SongList(n: nat): (r: seq<Division>)
    ensures |r| == n
    ensures forall k :: 0 <= k < n ==> r[k] == Division(k + 1, Decimal(k + 1), SongTitle(k + 1))
  {
    if n == 0 then [] else SongList(n - 1) + [Division(n, Decimal(n), SongTitle(n))]
  }

  /** The twelve songs of the Srimad Bhagavatam. */
  function Songs(): seq<Division>
  {
    SongList(12)
  }

  /** The `$lilas` table of the Chaitanya Charitamrita. */
  function Lilas(): seq<Division>
  {
    [Division(1, "adi", Text("Ади-лила", [])),
     Division(2, "madhya", Text("Мадхья-лила", [])),
     Division(3, "antya", Text("Антья-лила", []))]
  }

  /** The lila table of `createLilas` and the lila map of `findCcChapter`
      agree: each name maps to its number, and only those names map. */
  lemma LilaTablesAgree(name: string)
    ensures forall k :: 0 <= k < |Lilas()| ==> LilaOrdinal(Lilas()[k].slug) == Some(Lilas()[k].number)
    ensures LilaOrdinal(name).Some? ==> exists k :: 0 <= k < |Lilas()| && Lilas()[k].slug == name
  {
    if LilaOrdinal(name).Some? {
      if name == "adi" {
        assert Lilas()[0].slug == name;
      } else if name == "madhya" {
        assert Lilas()[1].slug == name;
      } else {
        assert Lilas()[2].slug == name;
      }
    }
  }

  function DivisionBundle(bookType: string): string
  {
    if bookType == "sb" then "sb_song" else "cc_lila"
  }

  function DivisionNode(bookType: string, d: Division, main: nat, bid: nat): Node
  {
    Node(DivisionBundle(bookType), d.title, Some(d.number), Some(d.title), 1, None, None, None,
         Some(BookLink(bid, main, true, d.number)))
  }

  function DivisionAlias(bookType: string, d: Division): string
  {
    "/books/" + bookType + "/" + d.slug
  }

  /** Chapter `j` of the division with node id `div`; songs are referenced
      through `field_song_ref`, lilas through `field_lila_ref`. */
  function DivisionChapterNode(bookType: string, div: nat, j: nat, bid: nat): Node
  {
    Node(ChapterBundle(bookType), ChapterTitle(j), Some(j), None, 1, None,
         if bookType == "sb" then Some(div) else None,
         if bookType == "sb" then None else Some(div),
         Some(BookLink(bid, div, true, j)))
  }

  /** `$settings['chapters'][<key>] ?? 0`, as a number of loop rounds. */
  function CountOf(counts: map<string, int>, key: string): (n: nat)
    ensures key !in counts ==> n == 0
    ensures key in counts && counts[key] >= 0 ==> n == counts[key]
  {
    if key in counts && counts[key] > 0 then counts[key] else 0
  }

  function DivisionChapterItem(bookType: string, d: Division, div: nat, bid: nat, j: nat): Item
  {
    Item(DivisionChapterNode(bookType, div, j, bid), DivisionChapterAlias(bookType, d.slug, j))
  }

  /** Chapters 1..m of the division placed under `div`. */
  function DivisionChapterItems(bookType: string, d: Division, div: nat, bid: nat, m: nat): seq<Item>
  {
    seq(m, k requires 0 <= k => DivisionChapterItem(bookType, d, div, bid, k + 1))
  }

  lemma DivisionChapterItemsSnoc(bookType: string, d: Division, div: nat, bid: nat, j: nat)
    requires 0 < j
    ensures DivisionChapterItems(bookType, d, div, bid, j)
      == DivisionChapterItems(bookType, d, div, bid, j - 1) + [DivisionChapterItem(bookType, d, div, bid, j)]
  {
  }

  /** The items of the first `n` divisions: each division followed by its
      chapters, whose parent id is where that division is placed. */
  function DivisionItems(bookType: string, divs: seq<Division>, main: nat, bid: nat, counts: map<string, int>,
                         start: nat, n: nat): seq<Item>
    requires n <= |divs|
  {
    if n == 0 then []
    else
      var before := DivisionItems(bookType, divs, main, bid, counts, start, n - 1);
      var d := divs[n - 1];
      before + [Item(DivisionNode(bookType, d, main, bid), DivisionAlias(bookType, d))]
        + DivisionChapterItems(bookType, d, start + |before|, bid, CountOf(counts, d.slug))
  }

  lemma DivisionItemsStep(bookType: string, divs: seq<Division>, main: nat, bid: nat, counts: map<string, int>,
                          start: nat, k: nat)
    requires k < |divs|
    ensures var before := DivisionItems(bookType, divs, main, bid, counts, start, k);
      DivisionItems(bookType, divs, main, bid, counts, start, k + 1)
        == before + [Item(DivisionNode(bookType, divs[k], main, bid), DivisionAlias(bookType, divs[k]))]
           + DivisionChapterItems(bookType, divs[k], start + |before|, bid, CountOf(counts, divs[k].slug))
  {
  }

  /** Where division `k` lands in a divided book's plan: after every
      earlier division and its chapters. */
  function Offset(divs: seq<Division>, counts: map<string, int>, k: nat): nat
    requires k <= |divs|
  {
    if k == 0 then 0 else Offset(divs, counts, k - 1) + 1 + CountOf(counts, divs[k - 1].slug)
  }

  /** Each division and its chapters come before any later division. */
  lemma {:induction false} OffsetsIncrease(divs: seq<Division>, counts: map<string, int>, q: nat, k: nat)
    requires q < k <= |divs|
    ensures Offset(divs, counts, q) + CountOf(counts, divs[q].slug) < Offset(divs, counts, k)
    decreases k
  {
    if q < k - 1 {
      OffsetsIncrease(divs, counts, q, k - 1);
    }
  }

  /** The division whose block (the division and its chapters) holds
      position `m` of the plan of the first `n` divisions. */
  function OwnerOf(divs: seq<Division>, counts: map<string, int>, n: nat, m: nat): (q: nat)
    requires n <= |divs| && m < Offset(divs, counts, n)
    ensures q < n && Offset(divs, counts, q) <= m <= Offset(divs, counts, q) + CountOf(counts, divs[q].slug)
  {
    if m >= Offset(divs, counts, n - 1) then n - 1 else OwnerOf(divs, counts, n - 1, m)
  }

  /** The plan of the first `n` divisions is as long as their blocks. */
  lemma {:induction false} DivisionItemsLength(bookType: string, divs: seq<Division>, main: nat, bid: nat,
                                               counts: map<string, int>, start: nat, n: nat)
    requires n <= |divs|
    ensures |DivisionItems(bookType, divs, main, bid, counts, start, n)| == Offset(divs, counts, n)
  {
    if n > 0 {
      DivisionItemsLength(bookType, divs, main, bid, counts, start, n - 1);
    }
  }

  /** A later division only appends to the plan of the earlier ones. */
  lemma DivisionItemsGrow(bookType: string, divs: seq<Division>, main: nat, bid: nat,
                          counts: map<string, int>, start: nat, n: nat, m: nat)
    requires 0 < n <= |divs| && m < |DivisionItems(bookType, divs, main, bid, counts, start, n - 1)|
    ensures m < |DivisionItems(bookType, divs, main, bid, counts, start, n)|
    ensures DivisionItems(bookType, divs, main, bid, counts, start, n)[m] == DivisionItems(bookType, divs, main, bid, counts, start, n - 1)[m]
  {
    DivisionItemsStep(bookType, divs, main, bid, counts, start, n - 1);
  }

  /** Division `k` of a divided book's plan sits at its offset: under the
      main book, numbered and weighted with its number, with its alias. */
  lemma {:induction false} DivisionItemAt(bookType: string, divs: seq<Division>, main: nat, bid: nat,
                                          counts: map<string, int>, start: nat, n: nat, k: nat)
    requires k < n <= |divs|
    ensures var items := DivisionItems(bookType, divs, main, bid, counts, start, n);
      && Offset(divs, counts, k) < |items|
      && items[Offset(divs, counts, k)] == Item(DivisionNode(bookType, divs[k], main, bid), DivisionAlias(bookType, divs[k]))
    decreases n
  {
    DivisionItemsLength(bookType, divs, main, bid, counts, start, n);
    DivisionItemsLength(bookType, divs, main, bid, counts, start, n - 1);
    DivisionItemsStep(bookType, divs, main, bid, counts, start, n - 1);
    if k < n - 1 {
      DivisionItemAt(bookType, divs, main, bid, counts, start, n - 1, k);
      DivisionItemsGrow(bookType, divs, main, bid, counts, start, n, Offset(divs, counts, k));
    }
  }

  /** Chapter `j` of division `k` of a divided book's plan sits `j` places
      after the division: numbered and weighted `j`, under and referring to
      the id the division gets, with the alias `<division>/<j>`. */
  lemma {:induction false} DivisionChapterItemAt(bookType: string, divs: seq<Division>, main: nat, bid: nat,
                                                 counts: map<string, int>, start: nat, n: nat, k: nat, j: nat)
    requires k < n <= |divs| && 1 <= j <= CountOf(counts, divs[k].slug)
    ensures var items := DivisionItems(bookType, divs, main, bid, counts, start, n);
      && Offset(divs, counts, k) + j < |items|
      && items[Offset(divs, counts, k) + j] == DivisionChapterItem(bookType, divs[k], start + Offset(divs, counts, k), bid, j)
    decreases n
  {
    if k < n - 1 {
      DivisionChapterItemAt(bookType, divs, main, bid, counts, start, n - 1, k, j);
      DivisionItemsGrow(bookType, divs, main, bid, counts, start, n, Offset(divs, counts, k) + j);
    } else {
      LastDivisionChapterItem(bookType, divs, main, bid, counts, start, k, j);
    }
  }

  /** The chapters of the last division of a plan follow it directly. */
  lemma LastDivisionChapterItem(bookType: string, divs: seq<Division>, main: nat, bid: nat,
                                counts: map<string, int>, start: nat, k: nat, j: nat)
    requires k < |divs| && 1 <= j <= CountOf(counts, divs[k].slug)
    ensures var items := DivisionItems(bookType, divs, main, bid, counts, start, k + 1);
      && Offset(divs, counts, k) + j < |items|
      && items[Offset(divs, counts, k) + j] == DivisionChapterItem(bookType, divs[k], start + Offset(divs, counts, k), bid, j)
  {
    DivisionItemsLength(bookType, divs, main, bid, counts, start, k);
    DivisionItemsStep(bookType, divs, main, bid, counts, start, k);
  }

  /** A node's reference to its division: `field_song_ref` for the
      Srimad-Bhagavatam, `field_lila_ref` for the Chaitanya Charitamrita. */
  function RefOf(bookType: string, n: Node): Option<nat>
  {
    if bookType == "sb" then n.songRef else n.lilaRef
  }

  /** The node a divided book's plan creates at position `m`: the division
      owning that position, or one of its chapters under the id it gets. */
  function PlanNode(bookType: string, divs: seq<Division>, main: nat, bid: nat, counts: map<string, int>,
                    start: nat, m: nat): Node
    requires m < Offset(divs, counts, |divs|)
  {
    var p := OwnerOf(divs, counts, |divs|, m);
    if m == Offset(divs, counts, p) then DivisionNode(bookType, divs[p], main, bid)
    else DivisionChapterNode(bookType, start + Offset(divs, counts, p), m - Offset(divs, counts, p), bid)
  }

  /** The node at position `m` of a fresh build of all divisions. */
  lemma {:induction false} PlacedAt(bookType: string, divs: seq<Division>, nodes: map<nat, Node>, start: nat, main: nat,
                 bid: nat, counts: map<string, int>, m: nat)
    requires m < Offset(divs, counts, |divs|)
    ensures var after := Placed(nodes, start, DivisionItems(bookType, divs, main, bid, counts, start, |divs|));
      start + m in after && after[start + m] == PlanNode(bookType, divs, main, bid, counts, start, m)
  {
    var p := OwnerOf(divs, counts, |divs|, m);
    if m == Offset(divs, counts, p) {
      PlacedDivisionAt(bookType, divs, nodes, start, main, bid, counts, p);
    } else {
      PlacedChapterAt(bookType, divs, nodes, start, main, bid, counts, p, m);
    }
  }

  lemma {:induction false} PlacedDivisionAt(bookType: string, divs: seq<Division>, nodes: map<nat, Node>, start: nat, main: nat,
                         bid: nat, counts: map<string, int>, p: nat)
    requires p < |divs|
    ensures Offset(divs, counts, p) < Offset(divs, counts, |divs|)
    ensures var after := Placed(nodes, start, DivisionItems(bookType, divs, main, bid, counts, start, |divs|));
      && start + Offset(divs, counts, p) in after
      && after[start + Offset(divs, counts, p)] == PlanNode(bookType, divs, main, bid, counts, start, Offset(divs, counts, p))
  {
    var items := DivisionItems(bookType, divs, main, bid, counts, start, |divs|);
    DivisionPlanNode(bookType, divs, main, bid, counts, start, p);
    DivisionItemsLength(bookType, divs, main, bid, counts, start, |divs|);
    DivisionItemAt(bookType, divs, main, bid, counts, start, |divs|, p);
    PlacedAtIndex(nodes, start, items, Offset(divs, counts, p));
  }

  lemma {:induction false} PlacedChapterAt(bookType: string, divs: seq<Division>, nodes: map<nat, Node>, start: nat, main: nat,
                        bid: nat, counts: map<string, int>, p: nat, m: nat)
    requires p < |divs| && Offset(divs, counts, p) < m <= Offset(divs, counts, p) + CountOf(counts, divs[p].slug)
    ensures m < Offset(divs, counts, |divs|)
    ensures var after := Placed(nodes, start, DivisionItems(bookType, divs, main, bid, counts, start, |divs|));
      && start + m in after
      && after[start + m] == PlanNode(bookType, divs, main, bid, counts, start, m)
  {
    OffsetsIncrease(divs, counts, p, |divs|);
    ChapterItemNode(bookType, divs, main, bid, counts, start, p, m - Offset(divs, counts, p), m);
    PlacedAtIndex(nodes, start, DivisionItems(bookType, divs, main, bid, counts, start, |divs|), m);
  }

  lemma {:induction false} ChapterItemNode(bookType: string, divs: seq<Division>, main: nat, bid: nat, counts: map<string, int>,
                        start: nat, p: nat, j: nat, m: nat)
    requires p < |divs| && 1 <= j <= CountOf(counts, divs[p].slug) && m == Offset(divs, counts, p) + j
    ensures m < Offset(divs, counts, |divs|)
    ensures var items := DivisionItems(bookType, divs, main, bid, counts, start, |divs|);
      && m < |items|
      && items[m].node == PlanNode(bookType, divs, main, bid, counts, start, m)
  {
    ChapterOwner(divs, counts, p, j, m);
    assert m - Offset(divs, counts, p) == j;
    assert PlanNode(bookType, divs, main, bid, counts, start, m)
      == DivisionChapterNode(bookType, start + Offset(divs, counts, p), j, bid);
    DivisionChapterItemAt(bookType, divs, main, bid, counts, start, |divs|, p, j);
    var items := DivisionItems(bookType, divs, main, bid, counts, start, |divs|);
    assert items[m] == items[Offset(divs, counts, p) + j];
  }

  /** A fresh build of all divisions on a store whose ids are below
      `start`: old ids keep their nodes, and position `m` holds its plan
      node. */
  ghost predicate LaidOut(after: map<nat, Node>, nodes: map<nat, Node>, bookType: string, divs: seq<Division>,
                          main: nat, bid: nat, counts: map<string, int>, start: nat)
  {
    && (forall id :: id in after && id < start ==> id in nodes && after[id] == nodes[id])
    && (forall id :: start <= id < start + Offset(divs, counts, |divs|) ==> id in after)
    && forall m :: 0 <= m < Offset(divs, counts, |divs|) ==>
         start + m in after && after[start + m] == PlanNode(bookType, divs, main, bid, counts, start, m)
  }

  /** The node with id `id` of a laid-out store, `m` places after `start`. */
  lemma {:induction false} LaidOutAtId(after: map<nat, Node>, nodes: map<nat, Node>, bookType: string, divs: seq<Division>,
                    main: nat, bid: nat, counts: map<string, int>, start: nat, id: nat, m: nat)
    requires LaidOut(after, nodes, bookType, divs, main, bid, counts, start)
    requires m < Offset(divs, counts, |divs|) && id == start + m
    ensures id in after && after[id] == PlanNode(bookType, divs, main, bid, counts, start, m)
  {
    LaidOutAt(after, nodes, bookType, divs, main, bid, counts, start, m);
  }

  lemma {:induction false} LaidOutAt(after: map<nat, Node>, nodes: map<nat, Node>, bookType: string, divs: seq<Division>,
                  main: nat, bid: nat, counts: map<string, int>, start: nat, m: nat)
    requires LaidOut(after, nodes, bookType, divs, main, bid, counts, start)
    requires m < Offset(divs, counts, |divs|)
    ensures start + m in after && after[start + m] == PlanNode(bookType, divs, main, bid, counts, start, m)
  {
  }

  lemma {:induction false} BuiltIsLaidOut(bookType: string, divs: seq<Division>, nodes: map<nat, Node>, start: nat, main: nat,
                       bid: nat, counts: map<string, int>)
    ensures LaidOut(Placed(nodes, start, DivisionItems(bookType, divs, main, bid, counts, start, |divs|)),
                    nodes, bookType, divs, main, bid, counts, start)
  {
    var after := Placed(nodes, start, DivisionItems(bookType, divs, main, bid, counts, start, |divs|));
    forall id | id in after && id < start ensures id in nodes && after[id] == nodes[id] {
      PlacedBelow(nodes, start, DivisionItems(bookType, divs, main, bid, counts, start, |divs|), id);
    }
    forall id | start <= id < start + Offset(divs, counts, |divs|) ensures id in after {
      PlacedAt(bookType, divs, nodes, start, main, bid, counts, id - start);
    }
    forall m | 0 <= m < Offset(divs, counts, |divs|)
      ensures start + m in after && after[start + m] == PlanNode(bookType, divs, main, bid, counts, start, m)
    {
      PlacedAt(bookType, divs, nodes, start, main, bid, counts, m);
    }
  }

  /** What the plan node at position `m` is, by the division owning `m`. */
  lemma {:induction false} PlanNodeShape(bookType: string, divs: seq<Division>, main: nat, bid: nat, counts: map<string, int>,
                      start: nat, m: nat)
    requires m < Offset(divs, counts, |divs|)
    ensures var n := PlanNode(bookType, divs, main, bid, counts, start, m);
      var p := OwnerOf(divs, counts, |divs|, m);
      && (m == Offset(divs, counts, p) ==> n.bundle == DivisionBundle(bookType) && n.number == Some(divs[p].number as int))
      && (m != Offset(divs, counts, p) ==>
            n.bundle == ChapterBundle(bookType) && n.number == Some(m - Offset(divs, counts, p))
            && RefOf(bookType, n) == Some(start + Offset(divs, counts, p)))
  {
  }

  /** A division and a chapter of the same book never share a bundle. */
  lemma BundlesDiffer(bookType: string)
    requires bookType == "sb" || bookType == "cc"
    ensures DivisionBundle(bookType) != ChapterBundle(bookType)
  {
    assert DivisionBundle(bookType)[|bookType| + 1] != ChapterBundle(bookType)[|bookType| + 1];
  }

  /** The bundles of the Srimad-Bhagavatam and the Chaitanya Charitamrita. */
  lemma BundleNames()
    ensures DivisionBundle("sb") == "sb_song" && ChapterBundle("sb") == "sb_chapter"
    ensures DivisionBundle("cc") == "cc_lila" && ChapterBundle("cc") == "cc_chapter"
  {
  }

  /** One position before chapter `j` of division `q`: not an earlier
      division with `q`'s number, and not a chapter `j` under `q`. */
  lemma {:induction false} EarlierPosition(bookType: string, divs: seq<Division>, main: nat, bid: nat, counts: map<string, int>,
                        start: nat, q: nat, j: nat, m: nat)
    requires bookType == "sb" || bookType == "cc"
    requires forall p :: 0 <= p < |divs| ==> divs[p].number == p + 1
    requires q < |divs| && 1 <= j <= CountOf(counts, divs[q].slug)
    requires m < Offset(divs, counts, q) + j
    ensures Offset(divs, counts, q) + j < Offset(divs, counts, |divs|)
    ensures var n := PlanNode(bookType, divs, main, bid, counts, start, m);
      && (m < Offset(divs, counts, q) ==> !(n.bundle == DivisionBundle(bookType) && n.number == Some(q + 1)))
      && (n.bundle == ChapterBundle(bookType) && n.number == Some(j) ==> RefOf(bookType, n) != Some(start + Offset(divs, counts, q)))
  {
    OffsetsIncrease(divs, counts, q, |divs|);
    BundlesDiffer(bookType);
    PlanNodeShape(bookType, divs, main, bid, counts, start, m);
    var p := OwnerOf(divs, counts, |divs|, m);
    if p < q {
      OffsetsIncrease(divs, counts, p, q);
    } else if p > q {
      OffsetsIncrease(divs, counts, q, p);
    }
  }

  /** Division `q` owns its own position and the `j` after it. */
  lemma OwnerOfBlock(divs: seq<Division>, counts: map<string, int>, q: nat, j: nat)
    requires q < |divs| && j <= CountOf(counts, divs[q].slug)
    ensures Offset(divs, counts, q) + j < Offset(divs, counts, |divs|)
    ensures OwnerOf(divs, counts, |divs|, Offset(divs, counts, q) + j) == q
  {
    OffsetsIncrease(divs, counts, q, |divs|);
    var p := OwnerOf(divs, counts, |divs|, Offset(divs, counts, q) + j);
    if p < q {
      OffsetsIncrease(divs, counts, p, q);
    } else if p > q {
      OffsetsIncrease(divs, counts, q, p);
    }
  }

  /** The node at division `q`'s position is that division. */
  lemma {:induction false} DivisionPlanNode(bookType: string, divs: seq<Division>, main: nat, bid: nat, counts: map<string, int>,
                         start: nat, q: nat)
    requires q < |divs|
    ensures Offset(divs, counts, q) < Offset(divs, counts, |divs|)
    ensures PlanNode(bookType, divs, main, bid, counts, start, Offset(divs, counts, q)) == DivisionNode(bookType, divs[q], main, bid)
  {
    OwnerOfBlock(divs, counts, q, 0);
  }

  /** The node `j` places after division `q` is its chapter `j`. */
  lemma {:induction false} ChapterPlanNode(bookType: string, divs: seq<Division>, main: nat, bid: nat, counts: map<string, int>,
                        start: nat, q: nat, j: nat)
    requires q < |divs| && 1 <= j <= CountOf(counts, divs[q].slug)
    ensures Offset(divs, counts, q) + j < Offset(divs, counts, |divs|)
    ensures PlanNode(bookType, divs, main, bid, counts, start, Offset(divs, counts, q) + j)
      == DivisionChapterNode(bookType, start + Offset(divs, counts, q), j, bid)
  {
    ChapterOwner(divs, counts, q, j, Offset(divs, counts, q) + j);
    PlanNodeOfChapter(bookType, divs, main, bid, counts, start, q, j);
  }

  /** Division `q` owns the position `j >= 1` places after it, which is
      not its own. */
  lemma {:induction false} ChapterOwner(divs: seq<Division>, counts: map<string, int>, q: nat, j: nat, m: nat)
    requires q < |divs| && 1 <= j <= CountOf(counts, divs[q].slug) && m == Offset(divs, counts, q) + j
    ensures m < Offset(divs, counts, |divs|)
    ensures OwnerOf(divs, counts, |divs|, m) == q && m != Offset(divs, counts, q)
  {
    OwnerOfBlock(divs, counts, q, j);
  }

  /** Unfolding the plan node at a chapter position owned by `q`. */
  lemma PlanNodeOfChapter(bookType: string, divs: seq<Division>, main: nat, bid: nat, counts: map<string, int>,
                          start: nat, q: nat, j: nat)
    requires q < |divs| && 1 <= j && Offset(divs, counts, q) + j < Offset(divs, counts, |divs|)
    requires q == OwnerOf(divs, counts, |divs|, Offset(divs, counts, q) + j)
    ensures PlanNode(bookType, divs, main, bid, counts, start, Offset(divs, counts, q) + j)
      == DivisionChapterNode(bookType, start + Offset(divs, counts, q), j, bid)
  {
  }

  /** Below `hi`, the node `s` is the first division of `bookType`
      numbered `number`, and `s + j` is the first chapter `j` that refers
      to it. */
  ghost predicate FirstChapterAt(after: map<nat, Node>, hi: nat, bookType: string, s: nat, number: int, j: nat)
  {
    && IsFirstDivision(after, hi, s, DivisionBundle(bookType), number)
    && s + j < hi && IsChapter(after, s + j, bookType, j) && RefOf(bookType, after[s + j]) == Some(s)
    && forall id: nat :: id < s + j && IsChapter(after, id, bookType, j) ==> RefOf(bookType, after[id]) != Some(s)
  }

  /** In a fresh build of divisions numbered 1, 2, ... in order, on a
      store without divisions or chapters of the book, chapter `j` of
      division `q` sits right after that division, which is the first one
      with its number, and no chapter numbered `j` under it comes earlier. */
  lemma {:induction false} BuiltDivisionChapterIsFirst(after: map<nat, Node>, nodes: map<nat, Node>, bookType: string, divs: seq<Division>,
                                    main: nat, bid: nat, counts: map<string, int>, start: nat, hi: nat, q: nat, j: nat)
    requires hi == start + Offset(divs, counts, |divs|)
    requires bookType == "sb" || bookType == "cc"
    requires forall p :: 0 <= p < |divs| ==> divs[p].number == p + 1
    requires forall id :: id in nodes ==> id < start && nodes[id].bundle != DivisionBundle(bookType) && nodes[id].bundle != ChapterBundle(bookType)
    requires LaidOut(after, nodes, bookType, divs, main, bid, counts, start)
    requires q < |divs| && 1 <= j <= CountOf(counts, divs[q].slug)
    ensures FirstChapterAt(after, hi, bookType, start + Offset(divs, counts, q), q + 1, j)
  {
    BlockLaidOut(after, nodes, bookType, divs, main, bid, counts, start, hi, q, j);
    NothingEarlierMatches(after, nodes, bookType, divs, main, bid, counts, start, q, j);
  }

  /** Division `q` and its chapter `j` in a laid-out store. */
  lemma {:induction false} BlockLaidOut(after: map<nat, Node>, nodes: map<nat, Node>, bookType: string, divs: seq<Division>,
                     main: nat, bid: nat, counts: map<string, int>, start: nat, hi: nat, q: nat, j: nat)
    requires hi == start + Offset(divs, counts, |divs|)
    requires forall p :: 0 <= p < |divs| ==> divs[p].number == p + 1
    requires LaidOut(after, nodes, bookType, divs, main, bid, counts, start)
    requires q < |divs| && 1 <= j <= CountOf(counts, divs[q].slug)
    ensures BlockAt(after, hi, bookType, start + Offset(divs, counts, q), q + 1, j)
  {
    var s := start + Offset(divs, counts, q);
    ChapterPlanNode(bookType, divs, main, bid, counts, start, q, j);
    LaidOutAtId(after, nodes, bookType, divs, main, bid, counts, start, s, Offset(divs, counts, q));
    LaidOutAtId(after, nodes, bookType, divs, main, bid, counts, start, s + j, Offset(divs, counts, q) + j);
    DivisionAndChapterAt(after, bookType, divs, main, bid, counts, start, hi, q, j);
  }

  /** In a laid-out store, division `q` sits at its offset with its number,
      and its chapter `j` sits `j` places further on, referring to it. */
  lemma DivisionAndChapterAt(after: map<nat, Node>, bookType: string, divs: seq<Division>,
                             main: nat, bid: nat, counts: map<string, int>, start: nat, hi: nat, q: nat, j: nat)
    requires hi == start + Offset(divs, counts, |divs|)
    requires forall p :: 0 <= p < |divs| ==> divs[p].number == p + 1
    requires q < |divs| && 1 <= j <= CountOf(counts, divs[q].slug)
    requires Offset(divs, counts, q) + j < Offset(divs, counts, |divs|)
    requires var s := start + Offset(divs, counts, q);
      && s in after && after[s] == PlanNode(bookType, divs, main, bid, counts, start, Offset(divs, counts, q))
      && s + j in after && after[s + j] == PlanNode(bookType, divs, main, bid, counts, start, Offset(divs, counts, q) + j)
    ensures BlockAt(after, hi, bookType, start + Offset(divs, counts, q), q + 1, j)
  {
    DivisionPlanNode(bookType, divs, main, bid, counts, start, q);
    ChapterPlanNode(bookType, divs, main, bid, counts, start, q, j);
  }

  /** Below `hi`, the node `s` is a division of `bookType` numbered
      `number`, and `s + j` a chapter `j` referring to it. */
  ghost predicate BlockAt(after: map<nat, Node>, hi: nat, bookType: string, s: nat, number: int, j: nat)
  {
    && s + j < hi && IsDivision(after, s, DivisionBundle(bookType), number)
    && IsChapter(after, s + j, bookType, j) && RefOf(bookType, after[s + j]) == Some(s)
  }

  /** Nothing below `s + j` is another division numbered `number` before
      `s`, or another chapter `j` referring to `s`. */
  ghost predicate NoEarlierMatch(after: map<nat, Node>, bookType: string, s: nat, number: int, j: nat)
  {
    forall id: nat :: id < s + j && id in after ==>
      && (id < s ==> !IsDivision(after, id, DivisionBundle(bookType), number))
      && (IsChapter(after, id, bookType, j) ==> RefOf(bookType, after[id]) != Some(s))
  }

  /** Below chapter `j` of division `q` in a laid-out store there is no
      other division of that number, before the division itself, and no
      other chapter `j` of that division. */
  lemma {:induction false} NothingEarlierMatches(after: map<nat, Node>, nodes: map<nat, Node>, bookType: string, divs: seq<Division>,
                              main: nat, bid: nat, counts: map<string, int>, start: nat, q: nat, j: nat)
    requires bookType == "sb" || bookType == "cc"
    requires forall p :: 0 <= p < |divs| ==> divs[p].number == p + 1
    requires forall id :: id in nodes ==> id < start && nodes[id].bundle != DivisionBundle(bookType) && nodes[id].bundle != ChapterBundle(bookType)
    requires LaidOut(after, nodes, bookType, divs, main, bid, counts, start)
    requires q < |divs| && 1 <= j <= CountOf(counts, divs[q].slug)
    ensures NoEarlierMatch(after, bookType, start + Offset(divs, counts, q), q + 1, j)
  {
    var s: nat := start + Offset(divs, counts, q);
    forall id: nat | id < s + j && id in after
      ensures id < s ==> !IsDivision(after, id, DivisionBundle(bookType), q + 1)
      ensures IsChapter(after, id, bookType, j) ==> RefOf(bookType, after[id]) != Some(s)
    {
      if id >= start {
        EarlierPosition(bookType, divs, main, bid, counts, start, q, j, id - start);
        assert after[id] == PlanNode(bookType, divs, main, bid, counts, start, id - start);
      }
    }
  }

  /** On a store without songs or Srimad-Bhagavatam chapters, building the
      divisions of a song table numbered 1, 2, ... in order (as the songs
      of `createSongs` are: `SongsNumbered`) puts chapter `j` of song `i`
      where `findSbChapter(i, j)` then finds it. */
  lemma {:induction false} BuiltSongChapterIsFound(nodes: map<nat, Node>, start: nat, divs: seq<Division>, main: nat, bid: nat,
                                counts: map<string, int>, i: nat, j: nat)
    requires forall id :: id in nodes ==> id < start && nodes[id].bundle != "sb_song" && nodes[id].bundle != "sb_chapter"
    requires forall p :: 0 <= p < |divs| ==> divs[p].number == p + 1
    requires 1 <= i <= |divs| && 1 <= j <= CountOf(counts, divs[i - 1].slug)
    ensures FindSbChapter(Placed(nodes, start, DivisionItems("sb", divs, main, bid, counts, start, |divs|)),
                          start + Offset(divs, counts, |divs|), i, j)
            == Some(start + Offset(divs, counts, i - 1) + j)
  {
    var after := Placed(nodes, start, DivisionItems("sb", divs, main, bid, counts, start, |divs|));
    BuiltIsLaidOut("sb", divs, nodes, start, main, bid, counts);
    SongFound(after, nodes, start + Offset(divs, counts, |divs|), divs, main, bid, counts, start, i, j);
  }

  /** The song half of the above, on any store laid out like the build. */
  lemma {:induction false} SongFound(after: map<nat, Node>, nodes: map<nat, Node>, hi: nat, divs: seq<Division>, main: nat, bid: nat,
                  counts: map<string, int>, start: nat, i: nat, j: nat)
    requires forall id :: id in nodes ==> id < start && nodes[id].bundle != "sb_song" && nodes[id].bundle != "sb_chapter"
    requires forall p :: 0 <= p < |divs| ==> divs[p].number == p + 1
    requires LaidOut(after, nodes, "sb", divs, main, bid, counts, start)
    requires hi == start + Offset(divs, counts, |divs|)
    requires 1 <= i <= |divs| && 1 <= j <= CountOf(counts, divs[i - 1].slug)
    ensures FindSbChapter(after, hi, i, j) == Some(start + Offset(divs, counts, i - 1) + j)
  {
    BundleNames();
    BuiltDivisionChapterIsFirst(after, nodes, "sb", divs, main, bid, counts, start, hi, i - 1, j);
    SongChapterFirstFound(after, hi, i, j, start + Offset(divs, counts, i - 1));
  }

  /** The facts of `BuiltDivisionChapterIsFirst` for song `i` are what
      `findSbChapter` needs to find its chapter `j`. */
  lemma SongChapterFirstFound(after: map<nat, Node>, hi: nat, i: nat, j: nat, s: nat)
    requires FirstChapterAt(after, hi, "sb", s, i, j)
    ensures FindSbChapter(after, hi, i, j) == Some(s + j)
  {
    SbChapterFound(after, hi, i, j, s, s + j);
  }

  /** The songs are numbered 1 to 12 in order, each named by its number. */
  lemma SongsNumbered()
    ensures |Songs()| == 12
    ensures forall p :: 0 <= p < |Songs()| ==> Songs()[p].number == p + 1 && Songs()[p].slug == Decimal(p + 1)
  {
  }

  /** On a store without lilas or Chaitanya Charitamrita chapters, building
      the divisions of a lila table numbered 1, 2, ... in order whose names
      `findCcChapter` maps to those numbers (as the table of `createLilas`
      is: `LilasNumbered`) puts chapter `j` of lila `q` where
      `findCcChapter(<its name>, j)` then finds it. */
  lemma {:induction false} BuiltLilaChapterIsFound(nodes: map<nat, Node>, start: nat, divs: seq<Division>, main: nat, bid: nat,
                                counts: map<string, int>, q: nat, j: nat)
    requires forall id :: id in nodes ==> id < start && nodes[id].bundle != "cc_lila" && nodes[id].bundle != "cc_chapter"
    requires forall p :: 0 <= p < |divs| ==> divs[p].number == p + 1 && LilaOrdinal(divs[p].slug) == Some(p + 1)
    requires q < |divs| && 1 <= j <= CountOf(counts, divs[q].slug)
    ensures FindCcChapter(Placed(nodes, start, DivisionItems("cc", divs, main, bid, counts, start, |divs|)),
                          start + Offset(divs, counts, |divs|), divs[q].slug, j)
            == Some(start + Offset(divs, counts, q) + j)
  {
    assert LilaOrdinal(divs[q].slug) == Some(q + 1);
    BuiltIsLaidOut("cc", divs, nodes, start, main, bid, counts);
    LilaFound(Placed(nodes, start, DivisionItems("cc", divs, main, bid, counts, start, |divs|)), nodes, divs,
              main, bid, counts, start, q, j, divs[q].slug);
  }

  /** The lila half of `BuiltLilaChapterIsFound`, on any store laid out like the build. */
  lemma {:induction false} LilaFound(after: map<nat, Node>, nodes: map<nat, Node>, divs: seq<Division>, main: nat,
                                     bid: nat, counts: map<string, int>, start: nat, q: nat, j: nat, lila: string)
    requires forall id :: id in nodes ==> id < start && nodes[id].bundle != "cc_lila" && nodes[id].bundle != "cc_chapter"
    requires forall p :: 0 <= p < |divs| ==> divs[p].number == p + 1
    requires LaidOut(after, nodes, "cc", divs, main, bid, counts, start)
    requires q < |divs| && 1 <= j <= CountOf(counts, divs[q].slug)
    requires LilaOrdinal(lila) == Some(q + 1)
    ensures FindCcChapter(after, start + Offset(divs, counts, |divs|), lila, j) == Some(start + Offset(divs, counts, q) + j)
  {
    var hi, s := start + Offset(divs, counts, |divs|), start + Offset(divs, counts, q);
    BundleNames();
    BuiltDivisionChapterIsFirst(after, nodes, "cc", divs, main, bid, counts, start, hi, q, j);
    LilaChapterFirstFound(after, hi, lila, q, j, s);
    LilaFoundAtOffsets(after, divs, counts, start, q, j, lila, hi, s);
  }

  /** `LilaChapterFirstFound` restated at the offsets it was given. */
  lemma LilaFoundAtOffsets(after: map<nat, Node>, divs: seq<Division>, counts: map<string, int>, start: nat,
                           q: nat, j: nat, lila: string, hi: nat, s: nat)
    requires q < |divs| && hi == start + Offset(divs, counts, |divs|) && s == start + Offset(divs, counts, q)
    requires FindCcChapter(after, hi, lila, j) == Some(s + j)
    ensures FindCcChapter(after, start + Offset(divs, counts, |divs|), lila, j) == Some(start + Offset(divs, counts, q) + j)
  {
  }

  /** The facts of `BuiltDivisionChapterIsFirst` for lila `q` are what
      `findCcChapter` needs to find its chapter `j` by the lila's name. */
  lemma LilaChapterFirstFound(after: map<nat, Node>, hi: nat, lila: string, q: nat, j: nat, s: nat)
    requires LilaOrdinal(lila) == Some(q + 1)
    requires FirstChapterAt(after, hi, "cc", s, q + 1, j)
    ensures FindCcChapter(after, hi, lila, j) == Some(s + j)
  {
    CcChapterFound(after, hi, lila, j, s, s + j);
  }

  /** The lilas are numbered 1 to 3 in order, and `findCcChapter` maps each
      lila's name to its number. */
  lemma LilasNumbered()
    ensures |Lilas()| == 3
    ensures forall p :: 0 <= p < |Lilas()| ==> Lilas()[p].number == p + 1 && LilaOrdinal(Lilas()[p].slug) == Some(p + 1)
  {
  }

  /** The plan of `createSongs` (`"sb"`, tag `SB`, the songs) and of
      `createLilas` (`"cc"`, tag `CC`, the lila table). */
  function DivisionsPlan(nodes: map<nat, Node>, start: nat, settings: Settings, bookType: string, tag: string,
                         divs: seq<Division>): (p: Plan)
    ensures var bs := SettingsFor(settings, bookType);
      && (bs.mainBookNid == 0 ==> p == Refuse(NotConfigured(tag)))
      && (bs.mainBookNid != 0 && bs.mainBookNid !in nodes ==> p == Refuse(MainBookMissing(tag)))
      && (bs.mainBookNid != 0 && bs.mainBookNid in nodes ==> p.Build?)
  {
    var bs := SettingsFor(settings, bookType);
    var check := MainBookCheck(nodes, bs, tag);
    if check.Some? then Refuse(check.value)
    else
      var main := bs.mainBookNid;
      Build(DivisionItems(bookType, divs, main, BookId(main, nodes[main]), bs.perDivision, start, |divs|))
  }

  /** The creation loops shared by `createSongs` and `createLilas`: each
      division in turn, its alias, then its chapters and their aliases. */
  method BuildDivisions(site: Site, bookType: string, divs: seq<Division>, main: nat, bid: nat, counts: map<string, int>)
    requires site.Valid()
    modifies site
    ensures site.Valid()
    ensures var items := DivisionItems(bookType, divs, main, bid, counts, old(site.nextId), |divs|);
      && site.nodes == Placed(old(site.nodes), old(site.nextId), items)
      && site.nextId == old(site.nextId) + |items|
      && site.aliases == AliasesAfter(old(site.aliases), old(site.nextId), items)
    ensures site.links == old(site.links) && site.nextUuid == old(site.nextUuid)
  {
    ghost var start := site.nextId;
    ghost var nodes0 := site.nodes;
    ghost var rows0 := site.aliases;
    var k := 0;
    while k < |divs|
      invariant 0 <= k <= |divs|
      invariant site.Valid()
      invariant site.nodes == Placed(nodes0, start, DivisionItems(bookType, divs, main, bid, counts, start, k))
      invariant site.nextId == start + |DivisionItems(bookType, divs, main, bid, counts, start, k)|
      invariant site.aliases == AliasesAfter(rows0, start, DivisionItems(bookType, divs, main, bid, counts, start, k))
      invariant site.links == old(site.links) && site.nextUuid == old(site.nextUuid)
    {
      BuildDivision(site, bookType, divs, k, main, bid, counts, nodes0, rows0, start);
      k := k + 1;
    }
  }

  /** One round of the outer loop: division `k`, its alias, its chapters. */
  method BuildDivision(site: Site, bookType: string, divs: seq<Division>, k: nat, main: nat, bid: nat,
                       counts: map<string, int>, ghost nodes0: map<nat, Node>, ghost rows0: seq<PathAlias>, ghost start: nat)
    requires k < |divs|
    requires site.Valid()
    requires var done := DivisionItems(bookType, divs, main, bid, counts, start, k);
      && site.nodes == Placed(nodes0, start, done) && site.nextId == start + |done|
      && site.aliases == AliasesAfter(rows0, start, done)
    modifies site
    ensures site.Valid()
    ensures var items := DivisionItems(bookType, divs, main, bid, counts, start, k + 1);
      && site.nodes == Placed(nodes0, start, items)
      && site.nextId == start + |items|
      && site.aliases == AliasesAfter(rows0, start, items)
    ensures site.links == old(site.links) && site.nextUuid == old(site.nextUuid)
  {
    ghost var done := DivisionItems(bookType, divs, main, bid, counts, start, k);
    var d := divs[k];
    var item := Item(DivisionNode(bookType, d, main, bid), DivisionAlias(bookType, d));
    var div := PlaceItem(site, item, nodes0, rows0, start, done);
    BuildDivisionChapters(site, bookType, d, div, bid, counts);
    ghost var chapters := DivisionChapterItems(bookType, d, div, bid, CountOf(counts, d.slug));
    DivisionItemsStep(bookType, divs, main, bid, counts, start, k);
    AppendInto(nodes0, rows0, start, done + [item], chapters, DivisionItems(bookType, divs, main, bid, counts, start, k + 1));
  }

  /** `Append`, for a plan `next` known to be `first + second`. */
  lemma AppendInto(nodes: map<nat, Node>, rows: seq<PathAlias>, start: nat, first: seq<Item>, second: seq<Item>,
                   next: seq<Item>)
    requires next == first + second
    ensures Placed(Placed(nodes, start, first), start + |first|, second) == Placed(nodes, start, next)
    ensures AliasesAfter(AliasesAfter(rows, start, first), start + |first|, second) == AliasesAfter(rows, start, next)
    ensures |next| == |first| + |second|
  {
    Append(nodes, rows, start, first, second);
  }

  /** Carries out the next item of a plan: its node under the next id,
      then its alias. */
  method PlaceItem(site: Site, item: Item, ghost nodes0: map<nat, Node>, ghost rows0: seq<PathAlias>, ghost start: nat,
                   ghost done: seq<Item>) returns (id: nat)
    requires site.Valid()
    requires site.nodes == Placed(nodes0, start, done) && site.nextId == start + |done|
    requires site.aliases == AliasesAfter(rows0, start, done)
    modifies site
    ensures site.Valid()
    ensures id == start + |done|
    ensures site.nodes == Placed(nodes0, start, done + [item]) && site.nextId == start + |done| + 1
    ensures site.aliases == AliasesAfter(rows0, start, done + [item])
    ensures site.links == old(site.links) && site.nextUuid == old(site.nextUuid)
  {
    Snoc(nodes0, rows0, start, done, item);
    id := site.Create(item.node);
    site.CreatePathAlias(id, item.alias);
  }

  /** The inner loop: chapters 1..count of the division placed under `div`. */
  method BuildDivisionChapters(site: Site, bookType: string, d: Division, div: nat, bid: nat, counts: map<string, int>)
    requires site.Valid()
    modifies site
    ensures site.Valid()
    ensures var items := DivisionChapterItems(bookType, d, div, bid, CountOf(counts, d.slug));
      && site.nodes == Placed(old(site.nodes), old(site.nextId), items)
      && site.nextId == old(site.nextId) + |items|
      && site.aliases == AliasesAfter(old(site.aliases), old(site.nextId), items)
    ensures site.links == old(site.links) && site.nextUuid == old(site.nextUuid)
  {
    ghost var start := site.nextId;
    ghost var nodes0 := site.nodes;
    ghost var rows0 := site.aliases;
    ghost var done: seq<Item> := [];
    var count := if d.slug in counts then counts[d.slug] else 0;
    var j := 1;
    while j <= count
      invariant 1 <= j <= CountOf(counts, d.slug) + 1
      invariant done == DivisionChapterItems(bookType, d, div, bid, j - 1)
      invariant site.Valid()
      invariant site.nodes == Placed(nodes0, start, done)
      invariant site.nextId == start + |done|
      invariant site.aliases == AliasesAfter(rows0, start, done)
      invariant site.links == old(site.links) && site.nextUuid == old(site.nextUuid)
    {
      var chapter := DivisionChapterItem(bookType, d, div, bid, j);
      var _ := PlaceItem(site, chapter, nodes0, rows0, start, done);
      DivisionChapterItemsSnoc(bookType, d, div, bid, j);
      done := done + [chapter];
      j := j + 1;
    }
  }

  /** `createSongs`: after the main-book checks, songs 1..12 under the main
      book, each followed by its configured number of chapters. */
  method CreateSongs(site: Site, settings: Settings) returns (out: Outcome)
    requires site.Valid()
    modifies site
    ensures site.Valid()
    ensures Performed(site, DivisionsPlan(old(site.nodes), old(site.nextId), settings, "sb", "SB", Songs()), out)
  {
    var bs := SettingsFor(settings, "sb");
    if bs.mainBookNid == 0 {
      return Fail(NotConfigured("SB"));
    }
    if bs.mainBookNid !in site.nodes {
      return Fail(MainBookMissing("SB"));
    }
    var main := bs.mainBookNid;
    BuildDivisions(site, "sb", Songs(), main, BookId(main, site.nodes[main]), bs.perDivision);
    out := Pass;
  }

  /** `createLilas`: after the main-book checks, the three lilas under the
      main book, each followed by its configured number of chapters. */
  method CreateLilas(site: Site, settings: Settings) returns (out: Outcome)
    requires site.Valid()
    modifies site
    ensures site.Valid()
    ensures Performed(site, DivisionsPlan(old(site.nodes), old(site.nextId), settings, "cc", "CC", Lilas()), out)
  {
    var bs := SettingsFor(settings, "cc");
    if bs.mainBookNid == 0 {
      return Fail(NotConfigured("CC"));
    }
    if bs.mainBookNid !in site.nodes {
      return Fail(MainBookMissing("CC"));
    }
    var main := bs.mainBookNid;
    BuildDivisions(site, "cc", Lilas(), main, BookId(main, site.nodes[main]), bs.perDivision);
    out := Pass;
  }
}
