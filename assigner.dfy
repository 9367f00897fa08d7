/**
 * Assigning verses to chapters and tearing a structure down again.
 *
 * `assignVersesToChapters` reads each verse's published alias, resolves the
 * chapter the alias names and rewrites the verse's outline link to hang
 * under that chapter; a verse it cannot place keeps its link, and a failed
 * save only loses that verse's link.  `deleteStructure` removes the
 * structural nodes of a book type and empties the outline link of each of
 * its verses, stopping at the first save the storage refuses.
 */
module Assigner {
  import opened Base
  import opened Slugs
  import opened Content
  import opened Resolver

  // ---------------------------------------------------------------------
  // assignVersesToChapters

  /** The `bid` of a node's outline link; 0 when it has none. */
  function BidOf(n: Node): nat
  {
    if n.book.Some? then n.book.value.bid else 0
  }

  /** The chapter the alias of a verse of `bookType` names: for `sb` through
      its song, for `cc` through its lila, otherwise by number alone.  None
      when the alias names no chapter number, the number is 0, the song or
      lila part is missing or falsy, or the lookup finds nothing. */
  function ChapterOf(nodes: map<nat, Node>, hi: nat, bookType: string, alias: string): Option<nat>
  {
    var num := ParseChapterFromAlias(alias, bookType);
    if num.None? || num.value == 0 then None
    else if bookType == "sb" then
      var song := ParseSongFromAlias(alias);
      if song.Some? && song.value != 0 then FindSbChapter(nodes, hi, song.value, num.value) else None
    else if bookType == "cc" then
      var lila := ParseLilaFromAlias(alias);
      if lila.Some? && !FalsyString(lila.value) then FindCcChapter(nodes, hi, lila.value, num.value) else None
    else FindChapter(nodes, hi, bookType, num.value)
  }

  /** What the chapter found for an alias is: a chapter of the book type
      with the alias's chapter number, for `sb` under the first song with
      the alias's song number and for `cc` under the first lila the alias
      names; no chapter at all for a missing or zero chapter number; and,
      conversely, whenever such a chapter exists below `hi` one is found
      (the least-id one). */
  lemma ChapterOfFacts(nodes: map<nat, Node>, hi: nat, bookType: string, alias: string)
    ensures var r := ChapterOf(nodes, hi, bookType, alias);
      var num := ParseChapterFromAlias(alias, bookType);
      && (num in {None, Some(0)} ==> r.None?)
      && (r.Some? ==> r.value < hi && num.Some? && IsChapter(nodes, r.value, bookType, num.value))
      && (r.Some? && bookType == "sb" ==>
           var s := nodes[r.value].songRef;
           s.Some? && ParseSongFromAlias(alias).Some? && IsFirstDivision(nodes, hi, s.value, "sb_song", ParseSongFromAlias(alias).value))
      && (r.Some? && bookType == "cc" ==>
           var l := nodes[r.value].lilaRef;
           && l.Some? && ParseLilaFromAlias(alias).Some? && LilaOrdinal(ParseLilaFromAlias(alias).value).Some?
           && IsFirstDivision(nodes, hi, l.value, "cc_lila", LilaOrdinal(ParseLilaFromAlias(alias).value).value))
      && (bookType != "sb" && bookType != "cc" && num.Some? && num.value != 0 ==>
           forall c: nat :: c < hi && IsChapter(nodes, c, bookType, num.value) ==> r.Some? && r.value <= c)
      && (bookType == "sb" && num.Some? && num.value != 0 && ParseSongFromAlias(alias).Some? && ParseSongFromAlias(alias).value != 0 ==>
           forall s: nat, c: nat ::
             IsFirstDivision(nodes, hi, s, "sb_song", ParseSongFromAlias(alias).value) && c < hi && IsSongChapter(nodes, c, s, num.value)
             ==> r.Some? && r.value <= c)
      && (bookType == "cc" && num.Some? && num.value != 0 && ParseLilaFromAlias(alias).Some?
          && !FalsyString(ParseLilaFromAlias(alias).value) && LilaOrdinal(ParseLilaFromAlias(alias).value).Some? ==>
           forall l: nat, c: nat ::
             IsFirstDivision(nodes, hi, l, "cc_lila", LilaOrdinal(ParseLilaFromAlias(alias).value).value) && c < hi && IsLilaChapter(nodes, c, l, num.value)
             ==> r.Some? && r.value <= c)
  {
  }

  /** The outline link `assignVersesToChapters` writes for the node `id`,
      or None when it leaves the node alone: no published alias (or a falsy
      one), or no chapter for it. */
  function Target(nodes: map<nat, Node>, hi: nat, rows: seq<PathAlias>, bookType: string, id: nat): Option<BookLink>
  {
    var alias := PublishedAlias(rows, NodePath(id));
    if alias.None? || FalsyString(alias.value) then None
    else
      var chapter := ChapterOf(nodes, hi, bookType, alias.value);
      if chapter.None? then None
      else Some(BookLink(BidOf(nodes[chapter.value]), chapter.value, false, ParseVerseFromAlias(alias.value)))
  }

  /** A verse is placed exactly when it has a truthy published alias that
      names a chapter; it then hangs under that chapter, in that chapter's
      book, as a leaf weighted by the alias's verse number. */
  lemma TargetFacts(nodes: map<nat, Node>, hi: nat, rows: seq<PathAlias>, bookType: string, id: nat)
    ensures var r := Target(nodes, hi, rows, bookType, id);
      r.Some? ==> r.value.pid in nodes
    ensures var r := Target(nodes, hi, rows, bookType, id);
      var alias := PublishedAlias(rows, NodePath(id));
      && (r.Some? <==> alias.Some? && !FalsyString(alias.value) && ChapterOf(nodes, hi, bookType, alias.value).Some?)
      && (r.Some? ==>
           && ChapterOf(nodes, hi, bookType, alias.value) == Some(r.value.pid)
           && r.value.bid == BidOf(nodes[r.value.pid])
           && !r.value.hasChildren
           && r.value.weight == ParseVerseFromAlias(alias.value))
  {
    var alias := PublishedAlias(rows, NodePath(id));
    if alias.Some? && !FalsyString(alias.value) {
      ChapterOfFacts(nodes, hi, bookType, alias.value);
    }
  }

  /** A verse of `bookType` is a node of that bundle. */
  predicate IsVerse(nodes: map<nat, Node>, id: nat, bookType: string)
  {
    id in nodes && nodes[id].bundle == bookType
  }

  /** The outline link of node `id` after the run: a verse with a target
      gets it, unless its save is refused, in which case the row deleted
      just before leaves it with none; every other node keeps its link. */
  function NewBook(nodes: map<nat, Node>, hi: nat, rows: seq<PathAlias>, bookType: string, refused: set<nat>, id: nat): Option<BookLink>
    requires id in nodes
  {
    if nodes[id].bundle != bookType then nodes[id].book
    else match Target(nodes, hi, rows, bookType, id)
      case None => nodes[id].book
      case Some(link) => if id in refused then None else Some(link)
  }

  /** The store after `assignVersesToChapters(bookType)`. */
  function Assigned(nodes: map<nat, Node>, hi: nat, rows: seq<PathAlias>, bookType: string, refused: set<nat>): (r: map<nat, Node>)
    ensures SameButBooks(nodes, r)
    ensures forall id :: id in nodes && !IsVerse(nodes, id, bookType) ==> r[id] == nodes[id]
  {
    map id | id in nodes :: nodes[id].(book := NewBook(nodes, hi, rows, bookType, refused, id))
  }

  /** `assignVersesToChapters(bookType)`: every verse, in id order, is
      placed under the chapter its alias names.  The chapter lookups run on
      the live store; they read no outline link, so they find what they
      would have found before the run. */
  method AssignVersesToChapters(site: Site, bookType: string)
    requires site.Valid()
    modifies site
    ensures site.Valid()
    ensures site.nodes == Assigned(old(site.nodes), old(site.nextId), old(site.aliases), bookType, site.refused)
    ensures site.nextId == old(site.nextId) && site.aliases == old(site.aliases)
    ensures site.links == old(site.links) && site.nextUuid == old(site.nextUuid)
  {
    ghost var nodes0 := site.nodes;
    ghost var hi, rows := site.nextId, site.aliases;
    var ids := Query(site.nodes, OfType(bookType), site.nextId);
    var verses := site.nodes;
    var i := 0;
    ghost var seen: set<nat> := {};
    while i < |ids|
      invariant 0 <= i <= |ids|
      invariant site.Valid()
      invariant site.nextId == old(site.nextId) && site.aliases == old(site.aliases)
      invariant site.links == old(site.links) && site.nextUuid == old(site.nextUuid)
      invariant OnlyVerseBooks(nodes0, site.nodes, bookType)
      invariant forall j :: 0 <= j < i ==> ids[j] in seen
      invariant forall id :: id in seen ==> 0 < i && id <= ids[i - 1]
      invariant AssignedSoFar(nodes0, site.nodes, hi, rows, bookType, site.refused, seen)
    {
      var v := ids[i];
      assert v in nodes0 && nodes0[v].bundle == bookType;
      assert v !in seen by {
        if i > 0 {
          assert ids[i - 1] < ids[i];
        }
      }
      ghost var before := site.nodes;
      AssignOne(site, bookType, v, verses[v], nodes0);
      AssignedStep(nodes0, before, hi, rows, bookType, site.refused, seen, v);
      seen := seen + {v};
      i := i + 1;
    }
    forall id | id in nodes0
      ensures site.nodes[id] == nodes0[id].(book := NewBook(nodes0, hi, rows, bookType, site.refused, id))
    {
      assert site.nodes[id] == if id in seen then nodes0[id].(book := NewBook(nodes0, hi, rows, bookType, site.refused, id)) else nodes0[id];
      if id !in seen {
        assert id !in ids;
        assert !IsVerse(nodes0, id, bookType);
      }
    }
  }

  /** The live store during the run: the verses in `seen` are done, every
      other node is as it was. */
  ghost predicate AssignedSoFar(nodes0: map<nat, Node>, nodes: map<nat, Node>, hi: nat, rows: seq<PathAlias>, bookType: string,
                                refused: set<nat>, seen: set<nat>)
  {
    && nodes.Keys == nodes0.Keys
    && forall id :: id in nodes0 ==>
         nodes[id] == if id in seen then nodes0[id].(book := NewBook(nodes0, hi, rows, bookType, refused, id)) else nodes0[id]
  }

  lemma AssignedStep(nodes0: map<nat, Node>, nodes: map<nat, Node>, hi: nat, rows: seq<PathAlias>, bookType: string,
                     refused: set<nat>, seen: set<nat>, v: nat)
    requires AssignedSoFar(nodes0, nodes, hi, rows, bookType, refused, seen) && OnlyVerseBooks(nodes0, nodes, bookType)
    requires v in nodes0 && v !in seen && nodes0[v].bundle == bookType
    ensures var next := nodes[v := nodes0[v].(book := NewBook(nodes0, hi, rows, bookType, refused, v))];
      AssignedSoFar(nodes0, next, hi, rows, bookType, refused, seen + {v}) && OnlyVerseBooks(nodes0, next, bookType)
  {
  }

  /** The body of the loop for the verse `v`, loaded as `verse` before the
      loop started. */
  method AssignOne(site: Site, bookType: string, v: nat, verse: Node, ghost nodes0: map<nat, Node>)
    requires site.Valid()
    requires OnlyVerseBooks(nodes0, site.nodes, bookType)
    requires v in nodes0 && nodes0[v].bundle == bookType && verse == nodes0[v]
    requires site.nodes[v] == nodes0[v]
    modifies site
    ensures site.Valid()
    ensures site.nextId == old(site.nextId) && site.aliases == old(site.aliases)
    ensures site.links == old(site.links) && site.nextUuid == old(site.nextUuid)
    ensures site.nodes == old(site.nodes)[v := nodes0[v].(book := NewBook(nodes0, site.nextId, site.aliases, bookType, site.refused, v))]
  {
    ghost var target := Target(nodes0, site.nextId, site.aliases, bookType, v);
    var alias := PublishedAlias(site.aliases, NodePath(v));
    if alias.None? || FalsyString(alias.value) {
      assert target.None?;
      assert site.nodes == site.nodes[v := nodes0[v]];
      return;
    }
    var chapter := ResolveChapter(site, bookType, alias.value, nodes0);
    if chapter.Some? {
      ChapterIsNoVerse(nodes0, site.nextId, bookType, alias.value);
      var weight := ParseVerseFromAlias(alias.value);
      var parent := site.nodes[chapter.value];
      var link := BookLink(BidOf(parent), chapter.value, false, weight);
      assert target == Some(link);
      site.DropBookRow(v);
      var _ := site.Save(v, verse.(book := Some(link)));
    } else {
      assert target.None?;
      assert site.nodes == site.nodes[v := nodes0[v]];
    }
  }

  /** The live store differs from `nodes0` only in the outline links of
      verses of `bookType`. */
  ghost predicate OnlyVerseBooks(nodes0: map<nat, Node>, nodes: map<nat, Node>, bookType: string)
  {
    && SameButBooks(nodes0, nodes)
    && forall id :: id in nodes0 && nodes0[id].bundle != bookType ==> nodes[id] == nodes0[id]
  }

  /** The chapter lookup of the loop body, on the live store. */
  method ResolveChapter(site: Site, bookType: string, alias: string, ghost nodes0: map<nat, Node>) returns (chapter: Option<nat>)
    requires OnlyVerseBooks(nodes0, site.nodes, bookType)
    ensures chapter == ChapterOf(nodes0, site.nextId, bookType, alias)
  {
    chapter := None;
    var num := ParseChapterFromAlias(alias, bookType);
    if num.Some? && num.value != 0 {
      if bookType == "sb" {
        var song := ParseSongFromAlias(alias);
        if song.Some? && song.value != 0 {
          FindSbChapterIgnoresBooks(nodes0, site.nodes, site.nextId, song.value, num.value);
          chapter := FindSbChapter(site.nodes, site.nextId, song.value, num.value);
        }
      } else if bookType == "cc" {
        var lila := ParseLilaFromAlias(alias);
        if lila.Some? && !FalsyString(lila.value) {
          FindCcChapterIgnoresBooks(nodes0, site.nodes, site.nextId, lila.value, num.value);
          chapter := FindCcChapter(site.nodes, site.nextId, lila.value, num.value);
        }
      } else {
        FindChapterIgnoresBooks(nodes0, site.nodes, site.nextId, bookType, num.value);
        chapter := FindChapter(site.nodes, site.nextId, bookType, num.value);
      }
    }
  }

  /** A chapter is never a verse of its own book type. */
  lemma ChapterIsNoVerse(nodes: map<nat, Node>, hi: nat, bookType: string, alias: string)
    ensures var c := ChapterOf(nodes, hi, bookType, alias);
      c.Some? ==> c.value in nodes && nodes[c.value].bundle != bookType
  {
    var c := ChapterOf(nodes, hi, bookType, alias);
    if c.Some? {
      assert |ChapterBundle(bookType)| > |bookType|;
    }
  }

  /** Running the assignment a second time changes nothing: the lookups read
      no outline link and a chapter's own link is never rewritten. */
  lemma AssignIdempotent(nodes: map<nat, Node>, hi: nat, rows: seq<PathAlias>, bookType: string, refused: set<nat>)
    ensures var once := Assigned(nodes, hi, rows, bookType, refused);
      Assigned(once, hi, rows, bookType, refused) == once
  {
    var once := Assigned(nodes, hi, rows, bookType, refused);
    var twice := Assigned(once, hi, rows, bookType, refused);
    forall id | id in nodes
      ensures twice[id] == once[id]
    {
      TargetIgnoresOwnRun(nodes, hi, rows, bookType, refused, id);
    }
  }

  /** After a run, every node's target is the one it had before the run. */
  lemma TargetIgnoresOwnRun(nodes: map<nat, Node>, hi: nat, rows: seq<PathAlias>, bookType: string, refused: set<nat>, id: nat)
    ensures Target(Assigned(nodes, hi, rows, bookType, refused), hi, rows, bookType, id) == Target(nodes, hi, rows, bookType, id)
  {
    var once := Assigned(nodes, hi, rows, bookType, refused);
    var alias := PublishedAlias(rows, NodePath(id));
    if alias.Some? && !FalsyString(alias.value) {
      ChapterOfIgnoresBooks(nodes, once, hi, bookType, alias.value);
      ChapterIsNoVerse(nodes, hi, bookType, alias.value);
    }
  }

  lemma ChapterOfIgnoresBooks(a: map<nat, Node>, b: map<nat, Node>, hi: nat, bookType: string, alias: string)
    requires SameButBooks(a, b)
    ensures ChapterOf(a, hi, bookType, alias) == ChapterOf(b, hi, bookType, alias)
  {
    var num := ParseChapterFromAlias(alias, bookType);
    if num.Some? && num.value != 0 {
      if bookType == "sb" {
        var song := ParseSongFromAlias(alias);
        if song.Some? {
          FindSbChapterIgnoresBooks(a, b, hi, song.value, num.value);
        }
      } else if bookType == "cc" {
        var lila := ParseLilaFromAlias(alias);
        if lila.Some? {
          FindCcChapterIgnoresBooks(a, b, hi, lila.value, num.value);
        }
      } else {
        FindChapterIgnoresBooks(a, b, hi, bookType, num.value);
      }
    }
  }

  /** The link each verse ends up with: a verse whose alias is missing or
      falsy, or names no chapter, keeps its link; a placed verse hangs under
      the chapter as a leaf weighted by its verse number, unless the save
      was refused, which leaves it outside any outline. */
  lemma AssignedLinks(nodes: map<nat, Node>, hi: nat, rows: seq<PathAlias>, bookType: string, refused: set<nat>, id: nat)
    requires IsVerse(nodes, id, bookType)
    ensures var r := Assigned(nodes, hi, rows, bookType, refused);
      var alias := PublishedAlias(rows, NodePath(id));
      && (alias.None? || FalsyString(alias.value) ==> r[id].book == nodes[id].book)
      && (alias.Some? && ParseChapterFromAlias(alias.value, bookType) in {None, Some(0)} ==> r[id].book == nodes[id].book)
      && (alias.Some? && !FalsyString(alias.value) && ChapterOf(nodes, hi, bookType, alias.value).None? ==> r[id].book == nodes[id].book)
      && (alias.Some? && !FalsyString(alias.value) && ChapterOf(nodes, hi, bookType, alias.value).Some? ==>
            var c := ChapterOf(nodes, hi, bookType, alias.value).value;
            r[id].book == if id in refused then None
                          else Some(BookLink(BidOf(nodes[c]), c, false, ParseVerseFromAlias(alias.value))))
  {
    TargetFacts(nodes, hi, rows, bookType, id);
  }

  // ---------------------------------------------------------------------
  // deleteStructure

  /** The bundles `deleteStructure(bookType)` removes: the book's chapters,
      and its songs or lilas for `sb` and `cc`. */
  predicate Structural(bookType: string, bundle: string)
  {
    || bundle == ChapterBundle(bookType)
    || (bookType == "sb" && bundle == "sb_song")
    || (bookType == "cc" && bundle == "cc_lila")
  }

  /** The verses of a book are never structural. */
  lemma VersesAreNotStructural(bookType: string)
    ensures !Structural(bookType, bookType)
  {
    assert |ChapterBundle(bookType)| > |bookType|;
  }

  /** The store without the structural nodes of `bookType`. */
  function Stripped(nodes: map<nat, Node>, bookType: string): map<nat, Node>
  {
    map id | id in nodes && !Structural(bookType, nodes[id].bundle) :: nodes[id]
  }

  /** The store with the outline links of the verses below `bound` emptied. */
  function Unlinked(nodes: map<nat, Node>, bookType: string, bound: nat): map<nat, Node>
  {
    map id | id in nodes :: if nodes[id].bundle == bookType && id < bound then nodes[id].(book := None) else nodes[id]
  }

  /** The index in `ids` of the first id whose save is refused, or `|ids|`. */
  function FirstRefused(ids: seq<nat>, refused: set<nat>): (k: nat)
    ensures k <= |ids|
    ensures forall j :: 0 <= j < k ==> ids[j] !in refused
    ensures k < |ids| ==> ids[k] in refused
  {
    if ids == [] then 0
    else if ids[0] in refused then 0
    else 1 + FirstRefused(ids[1..], refused)
  }

  /** What `deleteStructure` leaves behind and how it ends. */
  datatype Teardown = Teardown(nodes: map<nat, Node>, out: Outcome)

  /** `deleteStructure(bookType)`: structural nodes go; then, in id order,
      each verse loses its outline link until a save is refused, whose
      exception ends the operation. */
  function DeleteResult(nodes: map<nat, Node>, hi: nat, bookType: string, refused: set<nat>): Teardown
  {
    var rest := Stripped(nodes, bookType);
    var verses := Query(rest, OfType(bookType), hi);
    var k := FirstRefused(verses, refused);
    if k == |verses| then Teardown(Unlinked(rest, bookType, hi), Pass)
    else Teardown(Unlinked(rest, bookType, verses[k]), Fail(SaveRefused(verses[k])))
  }

  method DeleteStructure(site: Site, bookType: string) returns (out: Outcome)
    requires site.Valid()
    modifies site
    ensures site.Valid()
    ensures DeleteResult(old(site.nodes), old(site.nextId), bookType, site.refused) == Teardown(site.nodes, out)
    ensures site.nextId == old(site.nextId) && site.aliases == old(site.aliases)
    ensures site.links == old(site.links) && site.nextUuid == old(site.nextUuid)
  {
    RemoveStructure(site, bookType);
    var verseIds := Query(site.nodes, OfType(bookType), site.nextId);
    var verses := site.nodes;
    UnlinkedStart(verses, bookType, site.nextId, verseIds);
    var i := 0;
    while i < |verseIds|
      invariant 0 <= i <= |verseIds|
      invariant site.Valid()
      invariant site.nextId == old(site.nextId) && site.aliases == old(site.aliases)
      invariant site.links == old(site.links) && site.nextUuid == old(site.nextUuid)
      invariant forall j :: 0 <= j < i ==> verseIds[j] !in site.refused
      invariant site.nodes == Unlinked(verses, bookType, if i < |verseIds| then verseIds[i] else site.nextId)
    {
      var v := verseIds[i];
      var ok := site.Save(v, verses[v].(book := None));
      if !ok {
        assert FirstRefused(verseIds, site.refused) == i by {
          FirstRefusedAt(verseIds, site.refused, i);
        }
        return Fail(SaveRefused(v));
      }
      UnlinkedStep(verses, bookType, site.nextId, verseIds, i);
      i := i + 1;
    }
    FirstRefusedAt(verseIds, site.refused, |verseIds|);
    out := Pass;
  }

  /** The first two phases of `deleteStructure`: the chapters, then the
      songs (`sb`) or lilas (`cc`). */
  method RemoveStructure(site: Site, bookType: string)
    requires site.Valid()
    modifies site
    ensures site.Valid()
    ensures site.nodes == Stripped(old(site.nodes), bookType)
    ensures site.nextId == old(site.nextId) && site.aliases == old(site.aliases)
    ensures site.links == old(site.links) && site.nextUuid == old(site.nextUuid)
  {
    ghost var nodes0 := site.nodes;
    var chapterIds := Query(site.nodes, OfType(ChapterBundle(bookType)), site.nextId);
    DropBundle(site.nodes, ChapterBundle(bookType), site.nextId, chapterIds);
    if chapterIds != [] {
      site.DeleteAll(chapterIds);
    }
    if bookType == "sb" {
      var songIds := Query(site.nodes, OfType("sb_song"), site.nextId);
      DropBundle(site.nodes, "sb_song", site.nextId, songIds);
      if songIds != [] {
        site.DeleteAll(songIds);
      }
    } else if bookType == "cc" {
      var lilaIds := Query(site.nodes, OfType("cc_lila"), site.nextId);
      DropBundle(site.nodes, "cc_lila", site.nextId, lilaIds);
      if lilaIds != [] {
        site.DeleteAll(lilaIds);
      }
    }
    StrippedInPhases(nodes0, bookType);
  }

  /** The store without the nodes of one bundle. */
  function Without(nodes: map<nat, Node>, bundle: string): map<nat, Node>
  {
    map id | id in nodes && nodes[id].bundle != bundle :: nodes[id]
  }

  /** Deleting the result of the bundle query removes exactly that bundle. */
  lemma DropBundle(nodes: map<nat, Node>, bundle: string, hi: nat, ids: seq<nat>)
    requires forall id :: id in nodes ==> id < hi
    requires ids == Query(nodes, OfType(bundle), hi)
    ensures nodes - (set i | i in ids) == Without(nodes, bundle)
    ensures ids == [] ==> nodes == Without(nodes, bundle)
  {
    forall id | id in nodes && nodes[id].bundle == bundle
      ensures id in ids
    {
      assert Selects(nodes, OfType(bundle), id);
    }
  }

  /** The three phases of the teardown remove what `Stripped` removes. */
  lemma StrippedInPhases(nodes: map<nat, Node>, bookType: string)
    ensures bookType == "sb" ==> Stripped(nodes, bookType) == Without(Without(nodes, ChapterBundle(bookType)), "sb_song")
    ensures bookType == "cc" ==> Stripped(nodes, bookType) == Without(Without(nodes, ChapterBundle(bookType)), "cc_lila")
    ensures bookType != "sb" && bookType != "cc" ==> Stripped(nodes, bookType) == Without(nodes, ChapterBundle(bookType))
  {
  }

  lemma {:induction false} FirstRefusedAt(ids: seq<nat>, refused: set<nat>, i: nat)
    requires i <= |ids|
    requires forall j :: 0 <= j < i ==> ids[j] !in refused
    requires i < |ids| ==> ids[i] in refused
    ensures FirstRefused(ids, refused) == i
  {
    if i > 0 {
      FirstRefusedAt(ids[1..], refused, i - 1);
    }
  }

  /** A verse above `ids[i]` and below `hi` is at or above `ids[i + 1]`. */
  lemma NextVerse(nodes: map<nat, Node>, bookType: string, hi: nat, ids: seq<nat>, i: nat, id: nat)
    requires ids == Query(nodes, OfType(bookType), hi)
    requires i < |ids| && id in nodes && nodes[id].bundle == bookType && ids[i] < id < hi
    ensures i + 1 < |ids| && ids[i + 1] <= id
  {
    assert Selects(nodes, OfType(bookType), id);
    var j :| 0 <= j < |ids| && ids[j] == id;
    assert i < j;
    if i + 1 < j {
      assert ids[i + 1] < ids[j];
    }
  }

  /** A verse below `hi` is at or above `ids[0]`. */
  lemma FirstVerse(nodes: map<nat, Node>, bookType: string, hi: nat, ids: seq<nat>, id: nat)
    requires ids == Query(nodes, OfType(bookType), hi)
    requires id in nodes && nodes[id].bundle == bookType && id < hi
    ensures 0 < |ids| && ids[0] <= id
  {
    assert Selects(nodes, OfType(bookType), id);
    var j :| 0 <= j < |ids| && ids[j] == id;
    if 0 < j {
      assert ids[0] < ids[j];
    }
  }

  /** Before the loop no verse is cleared yet. */
  lemma UnlinkedStart(nodes: map<nat, Node>, bookType: string, hi: nat, ids: seq<nat>)
    requires ids == Query(nodes, OfType(bookType), hi)
    ensures Unlinked(nodes, bookType, if 0 < |ids| then ids[0] else hi) == nodes
  {
    var first := if 0 < |ids| then ids[0] else hi;
    forall id | id in nodes && nodes[id].bundle == bookType && id < hi
      ensures first <= id
    {
      FirstVerse(nodes, bookType, hi, ids, id);
    }
  }

  /** Clearing verse `ids[i]` moves the bound to the next verse. */
  lemma UnlinkedStep(nodes: map<nat, Node>, bookType: string, hi: nat, ids: seq<nat>, i: nat)
    requires ids == Query(nodes, OfType(bookType), hi)
    requires i < |ids|
    ensures Unlinked(nodes, bookType, ids[i])[ids[i] := nodes[ids[i]].(book := None)]
      == Unlinked(nodes, bookType, if i + 1 < |ids| then ids[i + 1] else hi)
  {
    var next := if i + 1 < |ids| then ids[i + 1] else hi;
    var a := Unlinked(nodes, bookType, ids[i])[ids[i] := nodes[ids[i]].(book := None)];
    var b := Unlinked(nodes, bookType, next);
    forall id | id in nodes
      ensures a[id] == b[id]
    {
      if nodes[id].bundle == bookType && ids[i] < id < hi {
        NextVerse(nodes, bookType, hi, ids, i, id);
      }
    }
    assert a.Keys == b.Keys;
  }

  /** After the teardown no structural node of the book type is left; every
      other node is still there, changed at most in its outline link. */
  lemma DeleteKeepsContent(nodes: map<nat, Node>, hi: nat, bookType: string, refused: set<nat>)
    ensures var r := DeleteResult(nodes, hi, bookType, refused).nodes;
      && (forall id :: id in r <==> id in nodes && !Structural(bookType, nodes[id].bundle))
      && (forall id :: id in r ==> r[id].(book := None) == nodes[id].(book := None))
      && (forall id :: id in r && r[id].bundle != bookType ==> r[id] == nodes[id])
  {
  }

  /** The teardown stops at the least verse whose save is refused, and
      passes only when there is none. */
  lemma DeleteStopsAtFirstRefusal(nodes: map<nat, Node>, hi: nat, bookType: string, refused: set<nat>)
    requires forall id :: id in nodes ==> id < hi
    ensures var out := DeleteResult(nodes, hi, bookType, refused).out;
      && (out.Pass? <==> forall id: nat :: IsVerse(nodes, id, bookType) ==> id !in refused)
      && (out.Fail? ==>
            && out.failure.SaveRefused?
            && IsVerse(nodes, out.failure.nid, bookType) && out.failure.nid in refused
            && forall id: nat :: IsVerse(nodes, id, bookType) && id < out.failure.nid ==> id !in refused)
  {
    var rest := Stripped(nodes, bookType);
    VersesAreNotStructural(bookType);
    var verses := Query(rest, OfType(bookType), hi);
    var k := FirstRefused(verses, refused);
    forall id: nat | IsVerse(nodes, id, bookType) && id in refused
      ensures k < |verses| && verses[k] <= id
    {
      assert Selects(rest, OfType(bookType), id);
      var j :| 0 <= j < |verses| && verses[j] == id;
      if k < j {
        assert verses[k] < verses[j];
      }
    }
  }

  /** The links the teardown leaves: a verse below the bound where it
      stopped (every verse, when it passed) is out of its outline, and a
      verse at or above it is untouched. */
  lemma DeleteClearsUpToStop(nodes: map<nat, Node>, hi: nat, bookType: string, refused: set<nat>)
    requires forall id :: id in nodes ==> id < hi
    ensures var t := DeleteResult(nodes, hi, bookType, refused);
      var stop := if t.out.Fail? && t.out.failure.SaveRefused? then t.out.failure.nid else hi;
      && (forall id: nat :: IsVerse(nodes, id, bookType) && id < stop ==> t.nodes[id].book.None?)
      && (forall id: nat :: IsVerse(nodes, id, bookType) && stop <= id ==> t.nodes[id] == nodes[id])
  {
    VersesAreNotStructural(bookType);
  }

  /** On what the teardown leaves, the assignment finds no chapter for any
      verse, so it changes nothing. */
  lemma AssignAfterDelete(nodes: map<nat, Node>, hi: nat, rows: seq<PathAlias>, bookType: string, refused: set<nat>)
    ensures var r := DeleteResult(nodes, hi, bookType, refused).nodes;
      Assigned(r, hi, rows, bookType, refused) == r
  {
    var r := DeleteResult(nodes, hi, bookType, refused).nodes;
    DeleteKeepsContent(nodes, hi, bookType, refused);
    forall id | id in r
      ensures Target(r, hi, rows, bookType, id).None?
    {
      var alias := PublishedAlias(rows, NodePath(id));
      if alias.Some? {
        ChapterOfFacts(r, hi, bookType, alias.value);
      }
    }
  }
}
