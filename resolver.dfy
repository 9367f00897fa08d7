/**
 * The hierarchy resolver: read-only lookups of a chapter by its number,
 * directly for single-level books and through its song or lila for the
 * divided ones.  Each lookup takes the first match of an entity query,
 * which in this model is the match with the least node id.
 */
module Resolver {
  import opened Base
  import opened Content

  /** The content type of a book's chapters. */
  function ChapterBundle(bookType: string): string
  {
    bookType + "_chapter"
  }

  /** A chapter of the given book type with the given `field_number`. */
  predicate IsChapter(nodes: map<nat, Node>, id: nat, bookType: string, number: int)
  {
    id in nodes && nodes[id].bundle == ChapterBundle(bookType) && nodes[id].number == Some(number)
  }

  /** `findChapter`: the first chapter of `bookType` numbered `number`. */
  function FindChapter(nodes: map<nat, Node>, hi: nat, bookType: string, number: int): (r: Option<nat>)
    ensures r.Some? ==> IsChapter(nodes, r.value, bookType, number)
    ensures r.Some? ==> forall id: nat :: id < r.value ==> !IsChapter(nodes, id, bookType, number)
    ensures r.None? <==> forall id: nat :: id < hi ==> !IsChapter(nodes, id, bookType, number)
  {
    var c := Cond(ChapterBundle(bookType), Some(number), None, None, None);
    var r := First(nodes, c, hi);
    assert forall id: nat :: Selects(nodes, c, id) <==> IsChapter(nodes, id, bookType, number);
    r
  }

  /** A division node (song or lila) of the given bundle and number. */
  predicate IsDivision(nodes: map<nat, Node>, id: nat, bundle: string, number: int)
  {
    id in nodes && nodes[id].bundle == bundle && nodes[id].number == Some(number)
  }

  /** The division the lookups pick: the least-id node below `hi` of
      `bundle` numbered `number`. */
  predicate IsFirstDivision(nodes: map<nat, Node>, hi: nat, id: nat, bundle: string, number: int)
  {
    && id < hi && IsDivision(nodes, id, bundle, number)
    && forall j: nat :: j < id ==> !IsDivision(nodes, j, bundle, number)
  }

  /** A Srimad-Bhagavatam chapter numbered `chapter` whose song is `song`. */
  predicate IsSongChapter(nodes: map<nat, Node>, id: nat, song: nat, chapter: int)
  {
    IsChapter(nodes, id, "sb", chapter) && nodes[id].songRef == Some(song)
  }

  /** `findSbChapter`: the first song numbered `song`, then the first
      chapter numbered `chapter` whose `field_song_ref` is that song.
      The result is exactly the least chapter below `hi` under the first
      such song: found whenever one exists, none otherwise. */
  function FindSbChapter(nodes: map<nat, Node>, hi: nat, song: int, chapter: int): (r: Option<nat>)
    ensures (forall id: nat :: id < hi ==> !IsDivision(nodes, id, "sb_song", song)) ==> r.None?
    ensures r.Some? ==> r.value < hi && IsChapter(nodes, r.value, "sb", chapter)
    ensures r.Some? ==> var s := nodes[r.value].songRef;
      && s.Some? && IsFirstDivision(nodes, hi, s.value, "sb_song", song)
      && forall id: nat :: id < r.value ==> !IsSongChapter(nodes, id, s.value, chapter)
    ensures forall s: nat, c: nat ::
      IsFirstDivision(nodes, hi, s, "sb_song", song) && c < hi && IsSongChapter(nodes, c, s, chapter) ==> r.Some? && r.value <= c
  {
    var sc := Cond("sb_song", Some(song), None, None, None);
    assert forall id: nat :: Selects(nodes, sc, id) <==> IsDivision(nodes, id, "sb_song", song);
    var s := First(nodes, sc, hi);
    if s.None? then None
    else
      var cc := Cond("sb_chapter", Some(chapter), None, Some(s.value), None);
      assert forall id: nat :: Selects(nodes, cc, id) <==> IsSongChapter(nodes, id, s.value, chapter);
      assert forall t: nat :: IsFirstDivision(nodes, hi, t, "sb_song", song) ==> t == s.value;
      First(nodes, cc, hi)
  }

  /** The `$lila_map` of `findCcChapter`. */
  function LilaOrdinal(name: string): (r: Option<int>)
    ensures r.Some? <==> name in {"adi", "madhya", "antya"}
    ensures r.Some? ==> 1 <= r.value <= 3
  {
    if name == "adi" then Some(1)
    else if name == "madhya" then Some(2)
    else if name == "antya" then Some(3)
    else None
  }

  /** A Caitanya-caritamrta chapter numbered `chapter` whose lila is `lila`. */
  predicate IsLilaChapter(nodes: map<nat, Node>, id: nat, lila: nat, chapter: int)
  {
    IsChapter(nodes, id, "cc", chapter) && nodes[id].lilaRef == Some(lila)
  }

  /** `findCcChapter`: null for an unknown lila name; otherwise the first
      lila with that name's ordinal, then the first chapter numbered
      `chapter` whose `field_lila_ref` is that lila.  For a known name the
      result is exactly the least chapter below `hi` under the first such
      lila: found whenever one exists, none otherwise. */
  function FindCcChapter(nodes: map<nat, Node>, hi: nat, lila: string, chapter: int): (r: Option<nat>)
    ensures LilaOrdinal(lila).None? ==> r.None?
    ensures LilaOrdinal(lila).Some? && (forall id: nat :: id < hi ==> !IsDivision(nodes, id, "cc_lila", LilaOrdinal(lila).value)) ==> r.None?
    ensures r.Some? ==> r.value < hi && IsChapter(nodes, r.value, "cc", chapter)
    ensures r.Some? ==> var l := nodes[r.value].lilaRef;
      && LilaOrdinal(lila).Some? && l.Some? && IsFirstDivision(nodes, hi, l.value, "cc_lila", LilaOrdinal(lila).value)
      && forall id: nat :: id < r.value ==> !IsLilaChapter(nodes, id, l.value, chapter)
    ensures LilaOrdinal(lila).Some? ==> forall l: nat, c: nat ::
      IsFirstDivision(nodes, hi, l, "cc_lila", LilaOrdinal(lila).value) && c < hi && IsLilaChapter(nodes, c, l, chapter) ==> r.Some? && r.value <= c
  {
    var num := LilaOrdinal(lila);
    if num.None? then None
    else
      var lc := Cond("cc_lila", Some(num.value), None, None, None);
      assert forall id: nat :: Selects(nodes, lc, id) <==> IsDivision(nodes, id, "cc_lila", num.value);
      var l := First(nodes, lc, hi);
      if l.None? then None
      else
        var cc := Cond("cc_chapter", Some(chapter), None, None, Some(l.value));
        assert forall id: nat :: Selects(nodes, cc, id) <==> IsLilaChapter(nodes, id, l.value, chapter);
        assert forall t: nat :: IsFirstDivision(nodes, hi, t, "cc_lila", num.value) ==> t == l.value;
        First(nodes, cc, hi)
  }

  /** Two first divisions of the same bundle and number are the same node. */
  lemma FirstDivisionUnique(nodes: map<nat, Node>, hi: nat, s: nat, t: nat, bundle: string, number: int)
    requires IsFirstDivision(nodes, hi, s, bundle, number) && IsFirstDivision(nodes, hi, t, bundle, number)
    ensures s == t
  {
  }

  /** Conversely to its contract's completeness clause: when `c` is the least
      chapter numbered `chapter` under the first song numbered `song`,
      `findSbChapter` returns exactly `c`. */
  lemma SbChapterFound(nodes: map<nat, Node>, hi: nat, song: int, chapter: int, s: nat, c: nat)
    requires IsFirstDivision(nodes, hi, s, "sb_song", song)
    requires c < hi && IsSongChapter(nodes, c, s, chapter)
    requires forall id: nat :: id < c ==> !IsSongChapter(nodes, id, s, chapter)
    ensures FindSbChapter(nodes, hi, song, chapter) == Some(c)
  {
    var r := FindSbChapter(nodes, hi, song, chapter);
    assert r.Some? && r.value <= c;
    FirstDivisionUnique(nodes, hi, nodes[r.value].songRef.value, s, "sb_song", song);
    assert IsSongChapter(nodes, r.value, s, chapter);
  }

  /** The same for `findCcChapter` and a lila name the lookup knows. */
  lemma CcChapterFound(nodes: map<nat, Node>, hi: nat, lila: string, chapter: int, l: nat, c: nat)
    requires LilaOrdinal(lila).Some?
    requires IsFirstDivision(nodes, hi, l, "cc_lila", LilaOrdinal(lila).value)
    requires c < hi && IsLilaChapter(nodes, c, l, chapter)
    requires forall id: nat :: id < c ==> !IsLilaChapter(nodes, id, l, chapter)
    ensures FindCcChapter(nodes, hi, lila, chapter) == Some(c)
  {
    var r := FindCcChapter(nodes, hi, lila, chapter);
    assert r.Some? && r.value <= c;
    FirstDivisionUnique(nodes, hi, nodes[r.value].lilaRef.value, l, "cc_lila", LilaOrdinal(lila).value);
    assert IsLilaChapter(nodes, r.value, l, chapter);
  }

  /** The lookups read no outline link, so reassigning verses never changes
      what they find. */
  lemma FindChapterIgnoresBooks(a: map<nat, Node>, b: map<nat, Node>, hi: nat, bookType: string, n: int)
    requires SameButBooks(a, b)
    ensures FindChapter(a, hi, bookType, n) == FindChapter(b, hi, bookType, n)
  {
    QueryIgnoresBooks(a, b, Cond(ChapterBundle(bookType), Some(n), None, None, None), hi);
  }

  lemma FindSbChapterIgnoresBooks(a: map<nat, Node>, b: map<nat, Node>, hi: nat, m: int, n: int)
    requires SameButBooks(a, b)
    ensures FindSbChapter(a, hi, m, n) == FindSbChapter(b, hi, m, n)
  {
    QueryIgnoresBooks(a, b, Cond("sb_song", Some(m), None, None, None), hi);
    var s := First(a, Cond("sb_song", Some(m), None, None, None), hi);
    if s.Some? {
      QueryIgnoresBooks(a, b, Cond("sb_chapter", Some(n), None, Some(s.value), None), hi);
    }
  }

  lemma FindCcChapterIgnoresBooks(a: map<nat, Node>, b: map<nat, Node>, hi: nat, lila: string, n: int)
    requires SameButBooks(a, b)
    ensures FindCcChapter(a, hi, lila, n) == FindCcChapter(b, hi, lila, n)
  {
    var num := LilaOrdinal(lila);
    if num.Some? {
      QueryIgnoresBooks(a, b, Cond("cc_lila", Some(num.value), None, None, None), hi);
      var l := First(a, Cond("cc_lila", Some(num.value), None, None, None), hi);
      if l.Some? {
        QueryIgnoresBooks(a, b, Cond("cc_chapter", Some(n), None, None, Some(l.value)), hi);
      }
    }
  }
}
