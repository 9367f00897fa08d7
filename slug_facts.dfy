/**
 * What the slug grammar promises: every alias written in the shape the
 * structure builder uses for chapters, extended by a verse tail, parses back
 * to the coordinates it was built from, and the worked examples behave as
 * the source's comments describe.
 */
module SlugFacts {
  import opened Base
  import opened Slugs

  // ---------------------------------------------------------------------
  // Helpers: greedy runs over decimal text

  lemma {:induction false} DigitRunStops(d: string, rest: string)
    requires AllDigits(d)
    requires rest == [] || !IsDigit(rest[0])
    ensures DigitRun(d + rest) == |d|
  {
    if d != [] {
      assert (d + rest)[1..] == d[1..] + rest;
      DigitRunStops(d[1..], rest);
    } else {
      assert d + rest == rest;
    }
  }

  lemma {:induction false} SegmentRunStops(name: string, rest: string)
    requires forall i :: 0 <= i < |name| ==> name[i] != '/'
    requires rest != [] && rest[0] == '/'
    ensures SegmentRun(name + rest) == |name|
  {
    if name != [] {
      assert (name + rest)[1..] == name[1..] + rest;
      SegmentRunStops(name[1..], rest);
    } else {
      assert name + rest == rest;
    }
  }

  lemma NumberThenSlashOf(n: nat, rest: string)
    ensures NumberThenSlash(Decimal(n) + "/" + rest) == Some(Decimal(n))
  {
    var d := Decimal(n);
    DigitRunStops(d, "/" + rest);
    assert d + "/" + rest == d + ("/" + rest);
    assert (d + "/" + rest)[..|d|] == d;
  }

  /** If the pattern fails before `p` and matches at `p`, the scan stops at `p`. */
  lemma LeftmostIs<T>(s: string, at: string -> Option<T>, p: nat, c: T)
    requires p <= |s|
    requires forall q :: 0 <= q < p ==> at(s[q..]).None?
    requires at(s[p..]) == Some(c)
    ensures Leftmost(s, at, 0) == Some(Hit(p, c))
  {
  }

  lemma Split(prefix: string, u: string)
    ensures StartsWith(prefix + u, prefix) && (prefix + u)[|prefix|..] == u
  {
    assert (prefix + u)[..|prefix|] == prefix;
  }

  lemma SkipNumber(n: nat, tail: string)
    ensures (Decimal(n) + "/" + tail)[|Decimal(n)| + 1..] == tail
  {
  }

  lemma DivisionAliasShape(bookType: string, division: string, c: nat, rest: string)
    ensures DivisionChapterAlias(bookType, division, c) + "/" + rest
         == ("/books/" + bookType + "/") + (division + "/" + (Decimal(c) + "/" + rest))
  {
  }

  // ---------------------------------------------------------------------
  // Chapter, song and lila coordinates

  /** A verse alias under a single-level chapter gives back the chapter. */
  lemma BgChapterRoundTrip(c: nat, rest: string)
    ensures ParseChapterFromAlias(ChapterAlias("bg", c) + "/" + rest, "bg") == Some(c)
  {
    var s := ChapterAlias("bg", c) + "/" + rest;
    assert s == BgPrefix + (Decimal(c) + "/" + rest);
    assert s[..|BgPrefix|] == BgPrefix;
    assert s[|BgPrefix|..] == Decimal(c) + "/" + rest;
    NumberThenSlashOf(c, rest);
    assert BgChapterAt(s[0..]) == Some(Decimal(c));
    LeftmostIs(s, BgChapterAt, 0, Decimal(c));
    DecimalRoundTrip(c);
  }

  /** The chapter pattern of a numbered division matches at the start of
      a verse alias built from the division's chapter alias. */
  lemma SbPatternsAtStart(song: nat, c: nat, rest: string)
    ensures SbChapterAt(DivisionChapterAlias("sb", Decimal(song), c) + "/" + rest) == Some(Decimal(c))
    ensures SongAt(DivisionChapterAlias("sb", Decimal(song), c) + "/" + rest) == Some(Decimal(song))
  {
    var tail := Decimal(c) + "/" + rest;
    var u := Decimal(song) + "/" + tail;
    DivisionAliasShape("sb", Decimal(song), c, rest);
    assert "/books/" + "sb" + "/" == SbPrefix;
    Split(SbPrefix, u);
    NumberThenSlashOf(song, tail);
    SkipNumber(song, tail);
    NumberThenSlashOf(c, rest);
  }

  /** A verse alias under a chapter of a numbered division gives back both
      the division (song) and the chapter. */
  lemma SbChapterRoundTrip(song: nat, c: nat, rest: string)
    ensures ParseChapterFromAlias(DivisionChapterAlias("sb", Decimal(song), c) + "/" + rest, "sb") == Some(c)
    ensures ParseSongFromAlias(DivisionChapterAlias("sb", Decimal(song), c) + "/" + rest) == Some(song)
  {
    var s := DivisionChapterAlias("sb", Decimal(song), c) + "/" + rest;
    SbPatternsAtStart(song, c, rest);
    assert s[0..] == s;
    LeftmostIs(s, SbChapterAt, 0, Decimal(c));
    DecimalRoundTrip(c);
    LeftmostIs(s, SongAt, 0, Decimal(song));
    DecimalRoundTrip(song);
  }

  /** The chapter pattern of a named division matches at the start of a
      verse alias built from the division's chapter alias. */
  lemma CcPatternsAtStart(name: string, c: nat, rest: string)
    requires 0 < |name| && forall i :: 0 <= i < |name| ==> name[i] != '/'
    ensures CcChapterAt(DivisionChapterAlias("cc", name, c) + "/" + rest) == Some(Decimal(c))
    ensures LilaAt(DivisionChapterAlias("cc", name, c) + "/" + rest) == Some(name)
  {
    var tail := Decimal(c) + "/" + rest;
    var u := name + "/" + tail;
    DivisionAliasShape("cc", name, c, rest);
    assert "/books/" + "cc" + "/" == CcPrefix;
    Split(CcPrefix, u);
    assert u == name + ("/" + tail);
    SegmentRunStops(name, "/" + tail);
    Split(name, "/" + tail);
    assert SegmentThenSlash(u) == Some(name);
    assert u[|name| + 1..] == tail;
    NumberThenSlashOf(c, rest);
  }

  /** A verse alias under a chapter of a named division gives back both
      the division name and the chapter. */
  lemma CcChapterRoundTrip(name: string, c: nat, rest: string)
    requires 0 < |name| && forall i :: 0 <= i < |name| ==> name[i] != '/'
    ensures ParseChapterFromAlias(DivisionChapterAlias("cc", name, c) + "/" + rest, "cc") == Some(c)
    ensures ParseLilaFromAlias(DivisionChapterAlias("cc", name, c) + "/" + rest) == Some(name)
  {
    var s := DivisionChapterAlias("cc", name, c) + "/" + rest;
    CcPatternsAtStart(name, c, rest);
    assert s[0..] == s;
    LeftmostIs(s, CcChapterAt, 0, Decimal(c));
    DecimalRoundTrip(c);
    LeftmostIs(s, LilaAt, 0, name);
  }

  /** The alias of a chapter itself (no trailing segment) is not a verse
      alias: it carries no chapter coordinate for the single-level grammar. */
  lemma BgChapterAliasHasNoChapter(c: nat)
    ensures ParseChapterFromAlias(ChapterAlias("bg", c), "bg") == None
  {
    var s := ChapterAlias("bg", c);
    forall p | 0 <= p <= |s| ensures BgChapterAt(s[p..]).None? {
      if p == 0 {
        assert s[|BgPrefix|..] == Decimal(c);
        DigitRunStops(Decimal(c), []);
        assert Decimal(c) + [] == Decimal(c);
      }
    }
  }

  // ---------------------------------------------------------------------
  // Verse tails

  /** `/N` and `/N-M` are verse tails, whatever comes before them. */
  lemma VerseTailOf(d: string, e: Option<string>)
    requires DigitText(d) && (e.Some? ==> DigitText(e.value))
    ensures VerseTailAt(TailText(d, e)) == Some(VerseTail(d, e, |TailText(d, e)|))
  {
    if e.Some? {
      assert TailText(d, e) == "/" + d + "-" + e.value;
      RangeTailOfDigits(d, e.value);
    } else {
      assert TailText(d, e) == "/" + d;
      SingleTailOfDigits(d);
    }
  }

  predicate DigitText(d: string)
  {
    0 < |d| && AllDigits(d)
  }

  lemma SingleTailOfDigits(d: string)
    requires DigitText(d)
    ensures VerseTailAt("/" + d) == Some(VerseTail(d, None, 1 + |d|))
  {
    var t := "/" + d;
    Split("/", d);
    DigitRunStops(d, []);
    assert d + [] == d;
    assert t[1..][..|d|] == d;
    assert t[1 + |d|..] == [];
  }

  lemma RangeEndOf(e: string)
    requires DigitText(e)
    ensures RangeEnd("-" + e) == Some(|e|)
  {
    Split("-", e);
    DigitRunStops(e, []);
    assert e + [] == e;
    assert ("-" + e)[1 + |e|..] == [];
  }

  /** The verse number at the head of `/<d><rest>` is `d`, when `rest`
      does not continue it. */
  lemma TailHead(d: string, rest: string)
    requires DigitText(d)
    requires rest == [] || !IsDigit(rest[0])
    ensures var t := "/" + d + rest;
      && t != [] && t[0] == '/' && DigitRun(t[1..]) == |d|
      && t[1..][..|d|] == d && t[1 + |d|..] == rest
  {
    var t := "/" + d + rest;
    assert t == "/" + (d + rest);
    Split("/", d + rest);
    DigitRunStops(d, rest);
    Split(d, rest);
  }

  lemma RangeTailOfDigits(d: string, e: string)
    requires DigitText(d) && DigitText(e)
    ensures VerseTailAt("/" + d + "-" + e) == Some(VerseTail(d, Some(e), 2 + |d| + |e|))
  {
    var rest := "-" + e;
    TailHead(d, rest);
    assert "/" + d + "-" + e == "/" + d + rest;
    assert !AtEnd(rest);
    RangeEndOf(e);
    Split("-", e);
    assert rest[1..][..|e|] == e;
  }

  /** `/<d>` or `/<d>-<e>`. */
  function TailText(d: string, e: Option<string>): string
  {
    "/" + d + (if e.Some? then "-" + e.value else "")
  }

  /** `/N` or `/N-M` for numbers. */
  function VerseTailText(n: nat, m: Option<nat>): string
  {
    TailText(Decimal(n), DecimalOf(m))
  }

  function DecimalOf(m: Option<nat>): Option<string>
  {
    if m.Some? then Some(Decimal(m.value)) else None
  }

  /** Only the verse tail itself can match the `$`-anchored verse pattern. */
  lemma TailIsLeftmost(pre: string, d: string, e: Option<string>)
    requires DigitText(d) && (e.Some? ==> DigitText(e.value))
    ensures Leftmost(pre + TailText(d, e), VerseTailAt, 0) == Some(Hit(|pre|, VerseTail(d, e, |TailText(d, e)|)))
  {
    var s := pre + TailText(d, e);
    forall q | 0 <= q < |pre| ensures VerseTailAt(s[q..]).None? {
      assert s[q..][|pre| - q] == '/';
      if VerseTailAt(s[q..]).Some? {
        VerseTailIsLastSegment(s[q..], |pre| - q);
      }
    }
    assert s[|pre|..] == TailText(d, e);
    VerseTailOf(d, e);
    LeftmostIs(s, VerseTailAt, |pre|, VerseTail(d, e, |TailText(d, e)|));
  }

  /** `parseVerseFromAlias` returns N for an alias ending in `/N` or `/N-M`. */
  lemma VerseNumberRoundTrip(pre: string, n: nat, m: Option<nat>)
    ensures ParseVerseFromAlias(pre + VerseTailText(n, m)) == n
  {
    TailIsLeftmost(pre, Decimal(n), DecimalOf(m));
    DecimalRoundTrip(n);
  }

  /** `loadVerseRange`'s base path is the alias without its verse tail. */
  lemma BasePathRoundTrip(pre: string, n: nat, m: Option<nat>)
    ensures BasePath(pre + VerseTailText(n, m)) == pre
  {
    var s := pre + VerseTailText(n, m);
    TailIsLeftmost(pre, Decimal(n), DecimalOf(m));
    assert s[..|pre|] == pre;
    assert s[|pre| + |VerseTailText(n, m)|..] == [];
  }

  /** `parseVerseRange` gives `range(N, M)` for a tail `/N-M` and `[N]` for
      a tail `/N`. */
  lemma VerseRangeRoundTrip(pre: string, n: nat, m: Option<nat>)
    ensures ParseVerseRange(pre + VerseTailText(n, m)) ==
      if m.Some? then PhpRange(n, m.value) else [n]
  {
    var s := pre + VerseTailText(n, m);
    var v := VerseTail(Decimal(n), DecimalOf(m), |VerseTailText(n, m)|);
    TailIsLeftmost(pre, Decimal(n), DecimalOf(m));
    DecimalRoundTrip(n);
    forall q | 0 <= q < |pre| ensures RangeTailAt(s[q..]).None? && SingleTailAt(s[q..]).None? {
      assert VerseTailAt(s[q..]).None?;
    }
    assert VerseTailAt(s[|pre|..]) == Some(v);
    if m.Some? {
      DecimalRoundTrip(m.value);
      LeftmostIs(s, RangeTailAt, |pre|, v);
    } else {
      assert RangeTailAt(s[|pre|..]).None?;
      forall q | 0 <= q <= |s| ensures RangeTailAt(s[q..]).None? {
        if q > |pre| {
          assert q >= |pre|;
        }
      }
      LeftmostIs(s, SingleTailAt, |pre|, v);
    }
  }

  /** `/node/<id>` names node `id`. */
  lemma NodePathRoundTrip(nid: nat)
    ensures NodeIdOfPath(NodePath(nid)) == Some(nid)
  {
    var s := NodePath(nid);
    var d := Decimal(nid);
    assert s[1..] == "node/" + d;
    assert s[1..][..5] == "node/";
    assert s[1..][5..] == d;
    DigitRunStops(d, []);
    assert d + [] == d;
    assert s[1..][5..][..|d|] == d;
    assert NodeIdAt(s[1..]) == Some(d);
    assert NodeIdAt(s[0..]).None?;
    LeftmostIs(s, NodeIdAt, 1, d);
    DecimalRoundTrip(nid);
  }

  // ---------------------------------------------------------------------
  // Worked examples

  lemma ExampleChapterOfVerse()
    ensures ParseChapterFromAlias("/books/bg/2/13", "bg") == Some(2)
  {
    assert ChapterAlias("bg", 2) + "/" + "13" == "/books/bg/2/13";
    BgChapterRoundTrip(2, "13");
  }

  lemma ExampleChapterAliasIsNotAVerse()
    ensures ParseChapterFromAlias("/books/bg/2", "bg") == None
  {
    assert ChapterAlias("bg", 2) == "/books/bg/2";
    BgChapterAliasHasNoChapter(2);
  }

  /** Chapter number 0 parses (as 0); it is the callers' truthiness test that
      then treats it as "no chapter". */
  lemma ExampleChapterZero()
    ensures ParseChapterFromAlias("/books/bg/0/5", "bg") == Some(0)
  {
    assert ChapterAlias("bg", 0) + "/" + "5" == "/books/bg/0/5";
    BgChapterRoundTrip(0, "5");
  }

  lemma ExampleVerseOfCompound()
    ensures ParseVerseFromAlias("/books/bg/2/13-14") == 13
  {
    assert "/books/bg/2" + VerseTailText(13, Some(14)) == "/books/bg/2/13-14";
    VerseNumberRoundTrip("/books/bg/2", 13, Some(14));
  }

  lemma ExampleCompoundRange()
    ensures ParseVerseRange("/books/bg/2/13-14") == [13, 14]
  {
    assert "/books/bg/2" + VerseTailText(13, Some(14)) == "/books/bg/2/13-14";
    VerseRangeRoundTrip("/books/bg/2", 13, Some(14));
  }

  lemma ExampleSingleRange()
    ensures ParseVerseRange("/books/bg/2/7") == [7]
  {
    assert "/books/bg/2" + VerseTailText(7, None) == "/books/bg/2/7";
    VerseRangeRoundTrip("/books/bg/2", 7, None);
  }

  lemma ExampleEmptyRange()
    ensures ParseVerseRange("/books/bg/2/") == []
  {
    var s := "/books/bg/2/";
    forall p | 0 <= p <= |s| ensures VerseTailAt(s[p..]).None? {
      if p < |s| - 1 {
        assert s[p..][|s| - 1 - p] == '/';
        if VerseTailAt(s[p..]).Some? {
          VerseTailIsLastSegment(s[p..], |s| - 1 - p);
        }
      } else if p == |s| - 1 {
        assert s[p..] == "/";
      }
    }
  }
}
