/**
 * The slug grammar: the regular expressions with which the structuring code
 * reads structural coordinates out of a path alias, written as hand-made
 * matchers over strings.
 *
 * A PCRE match without a leading anchor is found by trying the pattern at
 * positions 0, 1, 2, ... of the subject and taking the first position where
 * it matches (`Leftmost`).  Each `...At` function below decides whether its
 * pattern matches at the START of the string it is given (a suffix of the
 * subject) and, when it does, returns the captured text.  Greedy `\d+` and
 * `[^/]+` followed by a character they cannot consume never profit from
 * backtracking, so each of them consumes its maximal run.  `$` (no `D`
 * modifier) matches at the end of the subject or just before a final
 * newline.
 */
module Slugs {
  import opened Base

  // ---------------------------------------------------------------------
  // Runs of characters and the leftmost-match scan

  predicate StartsWith(s: string, prefix: string)
  {
    |prefix| <= |s| && s[..|prefix|] == prefix
  }

  /** Length of the longest prefix of `s` made of digits (greedy `\d+`). */
  function DigitRun(s: string): (n: nat)
    ensures n <= |s| && AllDigits(s[..n])
    ensures n < |s| ==> !IsDigit(s[n])
  {
    if s == [] || !IsDigit(s[0]) then 0
    else
      var n := 1 + DigitRun(s[1..]);
      assert s[..n] == [s[0]] + s[1..][..n - 1];
      n
  }

  /** Length of the longest prefix of `s` without a '/' (greedy `[^/]+`). */
  function SegmentRun(s: string): (n: nat)
    ensures n <= |s| && forall i :: 0 <= i < n ==> s[i] != '/'
    ensures n < |s| ==> s[n] == '/'
  {
    if s == [] || s[0] == '/' then 0 else 1 + SegmentRun(s[1..])
  }

  /** What PCRE's `$` accepts as the rest of the subject. */
  predicate AtEnd(rest: string)
  {
    rest == "" || rest == "\n"
  }

  datatype Hit<T> = Hit(pos: nat, capture: T)

  /** The leftmost position at or after `from` where `at` matches, with its
      capture: the matching rule of an unanchored `preg_match`. */
  function Leftmost<T>(s: string, at: string -> Option<T>, from: nat): (r: Option<Hit<T>>)
    requires from <= |s|
    ensures r.Some? ==> from <= r.value.pos <= |s| && at(s[r.value.pos..]) == Some(r.value.capture)
    ensures r.Some? ==> forall q :: from <= q < r.value.pos ==> at(s[q..]).None?
    ensures r.None? ==> forall q :: from <= q <= |s| ==> at(s[q..]).None?
    decreases |s| - from
  {
    match at(s[from..])
    case Some(c) => Some(Hit(from, c))
    case None => if from == |s| then None else Leftmost(s, at, from + 1)
  }

  // ---------------------------------------------------------------------
  // Pattern pieces

  /** `(\d+)\/` at the start of `s`: the digits. */
  function NumberThenSlash(s: string): (r: Option<string>)
    ensures r.Some? ==> 0 < |r.value| < |s| && r.value == s[..|r.value|] && s[|r.value|] == '/'
    ensures r.Some? ==> AllDigits(r.value)
  {
    var n := DigitRun(s);
    if 0 < n < |s| && s[n] == '/' then Some(s[..n]) else None
  }

  /** `([^\/]+)\/` at the start of `s`: the segment. */
  function SegmentThenSlash(s: string): (r: Option<string>)
    ensures r.Some? ==> 0 < |r.value| < |s| && r.value == s[..|r.value|] && s[|r.value|] == '/'
  {
    var n := SegmentRun(s);
    if 0 < n < |s| then Some(s[..n]) else None
  }

  const BgPrefix := "/books/bg/"
  const SbPrefix := "/books/sb/"
  const CcPrefix := "/books/cc/"

  /** `\/books\/bg\/(\d+)\/` */
  function BgChapterAt(t: string): Option<string>
  {
    if StartsWith(t, BgPrefix) then NumberThenSlash(t[|BgPrefix|..]) else None
  }

  /** `\/books\/sb\/\d+\/(\d+)\/` */
  function SbChapterAt(t: string): Option<string>
  {
    if !StartsWith(t, SbPrefix) then None
    else
      var u := t[|SbPrefix|..];
      match NumberThenSlash(u)
      case None => None
      case Some(song) => NumberThenSlash(u[|song| + 1..])
  }

  /** `\/books\/cc\/[^\/]+\/(\d+)\/` */
  function CcChapterAt(t: string): Option<string>
  {
    if !StartsWith(t, CcPrefix) then None
    else
      var u := t[|CcPrefix|..];
      match SegmentThenSlash(u)
      case None => None
      case Some(lila) => NumberThenSlash(u[|lila| + 1..])
  }

  /** `\/books\/sb\/(\d+)\/` */
  function SongAt(t: string): Option<string>
  {
    if StartsWith(t, SbPrefix) then NumberThenSlash(t[|SbPrefix|..]) else None
  }

  /** `\/books\/cc\/([^\/]+)\/` */
  function LilaAt(t: string): Option<string>
  {
    if StartsWith(t, CcPrefix) then SegmentThenSlash(t[|CcPrefix|..]) else None
  }

  /** A trailing verse designation: `first` and, for a compound verse,
      `last`; `len` is the number of characters the match covers. */
  datatype VerseTail = VerseTail(first: string, last: Option<string>, len: nat)

  /** `\/(\d+)(-\d+)?$` at the start of `t`; the optional group is captured
      too, so that the range and single-verse patterns are restrictions of
      this one. */
  function VerseTailAt(t: string): (r: Option<VerseTail>)
    ensures r.Some? ==> 0 < r.value.len <= |t| && AtEnd(t[r.value.len..])
    ensures r.Some? ==> 0 < |r.value.first| && AllDigits(r.value.first)
    ensures r.Some? && r.value.last.Some? ==> 0 < |r.value.last.value| && AllDigits(r.value.last.value)
  {
    if t == [] || t[0] != '/' then None
    else
      var n := DigitRun(t[1..]);
      var first := t[1..][..n];
      var rest := t[1 + n..];
      if n == 0 then None
      else if AtEnd(rest) then Some(VerseTail(first, None, 1 + n))
      else
        match RangeEnd(rest)
        case None => None
        case Some(m) => Some(VerseTail(first, Some(rest[1..][..m]), 2 + n + m))
  }

  /** `-\d+$` at the start of `rest`: the number of digits after the dash. */
  function RangeEnd(rest: string): (r: Option<nat>)
    ensures r.Some? ==> 0 < r.value && 1 + r.value <= |rest| && AllDigits(rest[1..][..r.value])
    ensures r.Some? ==> AtEnd(rest[1 + r.value..])
  {
    if rest == [] || rest[0] != '-' then None
    else
      var m := DigitRun(rest[1..]);
      if m > 0 && AtEnd(rest[1 + m..]) then Some(m) else None
  }

  /** A verse tail holds no '/' after its first character: it can only be
      the last segment of a path. */
  lemma VerseTailIsLastSegment(t: string, i: nat)
    requires VerseTailAt(t).Some? && 1 <= i < |t|
    ensures t[i] != '/'
  {
    var n := DigitRun(t[1..]);
    if i < 1 + n {
      assert t[i] == t[1..][..n][i - 1];
    } else if i > 1 + n {
      var rest := t[1 + n..];
      var m := RangeEnd(rest).value;
      if i < 2 + n + m {
        assert t[i] == rest[1..][..m][i - 2 - n];
      }
    }
  }

  /** `\/(\d+)-(\d+)$` */
  function RangeTailAt(t: string): Option<VerseTail>
  {
    match VerseTailAt(t)
    case Some(v) => if v.last.Some? then Some(v) else None
    case None => None
  }

  /** `\/(\d+)$` */
  function SingleTailAt(t: string): Option<VerseTail>
  {
    match VerseTailAt(t)
    case Some(v) => if v.last.None? then Some(v) else None
    case None => None
  }

  /** `node\/(\d+)` */
  function NodeIdAt(t: string): (r: Option<string>)
    ensures r.Some? ==> 0 < |r.value| && AllDigits(r.value)
  {
    if !StartsWith(t, "node/") then None
    else
      var n := DigitRun(t[5..]);
      if n > 0 then Some(t[5..][..n]) else None
  }

  // ---------------------------------------------------------------------
  // The parse helpers

  /** The chapter pattern of a book type, or None for a type without one. */
  function ChapterPattern(bookType: string): Option<string -> Option<string>>
  {
    if bookType == "bg" then Some(BgChapterAt)
    else if bookType == "sb" then Some(SbChapterAt)
    else if bookType == "cc" then Some(CcChapterAt)
    else None
  }

  /** `parseChapterFromAlias`: the number captured at the leftmost match of
      the book type's chapter pattern; None when the type has no pattern or
      the alias does not match it anywhere. */
  function ParseChapterFromAlias(alias: string, bookType: string): (r: Option<nat>)
    ensures ChapterPattern(bookType).None? ==> r == None
    ensures ChapterPattern(bookType).Some? ==>
      (r.Some? <==> exists p :: 0 <= p <= |alias| && ChapterPattern(bookType).value(alias[p..]).Some?)
  {
    match ChapterPattern(bookType)
    case None => None
    case Some(at) =>
      match Leftmost(alias, at, 0)
      case None => None
      case Some(h) =>
        assert at(alias[h.pos..]) == Some(h.capture);
        NumberOf(bookType, h.capture)
  }

  /** The value of a chapter capture; every chapter pattern captures digits. */
  function NumberOf(bookType: string, capture: string): (r: Option<nat>)
    requires ChapterPattern(bookType).Some?
    requires exists t :: ChapterPattern(bookType).value(t) == Some(capture)
    ensures r.Some?
  {
    assert AllDigits(capture) by {
      var t :| ChapterPattern(bookType).value(t) == Some(capture);
    }
    Some(DecimalValue(capture))
  }

  /** `parseSongFromAlias` */
  function ParseSongFromAlias(alias: string): (r: Option<nat>)
    ensures r.Some? <==> exists p :: 0 <= p <= |alias| && SongAt(alias[p..]).Some?
  {
    match Leftmost(alias, SongAt, 0)
    case None => None
    case Some(h) =>
      assert SongAt(alias[h.pos..]) == Some(h.capture);
      Some(DecimalValue(h.capture))
  }

  /** `parseLilaFromAlias`: the (non-empty, slash-free) division name. */
  function ParseLilaFromAlias(alias: string): (r: Option<string>)
    ensures r.Some? ==> 0 < |r.value| && forall i :: 0 <= i < |r.value| ==> r.value[i] != '/'
    ensures r.Some? <==> exists p :: 0 <= p <= |alias| && LilaAt(alias[p..]).Some?
  {
    match Leftmost(alias, LilaAt, 0)
    case None => None
    case Some(h) =>
      assert LilaAt(alias[h.pos..]) == Some(h.capture);
      Some(h.capture)
  }

  /** `parseVerseFromAlias`: the first number of a trailing `/N` or `/N-M`,
      and 0 (not a failure) when the alias has no such tail. */
  function ParseVerseFromAlias(alias: string): (r: nat)
    ensures (forall p :: 0 <= p <= |alias| ==> VerseTailAt(alias[p..]).None?) ==> r == 0
  {
    match Leftmost(alias, VerseTailAt, 0)
    case None => 0
    case Some(h) =>
      assert VerseTailAt(alias[h.pos..]) == Some(h.capture);
      DecimalValue(h.capture.first)
  }

  /** PHP's `range($a, $b)` for integers: every integer from `a` to `b`
      inclusive, counting down when `a > b`. */
  function PhpRange(a: int, b: int): (r: seq<int>)
    ensures |r| == (if a <= b then b - a + 1 else a - b + 1)
    ensures forall i :: 0 <= i < |r| ==> r[i] == (if a <= b then a + i else a - i)
    decreases if a <= b then b - a else a - b
  {
    if a == b then [a]
    else if a < b then [a] + PhpRange(a + 1, b)
    else [a] + PhpRange(a - 1, b)
  }

  /** `parseVerseRange`: `range(N, M)` for a tail `/N-M`, `[N]` for a tail
      `/N`, and `[]` otherwise. */
  function ParseVerseRange(alias: string): (r: seq<int>)
    ensures (forall p :: 0 <= p <= |alias| ==> VerseTailAt(alias[p..]).None?) ==> r == []
  {
    match Leftmost(alias, RangeTailAt, 0)
    case Some(h) =>
      assert RangeTailAt(alias[h.pos..]) == Some(h.capture);
      PhpRange(DecimalValue(h.capture.first), DecimalValue(h.capture.last.value))
    case None =>
      match Leftmost(alias, SingleTailAt, 0)
      case Some(h) =>
        assert SingleTailAt(alias[h.pos..]) == Some(h.capture);
        [DecimalValue(h.capture.first)]
      case None => []
  }

  /** `preg_replace('/\/\d+(-\d+)?$/', '', $alias)`: the alias with its
      verse tail cut out (a final newline that `$` stepped over stays). */
  function BasePath(alias: string): (r: string)
    ensures |r| <= |alias|
  {
    match Leftmost(alias, VerseTailAt, 0)
    case None => alias
    case Some(h) => alias[..h.pos] + alias[h.pos + h.capture.len..]
  }

  /** The node id in an internal path, by `/node\/(\d+)/`. */
  function NodeIdOfPath(path: string): (r: Option<nat>)
    ensures r.Some? <==> exists p :: 0 <= p <= |path| && NodeIdAt(path[p..]).Some?
  {
    match Leftmost(path, NodeIdAt, 0)
    case None => None
    case Some(h) =>
      assert NodeIdAt(path[h.pos..]) == Some(h.capture);
      Some(DecimalValue(h.capture))
  }

  // ---------------------------------------------------------------------
  // Aliases the structure builder writes, and the paths of nodes

  /** `/node/<id>`: the internal path a node's alias points to. */
  function NodePath(nid: nat): string
  {
    "/node/" + Decimal(nid)
  }

  /** The alias of a chapter of a single-level book: `/books/<type>/<i>`. */
  function ChapterAlias(bookType: string, i: nat): string
  {
    "/books/" + bookType + "/" + Decimal(i)
  }

  /** The alias of a chapter inside a division: `/books/<type>/<division>/<j>`. */
  function DivisionChapterAlias(bookType: string, division: string, j: nat): string
  {
    "/books/" + bookType + "/" + division + "/" + Decimal(j)
  }
}
