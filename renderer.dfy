/**
 * The chapter listing behind chapter pages: which verses a chapter shows
 * and in what order, how a compound verse expands into the verses of its
 * range, and which nodes hang below a node in a book outline.  All three
 * only read the store.
 */
module Renderer {
  import opened Base
  import opened Slugs
  import opened SlugFacts
  import opened Content
  import opened Resolver

  // ---------------------------------------------------------------------
  // getChapterVerses

  /** PHP `str_replace('_chapter', '', s)`: every occurrence, scanning left
      to right, is removed. */
  function StripChapter(s: string): string
    decreases |s|
  {
    if |s| >= 8 && s[..8] == "_chapter" then StripChapter(s[8..])
    else if s == [] then []
    else [s[0]] + StripChapter(s[1..])
  }

  /** The book type read off a chapter bundle is the one the bundle was
      made from, for a type without underscores. */
  lemma {:induction false} StripChapterBundle(bookType: string)
    requires forall k :: 0 <= k < |bookType| ==> bookType[k] != '_'
    ensures StripChapter(ChapterBundle(bookType)) == bookType
  {
    var s := ChapterBundle(bookType);
    if bookType == [] {
      assert s[..8] == "_chapter" && s[8..] == [];
    } else {
      assert s[0] == bookType[0] != '_';
      assert s[1..] == ChapterBundle(bookType[1..]);
      StripChapterBundle(bookType[1..]);
    }
  }

  /** The verses query: published nodes of the book type. */
  function PublishedOf(bookType: string): Cond
  {
    Cond(bookType, None, Some(1), None, None)
  }

  /** A published verse of `bookType` whose outline parent is `chapter`
      (`!empty($verse->book['pid'])` and equal to the chapter id). */
  predicate InChapter(nodes: map<nat, Node>, hi: nat, bookType: string, chapter: nat, v: nat)
  {
    && v < hi && Selects(nodes, PublishedOf(bookType), v)
    && nodes[v].book.Some? && nodes[v].book.value.pid != 0 && nodes[v].book.value.pid == chapter
  }

  /** The verse's outline weight, the key `getChapterVerses` files it under. */
  function VerseWeight(nodes: map<nat, Node>, v: nat): int
  {
    if v in nodes && nodes[v].book.Some? then nodes[v].book.value.weight else 0
  }

  /** A verse the listing shows: no later verse of the chapter has its
      weight (`$chapter_verses[$weight] = $verse` keeps the last one). */
  ghost predicate Listed(nodes: map<nat, Node>, hi: nat, bookType: string, chapter: nat, v: nat)
  {
    && InChapter(nodes, hi, bookType, chapter, v)
    && forall w: nat :: InChapter(nodes, hi, bookType, chapter, w) && v < w ==> VerseWeight(nodes, w) != VerseWeight(nodes, v)
  }

  /** `getChapterVerses($chapter)`: the chapter's published verses, one per
      outline weight (the last loaded wins), in ascending weight order. */
  method GetChapterVerses(nodes: map<nat, Node>, hi: nat, chapter: nat) returns (verses: seq<nat>)
    requires chapter in nodes
    ensures forall v :: v in verses <==> Listed(nodes, hi, StripChapter(nodes[chapter].bundle), chapter, v)
    ensures forall i, j :: 0 <= i < j < |verses| ==> VerseWeight(nodes, verses[i]) < VerseWeight(nodes, verses[j])
  {
    var bookType := StripChapter(nodes[chapter].bundle);
    var ids := Query(nodes, PublishedOf(bookType), hi);
    if ids == [] {
      return [];
    }
    var byWeight, order := FileByWeight(nodes, hi, bookType, chapter, ids);
    ghost var keys;
    verses, keys := ByAscendingKey(byWeight, order);
    forall v | Listed(nodes, hi, bookType, chapter, v)
      ensures v in verses
    {
      var w := VerseWeight(nodes, v);
      assert v in ids;
      var u := byWeight[w];
      assert InChapter(nodes, hi, bookType, chapter, u) && v <= u;
      assert u == v;
    }
  }

  /** The filtering loop: `byWeight[w]` is the last verse of the chapter
      with weight `w`; `order` lists the keys as the PHP array holds them,
      in order of first insertion. */
  method FileByWeight(nodes: map<nat, Node>, hi: nat, bookType: string, chapter: nat, ids: seq<nat>)
    returns (byWeight: map<int, nat>, order: seq<int>)
    requires forall k :: 0 <= k < |ids| ==> ids[k] < hi && Selects(nodes, PublishedOf(bookType), ids[k])
    requires forall v: nat :: v < hi && Selects(nodes, PublishedOf(bookType), v) ==> v in ids
    requires Ascending(ids)
    ensures forall w :: w in byWeight ==> Listed(nodes, hi, bookType, chapter, byWeight[w]) && VerseWeight(nodes, byWeight[w]) == w
    ensures forall v :: InChapter(nodes, hi, bookType, chapter, v) ==> VerseWeight(nodes, v) in byWeight && v <= byWeight[VerseWeight(nodes, v)]
    ensures forall w :: w in byWeight <==> w in order
    ensures Distinct(order)
  {
    byWeight := map[];
    order := [];
    var i := 0;
    while i < |ids|
      invariant 0 <= i <= |ids|
      invariant forall w :: w in byWeight <==> w in order
      invariant Distinct(order)
      invariant forall w :: w in byWeight ==> InChapter(nodes, hi, bookType, chapter, byWeight[w]) && VerseWeight(nodes, byWeight[w]) == w
      invariant forall w :: w in byWeight ==> exists k :: 0 <= k < i && ids[k] == byWeight[w]
      invariant forall k :: 0 <= k < i && InChapter(nodes, hi, bookType, chapter, ids[k]) ==>
        VerseWeight(nodes, ids[k]) in byWeight && ids[k] <= byWeight[VerseWeight(nodes, ids[k])]
    {
      var verse := nodes[ids[i]];
      if verse.book.Some? && verse.book.value.pid != 0 && verse.book.value.pid == chapter {
        var weight := verse.book.value.weight;
        if weight !in byWeight {
          order := order + [weight];
        }
        byWeight := byWeight[weight := ids[i]];
      }
      i := i + 1;
    }
    forall w | w in byWeight
      ensures Listed(nodes, hi, bookType, chapter, byWeight[w])
    {
      forall u: nat | InChapter(nodes, hi, bookType, chapter, u) && byWeight[w] < u
        ensures VerseWeight(nodes, u) != w
      {
        var k :| 0 <= k < |ids| && ids[k] == u;
      }
    }
    forall v | InChapter(nodes, hi, bookType, chapter, v)
      ensures VerseWeight(nodes, v) in byWeight && v <= byWeight[VerseWeight(nodes, v)]
    {
      var k :| 0 <= k < |ids| && ids[k] == v;
    }
  }

  /** No key twice. */
  predicate Distinct(ks: seq<int>)
  {
    forall s, t :: 0 <= s < t < |ks| ==> ks[s] != ks[t]
  }

  /** `ksort` then `array_values`: the values in ascending key order. */
  method ByAscendingKey(byWeight: map<int, nat>, order: seq<int>) returns (values: seq<nat>, ghost keys: seq<int>)
    requires forall w :: w in byWeight <==> w in order
    requires Distinct(order)
    ensures forall v :: v in values <==> exists w :: w in byWeight && byWeight[w] == v
    ensures |keys| == |values|
    ensures forall t :: 0 <= t < |keys| ==> keys[t] in byWeight && values[t] == byWeight[keys[t]]
    ensures forall s, t :: 0 <= s < t < |keys| ==> keys[s] < keys[t]
    ensures forall w :: w in byWeight <==> w in keys
  {
    var pending := order;
    values := [];
    keys := [];
    while pending != []
      decreases |pending|
      invariant Distinct(pending)
      invariant |keys| == |values|
      invariant forall t :: 0 <= t < |keys| ==> keys[t] in byWeight && values[t] == byWeight[keys[t]]
      invariant forall s, t :: 0 <= s < t < |keys| ==> keys[s] < keys[t]
      invariant forall t, u :: 0 <= t < |keys| && 0 <= u < |pending| ==> keys[t] < pending[u]
      invariant forall w :: w in byWeight <==> (w in pending || w in keys)
      invariant forall w :: w in pending ==> w !in keys
    {
      var j := LeastAt(pending);
      var w := pending[j];
      values := values + [byWeight[w]];
      keys := keys + [w];
      pending := pending[..j] + pending[j + 1..];
    }
    forall v | exists w :: w in byWeight && byWeight[w] == v
      ensures v in values
    {
      var w :| w in byWeight && byWeight[w] == v;
      var t :| 0 <= t < |keys| && keys[t] == w;
      assert values[t] == v;
    }
  }

  /** The position of the least key. */
  method LeastAt(ks: seq<int>) returns (j: nat)
    requires ks != []
    ensures j < |ks| && forall t :: 0 <= t < |ks| ==> ks[j] <= ks[t]
  {
    j := 0;
    var t := 1;
    while t < |ks|
      invariant 0 <= j < t <= |ks|
      invariant forall u :: 0 <= u < t ==> ks[j] <= ks[u]
    {
      if ks[t] < ks[j] {
        j := t;
      }
      t := t + 1;
    }
  }

  // ---------------------------------------------------------------------
  // loadVerseRange

  /** The verse one number of a range resolves to: the alias
      `<basePath>/<n>` is mapped back to its path, the node id read off that
      path, and the node kept if it loads and has the base verse's type. */
  function RangeMember(nodes: map<nat, Node>, rows: seq<PathAlias>, bookType: string, basePath: string, n: int): Option<nat>
  {
    var path := PathByAlias(rows, basePath + "/" + IntText(n));
    var id := NodeIdOfPath(path);
    if id.Some? && id.value in nodes && nodes[id.value].bundle == bookType then id else None
  }

  /** The verses a range resolves to, in range order. */
  function RangeHits(nodes: map<nat, Node>, rows: seq<PathAlias>, bookType: string, basePath: string, range: seq<int>): seq<nat>
  {
    if range == [] then []
    else
      var front := RangeHits(nodes, rows, bookType, basePath, range[..|range| - 1]);
      var m := RangeMember(nodes, rows, bookType, basePath, range[|range| - 1]);
      if m.Some? then front + [m.value] else front
  }

  /** `loadVerseRange($base, $range)`: a range of at most one number is the
      base verse alone; otherwise the verses the range's aliases resolve to,
      falling back to the base verse when none does. */
  method LoadVerseRange(nodes: map<nat, Node>, rows: seq<PathAlias>, base: nat, range: seq<int>) returns (verses: seq<nat>)
    requires base in nodes
    ensures |range| <= 1 ==> verses == [base]
    ensures |range| > 1 ==>
      var hits := RangeHits(nodes, rows, nodes[base].bundle, BasePath(AliasByPath(rows, NodePath(base))), range);
      verses == if hits == [] then [base] else hits
    ensures verses != [] && forall k :: 0 <= k < |verses| ==> verses[k] in nodes && nodes[verses[k]].bundle == nodes[base].bundle
  {
    if |range| <= 1 {
      return [base];
    }
    var bookType := nodes[base].bundle;
    var alias := AliasByPath(rows, NodePath(base));
    var basePath := BasePath(alias);
    verses := [];
    var i := 0;
    while i < |range|
      invariant 0 <= i <= |range|
      invariant verses == RangeHits(nodes, rows, bookType, basePath, range[..i])
    {
      RangeHitsStep(nodes, rows, bookType, basePath, range, i);
      var verse := RangeMember(nodes, rows, bookType, basePath, range[i]);
      if verse.Some? {
        verses := verses + [verse.value];
      }
      i := i + 1;
    }
    assert range[..|range|] == range;
    RangeHitsFacts(nodes, rows, bookType, basePath, range);
    if verses == [] {
      verses := [base];
    }
  }

  lemma RangeHitsStep(nodes: map<nat, Node>, rows: seq<PathAlias>, bookType: string, basePath: string, range: seq<int>, i: nat)
    requires i < |range|
    ensures var m := RangeMember(nodes, rows, bookType, basePath, range[i]);
      RangeHits(nodes, rows, bookType, basePath, range[..i + 1])
        == RangeHits(nodes, rows, bookType, basePath, range[..i]) + if m.Some? then [m.value] else []
  {
    assert range[..i + 1][..i] == range[..i];
  }

  /** Every verse a range resolves to has the base verse's type and is the
      verse of one of the range's numbers; there are at most as many as
      numbers. */
  lemma {:induction false} RangeHitsFacts(nodes: map<nat, Node>, rows: seq<PathAlias>, bookType: string, basePath: string, range: seq<int>)
    ensures var hits := RangeHits(nodes, rows, bookType, basePath, range);
      && |hits| <= |range|
      && forall k :: 0 <= k < |hits| ==>
           && hits[k] in nodes && nodes[hits[k]].bundle == bookType
           && exists n :: n in range && RangeMember(nodes, rows, bookType, basePath, n) == Some(hits[k])
  {
    if range != [] {
      var front := range[..|range| - 1];
      RangeHitsFacts(nodes, rows, bookType, basePath, front);
      assert forall n :: n in front ==> n in range;
    }
  }

  /** When the most recent published row for the alias `<basePath>/<n>`
      points at a node of the type, the range finds that node for `n`. */
  lemma RangeMemberOfAlias(nodes: map<nat, Node>, rows: seq<PathAlias>, bookType: string, basePath: string, n: int, id: nat, k: nat)
    requires LatestForAlias(rows, basePath + "/" + IntText(n), k) && rows[k].path == NodePath(id)
    requires id in nodes && nodes[id].bundle == bookType
    ensures RangeMember(nodes, rows, bookType, basePath, n) == Some(id)
  {
    NodePathRoundTrip(id);
  }

  // ---------------------------------------------------------------------
  // extractChildNids

  /** The bundles the listing leaves out: chapters, songs and lilas. */
  predicate ListingSkips(bundle: string)
  {
    bundle in ["bg_chapter", "sb_chapter", "cc_chapter", "sb_song", "cc_lila"]
  }

  /** A child the listing keeps: it names a node that loads and is no
      chapter, song or lila. */
  predicate Kept(nodes: map<nat, Node>, nid: nat)
  {
    nid != 0 && nid in nodes && !ListingSkips(nodes[nid].bundle)
  }

  /** The number of items in a tree, at every depth. */
  function Size(tree: seq<TreeItem>): nat
  {
    if tree == [] then 0 else Size(tree[..|tree| - 1]) + 1 + Size(tree[|tree| - 1].below)
  }

  lemma {:induction false} SizeOfItem(tree: seq<TreeItem>, i: nat)
    requires i < |tree|
    ensures 1 + Size(tree[i].below) <= Size(tree)
  {
    if i < |tree| - 1 {
      var front := tree[..|tree| - 1];
      assert front[i] == tree[i];
      SizeOfItem(front, i);
    }
  }

  lemma SizeOfOne(c: TreeItem)
    ensures Size([c]) == 1 + Size(c.below)
  {
    assert [c][..0] == [];
  }

  /** `nid` is the node of some item of the tree, at any depth. */
  ghost predicate Occurs(tree: seq<TreeItem>, nid: nat)
  {
    exists i :: 0 <= i < |tree| && (tree[i].nid == nid || Occurs(tree[i].below, nid))
  }

  /** Some item of the tree, at any depth, is `parent` with children. */
  ghost predicate HasParent(tree: seq<TreeItem>, parent: nat)
  {
    exists i :: 0 <= i < |tree| && ((tree[i].nid == parent && tree[i].below != []) || HasParent(tree[i].below, parent))
  }

  /** An item the search stops at: it is `parent` and has children. */
  predicate IsParentItem(it: TreeItem, parent: nat)
  {
    it.nid == parent && it.below != []
  }

  /** Some top-level item of the tree is one the search stops at. */
  predicate Stops(tree: seq<TreeItem>, parent: nat)
  {
    exists h :: 0 <= h < |tree| && IsParentItem(tree[h], parent)
  }

  /** What the children loop collects from `below`: for each child in
      order that names a node, the child itself when it is kept, then what
      is kept below it, depth first. */
  function KeptPreorder(nodes: map<nat, Node>, below: seq<TreeItem>): seq<nat>
    decreases Size(below)
  {
    if below == [] then []
    else
      var c := below[|below| - 1];
      KeptPreorder(nodes, below[..|below| - 1])
        + (if c.nid == 0 then [] else (if Kept(nodes, c.nid) then [c.nid] else []) + KeptPreorder(nodes, c.below))
  }

  /** What `extractChildNids(tree, parent)` returns: the items are searched
      in order; the first one the search stops at contributes its children's
      preorder and ends the search; each item before it contributes what
      the search finds in its own subtree. */
  function Search(nodes: map<nat, Node>, tree: seq<TreeItem>, parent: nat): seq<nat>
    decreases Size(tree)
  {
    if tree == [] then []
    else
      var front := tree[..|tree| - 1];
      var it := tree[|tree| - 1];
      if Stops(front, parent) then Search(nodes, front, parent)
      else if IsParentItem(it, parent) then Search(nodes, front, parent) + KeptPreorder(nodes, it.below)
      else Search(nodes, front, parent) + Search(nodes, it.below, parent)
  }

  /** At the first top-level item that is `parent` with children, the
      search returns what it found in the earlier subtrees followed by the
      children's preorder, and nothing from any later item. */
  lemma SearchAtFirstMatch(nodes: map<nat, Node>, tree: seq<TreeItem>, parent: nat, i: nat)
    requires i < |tree| && IsParentItem(tree[i], parent)
    requires forall h :: 0 <= h < i ==> !IsParentItem(tree[h], parent)
    ensures Search(nodes, tree, parent) == Search(nodes, tree[..i], parent) + KeptPreorder(nodes, tree[i].below)
  {
    assert tree[..i + 1][..i] == tree[..i];
    assert tree[..i + 1][i] == tree[i];
    assert !Stops(tree[..i], parent);
    assert Stops(tree[..i + 1], parent) by { assert IsParentItem(tree[..i + 1][i], parent); }
    SearchStops(nodes, tree, parent, i + 1);
  }

  /** Once the search has stopped within the first `k` items, the items
      after them add nothing. */
  lemma {:induction false} SearchStops(nodes: map<nat, Node>, tree: seq<TreeItem>, parent: nat, k: nat)
    requires k <= |tree| && Stops(tree[..k], parent)
    ensures Search(nodes, tree, parent) == Search(nodes, tree[..k], parent)
    decreases |tree|
  {
    if k == |tree| {
      assert tree[..k] == tree;
    } else {
      var front := tree[..|tree| - 1];
      assert front[..k] == tree[..k];
      var h :| 0 <= h < k && IsParentItem(tree[..k][h], parent);
      assert front[h] == tree[..k][h];
      assert Stops(front, parent);
      SearchStops(nodes, front, parent, k);
    }
  }

  /** Searching a one-item tree for that item's own node, as the children
      loop does, collects exactly the item's children's preorder. */
  lemma SearchOwnItem(nodes: map<nat, Node>, c: TreeItem)
    requires c.below != []
    ensures Search(nodes, [c], c.nid) == KeptPreorder(nodes, c.below)
  {
    assert [c][..0] == [];
  }

  /** Each step of the loop over the top-level items, before any match. */
  lemma SearchStep(nodes: map<nat, Node>, tree: seq<TreeItem>, parent: nat, i: nat)
    requires i < |tree| && !IsParentItem(tree[i], parent)
    requires forall h :: 0 <= h < i ==> !IsParentItem(tree[h], parent)
    ensures Search(nodes, tree[..i + 1], parent) == Search(nodes, tree[..i], parent) + Search(nodes, tree[i].below, parent)
  {
    assert tree[..i + 1][..i] == tree[..i];
    assert tree[..i + 1][i] == tree[i];
    assert !Stops(tree[..i], parent);
  }

  /** Each step of the loop over a parent item's children. */
  lemma KeptPreorderStep(nodes: map<nat, Node>, below: seq<TreeItem>, j: nat)
    requires j < |below|
    ensures KeptPreorder(nodes, below[..j + 1]) == KeptPreorder(nodes, below[..j])
      + (if below[j].nid == 0 then [] else (if Kept(nodes, below[j].nid) then [below[j].nid] else []) + KeptPreorder(nodes, below[j].below))
  {
    assert below[..j + 1][..j] == below[..j];
    assert below[..j + 1][j] == below[j];
  }

  /** Everything the children loop collects is a kept node of the subtree,
      and every kept child is collected. */
  lemma {:induction false} KeptPreorderFacts(nodes: map<nat, Node>, below: seq<TreeItem>)
    decreases Size(below)
    ensures forall x :: x in KeptPreorder(nodes, below) ==> Kept(nodes, x) && Occurs(below, x)
    ensures forall c :: c in below && Kept(nodes, c.nid) ==> c.nid in KeptPreorder(nodes, below)
  {
    if below != [] {
      var n := |below| - 1;
      var front, c := below[..n], below[n];
      KeptPreorderFacts(nodes, front);
      KeptPreorderFacts(nodes, c.below);
      forall x | x in KeptPreorder(nodes, below) ensures Kept(nodes, x) && Occurs(below, x) {
        if x in KeptPreorder(nodes, front) {
          var i :| 0 <= i < |front| && (front[i].nid == x || Occurs(front[i].below, x));
          assert below[i] == front[i];
        } else {
          assert below[n].nid == x || Occurs(below[n].below, x);
        }
      }
      forall d | d in below && Kept(nodes, d.nid) ensures d.nid in KeptPreorder(nodes, below) {
        var i :| 0 <= i < |below| && below[i] == d;
        if i < n {
          assert front[i] == d;
        }
      }
    }
  }

  /** Everything the search collects is a kept node of the tree, and a tree
      without `parent` (with children) at any depth gives nothing. */
  lemma {:induction false} SearchFacts(nodes: map<nat, Node>, tree: seq<TreeItem>, parent: nat)
    decreases Size(tree)
    ensures forall x :: x in Search(nodes, tree, parent) ==> Kept(nodes, x) && Occurs(tree, x)
    ensures !HasParent(tree, parent) ==> Search(nodes, tree, parent) == []
  {
    if tree != [] {
      var n := |tree| - 1;
      var front, it := tree[..n], tree[n];
      SearchFacts(nodes, front, parent);
      SearchFacts(nodes, it.below, parent);
      KeptPreorderFacts(nodes, it.below);
      forall x | x in Search(nodes, tree, parent) ensures Kept(nodes, x) && Occurs(tree, x) {
        if x in Search(nodes, front, parent) {
          var i :| 0 <= i < |front| && (front[i].nid == x || Occurs(front[i].below, x));
          assert tree[i] == front[i];
        } else {
          assert Occurs(tree[n].below, x);
        }
      }
      assert forall i :: 0 <= i < |front| ==> tree[i] == front[i];
      if !HasParent(tree, parent) {
        assert !IsParentItem(tree[n], parent) && !HasParent(tree[n].below, parent);
      }
    }
  }

  /** At the first top-level item that is `parent` with children, every
      kept child of it is collected. */
  lemma SearchFindsChildren(nodes: map<nat, Node>, tree: seq<TreeItem>, parent: nat, i: nat)
    requires i < |tree| && IsParentItem(tree[i], parent)
    requires forall h :: 0 <= h < i ==> !IsParentItem(tree[h], parent)
    ensures forall c :: c in tree[i].below && Kept(nodes, c.nid) ==> c.nid in Search(nodes, tree, parent)
  {
    SearchAtFirstMatch(nodes, tree, parent, i);
    KeptPreorderFacts(nodes, tree[i].below);
  }

  /** `extractChildNids($tree, $parent)`: search the tree in order; at the
      first top-level item that is `parent` with children, collect its
      children's preorder and stop; before that, collect what the search
      finds in each item's subtree. */
  method ExtractChildNids(nodes: map<nat, Node>, tree: seq<TreeItem>, parent: nat) returns (nids: seq<nat>)
    decreases Size(tree)
    ensures nids == Search(nodes, tree, parent)
  {
    nids := [];
    var i := 0;
    while i < |tree|
      invariant 0 <= i <= |tree|
      invariant nids == Search(nodes, tree[..i], parent)
      invariant forall h :: 0 <= h < i ==> !IsParentItem(tree[h], parent)
    {
      var item := tree[i];
      SizeOfItem(tree, i);
      if item.nid == parent && item.below != [] {
        var children := ChildNids(nodes, item, Size(tree));
        SearchAtFirstMatch(nodes, tree, parent, i);
        nids := nids + children;
        return;
      }
      SearchStep(nodes, tree, parent, i);
      if item.below != [] {
        var found := ExtractChildNids(nodes, item.below, parent);
        if found != [] {
          nids := nids + found;
        } else {
          assert nids + found == nids;
        }
      } else {
        assert Search(nodes, item.below, parent) == [];
      }
      i := i + 1;
    }
    assert tree[..|tree|] == tree;
  }

  /** The children loop at the item that is `parent`. */
  method ChildNids(nodes: map<nat, Node>, item: TreeItem, ghost bound: nat) returns (nids: seq<nat>)
    requires 1 + Size(item.below) <= bound
    decreases bound, 1
    ensures nids == KeptPreorder(nodes, item.below)
  {
    nids := [];
    var j := 0;
    while j < |item.below|
      invariant 0 <= j <= |item.below|
      invariant nids == KeptPreorder(nodes, item.below[..j])
    {
      KeptPreorderStep(nodes, item.below, j);
      SizeOfItem(item.below, j);
      var part := ChildPart(nodes, item.below[j], bound);
      nids := nids + part;
      j := j + 1;
    }
    assert item.below[..|item.below|] == item.below;
  }

  /** One round of the children loop: a child with a nid contributes
      itself when it is kept, then what is kept below it. */
  method ChildPart(nodes: map<nat, Node>, child: TreeItem, ghost bound: nat) returns (part: seq<nat>)
    requires 1 + Size(child.below) < bound
    decreases bound, 0
    ensures part == if child.nid == 0 then [] else (if Kept(nodes, child.nid) then [child.nid] else []) + KeptPreorder(nodes, child.below)
  {
    part := [];
    if child.nid != 0 {
      if child.nid in nodes && !ListingSkips(nodes[child.nid].bundle) {
        part := [child.nid];
      }
      if child.below != [] {
        SizeOfOne(child);
        var deeper := ExtractChildNids(nodes, [child], child.nid);
        SearchOwnItem(nodes, child);
        part := part + deeper;
      } else {
        assert KeptPreorder(nodes, child.below) == [];
      }
    }
  }
}
