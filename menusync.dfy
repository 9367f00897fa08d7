/**
 * Mirroring book outlines into a navigation menu.  For each book type whose
 * main book sits in an outline, the outline's tree is walked and every
 * linked node that still exists gets a menu link, reusing the link the menu
 * already has for that node.  Links are only ever added.
 */
module MenuSync {
  import opened Base
  import opened Content
  import opened Builder

  /** The `weight` of a tree item, `?? 0`. */
  function WeightOf(it: TreeItem): int
  {
    if it.weight.Some? then it.weight.value else 0
  }

  /** A tree item the walk handles: it names a node (`nid` not empty) and
      that node loads. */
  predicate Live(it: TreeItem, nodes: map<nat, Node>)
  {
    it.nid != 0 && it.nid in nodes
  }

  /** The nodes the walk reaches: live items whose ancestors are all live. */
  ghost function Reach(tree: seq<TreeItem>, nodes: map<nat, Node>): set<nat>
  {
    if tree == [] then {}
    else
      var last := tree[|tree| - 1];
      Reach(tree[..|tree| - 1], nodes) + if Live(last, nodes) then {last.nid} + Reach(last.below, nodes) else {}
  }

  /** The walk reaches only nodes that exist, never the empty nid. */
  lemma {:induction false} ReachIsLive(tree: seq<TreeItem>, nodes: map<nat, Node>)
    ensures forall n :: n in Reach(tree, nodes) ==> n != 0 && n in nodes
    decreases tree
  {
    if tree != [] {
      var last := tree[|tree| - 1];
      ReachIsLive(tree[..|tree| - 1], nodes);
      ReachIsLive(last.below, nodes);
    }
  }

  /** The uuid of the menu's link to `nid`, the `$parent_id_for_children`
      of an item whose node has that link (0 when there is none). */
  function UuidFor(links: seq<MenuLink>, menu: string, nid: nat): nat
  {
    var r := LinkFor(links, menu, nid);
    if r.Some? then links[r.value].uuid else 0
  }

  /** What a link created for an item carries: the node, the item's weight,
      whether it has children, and the parent link it hangs under. */
  datatype Shape = Shape(nid: nat, weight: int, expanded: bool, parent: Option<nat>)

  function ShapeOf(it: TreeItem, parent: Option<nat>): Shape
  {
    Shape(it.nid, WeightOf(it), it.below != [], parent)
  }

  function LinkShape(l: MenuLink): Shape
  {
    Shape(l.nid, l.weight, l.expanded, l.parent)
  }

  /** The links the walk of `tree` under `parent` may create: one per
      reached item, under `parent` at the top level, and below that under
      the link the menu has for the item's tree parent. */
  ghost function Shapes(tree: seq<TreeItem>, nodes: map<nat, Node>, links: seq<MenuLink>, menu: string,
                        parent: Option<nat>): set<Shape>
  {
    if tree == [] then {}
    else
      var last := tree[|tree| - 1];
      Shapes(tree[..|tree| - 1], nodes, links, menu, parent)
        + if Live(last, nodes)
          then {ShapeOf(last, parent)} + Shapes(last.below, nodes, links, menu, Some(UuidFor(links, menu, last.nid)))
          else {}
  }

  /** One more item of the loop, and what it adds. */
  lemma WalkStep(tree: seq<TreeItem>, i: nat, nodes: map<nat, Node>, links: seq<MenuLink>, menu: string, parent: Option<nat>)
    requires i < |tree|
    ensures tree[..i + 1][..i] == tree[..i] && tree[..i + 1][i] == tree[i]
    ensures Reach(tree[..i + 1], nodes)
      == Reach(tree[..i], nodes) + if Live(tree[i], nodes) then {tree[i].nid} + Reach(tree[i].below, nodes) else {}
    ensures Shapes(tree[..i + 1], nodes, links, menu, parent)
      == Shapes(tree[..i], nodes, links, menu, parent)
         + if Live(tree[i], nodes)
           then {ShapeOf(tree[i], parent)} + Shapes(tree[i].below, nodes, links, menu, Some(UuidFor(links, menu, tree[i].nid)))
           else {}
  {
    assert tree[..i + 1][..i] == tree[..i];
  }

  /** The links from index `from` on are the new ones: each is in `menu`,
      and no earlier link of that menu points at the same node. */
  ghost predicate FreshFrom(links: seq<MenuLink>, from: nat, menu: string)
  {
    forall k :: from <= k < |links| ==>
      && links[k].menuName == menu
      && forall j :: 0 <= j < k ==> !(links[j].menuName == menu && links[j].nid == links[k].nid)
  }

  /** No node has two links in `menu`. */
  ghost predicate UniqueIn(links: seq<MenuLink>, menu: string)
  {
    forall j, k :: 0 <= j < k < |links| && links[j].menuName == menu && links[k].menuName == menu ==> links[j].nid != links[k].nid
  }

  /** Appending only fresh links, as the walk and the sync do, keeps every
      node at most one link in the menu. */
  lemma FreshKeepsUnique(before: seq<MenuLink>, links: seq<MenuLink>, menu: string)
    requires |before| <= |links| && links[..|before|] == before
    requires UniqueIn(before, menu) && FreshFrom(links, |before|, menu)
    ensures UniqueIn(links, menu)
  {
    forall j, k | 0 <= j < k < |links| && links[j].menuName == menu && links[k].menuName == menu
      ensures links[j].nid != links[k].nid
    {
      if k < |before| {
        assert links[j] == before[j] && links[k] == before[k];
      }
    }
  }

  /** Each new link has the title of its node and the shape, parent
      included, of a reached item. */
  ghost predicate ShapedFrom(links: seq<MenuLink>, from: nat, nodes: map<nat, Node>, shapes: set<Shape>)
  {
    forall k :: from <= k < |links| ==>
      LinkShape(links[k]) in shapes && links[k].nid in nodes && links[k].title == nodes[links[k].nid].title
  }

  /** `createMenuLinksFromBookTree(tree, menu, parent)`: for each live item
      in order, reuse the menu's link to its node or create one under
      `parent`, then walk its children under that link. */
  method CreateMenuLinksFromBookTree(site: Site, tree: seq<TreeItem>, menu: string, parent: Option<nat>)
    requires site.Valid()
    modifies site
    decreases tree
    ensures site.Valid()
    ensures site.nodes == old(site.nodes) && site.nextId == old(site.nextId) && site.aliases == old(site.aliases)
    ensures |old(site.links)| <= |site.links| && site.links[..|old(site.links)|] == old(site.links)
    ensures Reach(tree, site.nodes) <= MenuNids(site.links, menu)
    ensures FreshFrom(site.links, |old(site.links)|, menu)
    ensures ShapedFrom(site.links, |old(site.links)|, site.nodes, Shapes(tree, site.nodes, site.links, menu, parent))
    ensures Reach(tree, site.nodes) <= MenuNids(old(site.links), menu) ==> site.links == old(site.links)
  {
    ghost var links0 := site.links;
    var i := 0;
    while i < |tree|
      invariant 0 <= i <= |tree|
      invariant site.Valid()
      invariant site.nodes == old(site.nodes) && site.nextId == old(site.nextId) && site.aliases == old(site.aliases)
      invariant |links0| <= |site.links| && site.links[..|links0|] == links0
      invariant Reach(tree[..i], site.nodes) <= MenuNids(site.links, menu)
      invariant FreshFrom(site.links, |links0|, menu)
      invariant ShapedFrom(site.links, |links0|, site.nodes, Shapes(tree[..i], site.nodes, site.links, menu, parent))
      invariant Reach(tree, site.nodes) <= MenuNids(links0, menu) ==> site.links == links0
    {
      WalkCovers(tree, i + 1, site.nodes);
      var item := tree[i];
      if item.nid != 0 && item.nid in site.nodes {
        WalkItem(site, tree, i, menu, parent, links0);
      } else {
        WalkStep(tree, i, site.nodes, site.links, menu, parent);
      }
      i := i + 1;
    }
    assert tree[..|tree|] == tree;
  }

  /** The loop body for a live item, with the bookkeeping that moves the
      loop's promises from `tree[..i]` to `tree[..i + 1]`. */
  method WalkItem(site: Site, tree: seq<TreeItem>, i: nat, menu: string, parent: Option<nat>, ghost links0: seq<MenuLink>)
    requires i < |tree| && site.Valid() && Live(tree[i], site.nodes)
    requires |links0| <= |site.links| && site.links[..|links0|] == links0
    requires Reach(tree[..i], site.nodes) <= MenuNids(site.links, menu)
    requires FreshFrom(site.links, |links0|, menu)
    requires ShapedFrom(site.links, |links0|, site.nodes, Shapes(tree[..i], site.nodes, site.links, menu, parent))
    requires Reach(tree[..i + 1], site.nodes) <= Reach(tree, site.nodes)
    requires Reach(tree, site.nodes) <= MenuNids(links0, menu) ==> site.links == links0
    modifies site
    decreases tree, 1
    ensures site.Valid()
    ensures site.nodes == old(site.nodes) && site.nextId == old(site.nextId) && site.aliases == old(site.aliases)
    ensures |links0| <= |site.links| && site.links[..|links0|] == links0
    ensures Reach(tree[..i + 1], site.nodes) <= MenuNids(site.links, menu)
    ensures FreshFrom(site.links, |links0|, menu)
    ensures ShapedFrom(site.links, |links0|, site.nodes, Shapes(tree[..i + 1], site.nodes, site.links, menu, parent))
    ensures Reach(tree, site.nodes) <= MenuNids(links0, menu) ==> site.links == links0
  {
    ghost var before := site.links;
    ghost var shapes := Shapes(tree[..i], site.nodes, before, menu, parent);
    WalkStep(tree, i, site.nodes, before, menu, parent);
    LinkItem(site, tree[i], menu, parent, links0, shapes, Reach(tree, site.nodes));
    LinksGrow(before, site.links);
    ShapesStable(tree[..i], site.nodes, before, site.links, menu, parent);
    WalkStep(tree, i, site.nodes, site.links, menu, parent);
  }

  /** The loop body for one live item: its own link, then its children
      under that link. */
  method LinkItem(site: Site, item: TreeItem, menu: string, parent: Option<nat>, ghost links0: seq<MenuLink>,
                  ghost shapes: set<Shape>, ghost reach: set<nat>)
    requires site.Valid() && Live(item, site.nodes)
    requires |links0| <= |site.links| && site.links[..|links0|] == links0
    requires FreshFrom(site.links, |links0|, menu)
    requires ShapedFrom(site.links, |links0|, site.nodes, shapes)
    requires {item.nid} + Reach(item.below, site.nodes) <= reach
    requires reach <= MenuNids(links0, menu) ==> site.links == links0
    modifies site
    decreases item
    ensures site.Valid()
    ensures site.nodes == old(site.nodes) && site.nextId == old(site.nextId) && site.aliases == old(site.aliases)
    ensures |old(site.links)| <= |site.links| && site.links[..|old(site.links)|] == old(site.links)
    ensures {item.nid} + Reach(item.below, site.nodes) <= MenuNids(site.links, menu)
    ensures FreshFrom(site.links, |links0|, menu)
    ensures ShapedFrom(site.links, |links0|, site.nodes,
      shapes + {ShapeOf(item, parent)} + Shapes(item.below, site.nodes, site.links, menu, Some(UuidFor(site.links, menu, item.nid))))
    ensures reach <= MenuNids(links0, menu) ==> site.links == links0
  {
    var pid := LinkNode(site, item, menu, parent, links0, shapes, reach);
    ghost var mid := site.links;
    CreateMenuLinksFromBookTree(site, item.below, menu, Some(pid));
    LinksGrow(mid, site.links);
    UuidStable(mid, site.links, menu, item.nid);
    ExtendWalk(links0, mid, site.links, menu, site.nodes, shapes + {ShapeOf(item, parent)},
               Shapes(item.below, site.nodes, site.links, menu, Some(pid)));
  }

  /** The link of one live item: the menu's existing link to its node, or a
      new one under `parent`.  Returns the uuid its children hang under,
      which is that of the menu's link to the node. */
  method LinkNode(site: Site, item: TreeItem, menu: string, parent: Option<nat>, ghost links0: seq<MenuLink>,
                  ghost shapes: set<Shape>, ghost reach: set<nat>) returns (pid: nat)
    requires site.Valid() && Live(item, site.nodes)
    requires |links0| <= |site.links| && site.links[..|links0|] == links0
    requires FreshFrom(site.links, |links0|, menu)
    requires ShapedFrom(site.links, |links0|, site.nodes, shapes)
    requires item.nid in reach
    requires reach <= MenuNids(links0, menu) ==> site.links == links0
    modifies site
    ensures site.Valid()
    ensures site.nodes == old(site.nodes) && site.nextId == old(site.nextId) && site.aliases == old(site.aliases)
    ensures |old(site.links)| <= |site.links| && site.links[..|old(site.links)|] == old(site.links)
    ensures |links0| <= |site.links| && site.links[..|links0|] == links0
    ensures item.nid in MenuNids(site.links, menu)
    ensures LinkFor(site.links, menu, item.nid).Some? && pid == UuidFor(site.links, menu, item.nid)
    ensures LinkFor(old(site.links), menu, item.nid).Some? ==> site.links == old(site.links)
    ensures LinkFor(old(site.links), menu, item.nid).None? ==>
      site.links == old(site.links) + [MenuLink(pid, site.nodes[item.nid].title, item.nid, menu, parent, WeightOf(item), item.below != [])]
    ensures FreshFrom(site.links, |links0|, menu)
    ensures ShapedFrom(site.links, |links0|, site.nodes, shapes + {ShapeOf(item, parent)})
    ensures reach <= MenuNids(links0, menu) ==> site.links == links0
  {
    if reach <= MenuNids(links0, menu) {
      LinkedIsFound(site.links, menu, item.nid);
    }
    var existing := LinkFor(site.links, menu, item.nid);
    if existing.None? {
      pid := site.CreateLink(site.nodes[item.nid].title, item.nid, menu, parent, WeightOf(item), item.below != []);
      LinksGrow(old(site.links), site.links);
      AppendLink(links0, old(site.links), site.links[|site.links| - 1], menu, site.nodes, shapes, ShapeOf(item, parent));
    } else {
      pid := site.links[existing.value].uuid;
    }
  }

  /** Appending one fresh link for a live node keeps the walk's promises,
      and the menu's link to the node is then the new one. */
  lemma AppendLink(links0: seq<MenuLink>, before: seq<MenuLink>, l: MenuLink, menu: string,
                   nodes: map<nat, Node>, shapes: set<Shape>, shape: Shape)
    requires |links0| <= |before| && before[..|links0|] == links0
    requires FreshFrom(before, |links0|, menu) && ShapedFrom(before, |links0|, nodes, shapes)
    requires l.menuName == menu && LinkFor(before, menu, l.nid).None?
    requires LinkShape(l) == shape && l.nid in nodes && l.title == nodes[l.nid].title
    ensures (before + [l])[..|links0|] == links0
    ensures FreshFrom(before + [l], |links0|, menu)
    ensures ShapedFrom(before + [l], |links0|, nodes, shapes + {shape})
    ensures LinkFor(before + [l], menu, l.nid) == Some(|before|) && UuidFor(before + [l], menu, l.nid) == l.uuid
  {
    assert (before + [l])[..|before|] == before;
    assert (before + [l])[|before|] == l;
    assert forall k :: 0 <= k < |before| ==> (before + [l])[k] == before[k];
  }

  /** Composing a walk of the children (links from `|mid|` on) after the
      links made so far (from `|links0|` on). */
  lemma ExtendWalk(links0: seq<MenuLink>, mid: seq<MenuLink>, links: seq<MenuLink>, menu: string,
                   nodes: map<nat, Node>, s1: set<Shape>, s2: set<Shape>)
    requires |links0| <= |mid| <= |links| && links[..|mid|] == mid
    requires FreshFrom(mid, |links0|, menu) && FreshFrom(links, |mid|, menu)
    requires ShapedFrom(mid, |links0|, nodes, s1) && ShapedFrom(links, |mid|, nodes, s2)
    ensures FreshFrom(links, |links0|, menu)
    ensures ShapedFrom(links, |links0|, nodes, s1 + s2)
  {
    forall k | |links0| <= k < |mid| ensures links[k] == mid[k] {
      assert links[..|mid|][k] == links[k];
    }
  }

  /** Links appended after `a` keep every uuid and every (menu, node) of `a`. */
  lemma LinksGrow(a: seq<MenuLink>, b: seq<MenuLink>)
    requires |a| <= |b| && b[..|a|] == a
    ensures Uuids(a) <= Uuids(b)
    ensures forall menu :: MenuNids(a, menu) <= MenuNids(b, menu)
  {
    forall l | l in a ensures l in b {
      var k :| 0 <= k < |a| && a[k] == l;
      assert b[k] == l;
    }
  }

  /** A node the menu already links to is found by the link lookup. */
  lemma LinkedIsFound(links: seq<MenuLink>, menu: string, nid: nat)
    requires nid in MenuNids(links, menu)
    ensures LinkFor(links, menu, nid).Some?
  {
    var l :| l in links && l.menuName == menu && l.nid == nid;
    var k :| 0 <= k < |links| && links[k] == l;
  }

  /** Appending links never changes which link the lookup finds for a node
      that already had one, so a parent uuid handed to children stays the
      uuid of the menu's link to their tree parent. */
  lemma UuidStable(a: seq<MenuLink>, b: seq<MenuLink>, menu: string, nid: nat)
    requires |a| <= |b| && b[..|a|] == a
    requires LinkFor(a, menu, nid).Some?
    ensures LinkFor(b, menu, nid) == LinkFor(a, menu, nid)
    ensures UuidFor(b, menu, nid) == UuidFor(a, menu, nid)
  {
    var j := LinkFor(a, menu, nid).value;
    assert b[j] == a[j];
    assert forall k :: 0 <= k < j ==> b[k] == a[k] by {
      forall k | 0 <= k < j ensures b[k] == a[k] {
        assert b[..|a|][k] == b[k];
      }
    }
  }

  /** The shapes of a walk whose reached nodes all have links already do
      not change as links are appended. */
  lemma {:induction false} ShapesStable(tree: seq<TreeItem>, nodes: map<nat, Node>, a: seq<MenuLink>, b: seq<MenuLink>,
                                        menu: string, parent: Option<nat>)
    requires |a| <= |b| && b[..|a|] == a
    requires Reach(tree, nodes) <= MenuNids(a, menu)
    ensures Shapes(tree, nodes, a, menu, parent) == Shapes(tree, nodes, b, menu, parent)
    decreases tree
  {
    if tree != [] {
      var last := tree[|tree| - 1];
      ShapesStable(tree[..|tree| - 1], nodes, a, b, menu, parent);
      if Live(last, nodes) {
        LinkedIsFound(a, menu, last.nid);
        UuidStable(a, b, menu, last.nid);
        ShapesStable(last.below, nodes, a, b, menu, Some(UuidFor(a, menu, last.nid)));
      }
    }
  }

  /** The loop reaches at most what the whole tree reaches. */
  lemma {:induction false} WalkCovers(tree: seq<TreeItem>, i: nat, nodes: map<nat, Node>)
    requires i <= |tree|
    ensures Reach(tree[..i], nodes) <= Reach(tree, nodes)
    decreases |tree| - i
  {
    if i < |tree| {
      assert tree[..i + 1][..i] == tree[..i];
      WalkCovers(tree, i + 1, nodes);
    } else {
      assert tree[..i] == tree;
    }
  }

  // ---------------------------------------------------------------------
  // The sync over the three books

  /** The book types the sync visits, in order. */
  const BookTypes: seq<string> := ["bg", "sb", "cc"]

  /** The outline tree the sync walks for `bookType`: empty when no main
      book is configured, it does not load, or it is in no outline
      (`book['bid']` empty); otherwise the tree of its outline, where
      `trees` stands for the book module's `bookTreeAllData`. */
  function SyncTree(nodes: map<nat, Node>, settings: Settings, trees: map<nat, seq<TreeItem>>, bookType: string): seq<TreeItem>
  {
    var main := SettingsFor(settings, bookType).mainBookNid;
    if main == 0 || main !in nodes then []
    else
      var book := nodes[main].book;
      if book.None? || book.value.bid == 0 then []
      else if book.value.bid in trees then trees[book.value.bid]
      else []
  }

  /** What the sync of the first book types reaches. */
  ghost function SyncReach(nodes: map<nat, Node>, settings: Settings, trees: map<nat, seq<TreeItem>>, types: seq<string>): set<nat>
  {
    if types == [] then {}
    else SyncReach(nodes, settings, trees, types[..|types| - 1]) + Reach(SyncTree(nodes, settings, trees, types[|types| - 1]), nodes)
  }

  /** The links the sync of the first book types may create: the shapes
      of each book's walk with no parent at the top level. */
  ghost function SyncShapes(nodes: map<nat, Node>, settings: Settings, trees: map<nat, seq<TreeItem>>, types: seq<string>,
                            links: seq<MenuLink>, menu: string): set<Shape>
  {
    if types == [] then {}
    else SyncShapes(nodes, settings, trees, types[..|types| - 1], links, menu)
           + Shapes(SyncTree(nodes, settings, trees, types[|types| - 1]), nodes, links, menu, None)
  }

  /** `syncWithMenutree`: walk the outline of each configured main book
      into `menu`, with no parent at the top level. */
  method SyncWithMenutree(site: Site, settings: Settings, menu: string, trees: map<nat, seq<TreeItem>>)
    requires site.Valid()
    modifies site
    ensures site.Valid()
    ensures site.nodes == old(site.nodes) && site.nextId == old(site.nextId) && site.aliases == old(site.aliases)
    ensures |old(site.links)| <= |site.links| && site.links[..|old(site.links)|] == old(site.links)
    ensures SyncReach(site.nodes, settings, trees, BookTypes) <= MenuNids(site.links, menu)
    ensures FreshFrom(site.links, |old(site.links)|, menu)
    ensures ShapedFrom(site.links, |old(site.links)|, site.nodes, SyncShapes(site.nodes, settings, trees, BookTypes, site.links, menu))
    ensures SyncReach(site.nodes, settings, trees, BookTypes) <= MenuNids(old(site.links), menu) ==> site.links == old(site.links)
  {
    ghost var links0 := site.links;
    ghost var all := SyncReach(site.nodes, settings, trees, BookTypes);
    var k := 0;
    while k < |BookTypes|
      invariant 0 <= k <= |BookTypes|
      invariant site.Valid()
      invariant site.nodes == old(site.nodes) && site.nextId == old(site.nextId) && site.aliases == old(site.aliases)
      invariant |links0| <= |site.links| && site.links[..|links0|] == links0
      invariant SyncReach(site.nodes, settings, trees, BookTypes[..k]) <= MenuNids(site.links, menu)
      invariant FreshFrom(site.links, |links0|, menu)
      invariant ShapedFrom(site.links, |links0|, site.nodes, SyncShapes(site.nodes, settings, trees, BookTypes[..k], site.links, menu))
      invariant all <= MenuNids(links0, menu) ==> site.links == links0
    {
      SyncCovers(site.nodes, settings, trees, BookTypes, k + 1);
      SyncBook(site, settings, menu, trees, k, links0);
      k := k + 1;
    }
    assert BookTypes[..|BookTypes|] == BookTypes;
  }

  /** The loop body for the `k`-th book type. */
  method SyncBook(site: Site, settings: Settings, menu: string, trees: map<nat, seq<TreeItem>>, k: nat, ghost links0: seq<MenuLink>)
    requires k < |BookTypes|
    requires site.Valid()
    requires |links0| <= |site.links| && site.links[..|links0|] == links0
    requires SyncReach(site.nodes, settings, trees, BookTypes[..k]) <= MenuNids(site.links, menu)
    requires FreshFrom(site.links, |links0|, menu)
    requires ShapedFrom(site.links, |links0|, site.nodes, SyncShapes(site.nodes, settings, trees, BookTypes[..k], site.links, menu))
    requires SyncReach(site.nodes, settings, trees, BookTypes) <= MenuNids(links0, menu) ==> site.links == links0
    requires SyncReach(site.nodes, settings, trees, BookTypes[..k + 1]) <= SyncReach(site.nodes, settings, trees, BookTypes)
    modifies site
    ensures site.Valid()
    ensures site.nodes == old(site.nodes) && site.nextId == old(site.nextId) && site.aliases == old(site.aliases)
    ensures |links0| <= |site.links| && site.links[..|links0|] == links0
    ensures SyncReach(site.nodes, settings, trees, BookTypes[..k + 1]) <= MenuNids(site.links, menu)
    ensures FreshFrom(site.links, |links0|, menu)
    ensures ShapedFrom(site.links, |links0|, site.nodes, SyncShapes(site.nodes, settings, trees, BookTypes[..k + 1], site.links, menu))
    ensures SyncReach(site.nodes, settings, trees, BookTypes) <= MenuNids(links0, menu) ==> site.links == links0
  {
    var tree := SyncTree(site.nodes, settings, trees, BookTypes[k]);
    ghost var mid := site.links;
    ghost var done := SyncShapes(site.nodes, settings, trees, BookTypes[..k], mid, menu);
    CreateMenuLinksFromBookTree(site, tree, menu, None);
    LinksGrow(mid, site.links);
    assert site.links[..|links0|] == links0 by {
      assert site.links[..|mid|][..|links0|] == site.links[..|links0|];
    }
    SyncShapesStable(site.nodes, settings, trees, BookTypes[..k], mid, site.links, menu);
    SyncStep(site.nodes, settings, trees, BookTypes, k, site.links, menu);
    ExtendWalk(links0, mid, site.links, menu, site.nodes, done, Shapes(tree, site.nodes, site.links, menu, None));
  }

  /** One more book type of the loop, and what it adds. */
  lemma SyncStep(nodes: map<nat, Node>, settings: Settings, trees: map<nat, seq<TreeItem>>, types: seq<string>, k: nat,
                  links: seq<MenuLink>, menu: string)
    requires k < |types|
    ensures SyncReach(nodes, settings, trees, types[..k + 1])
      == SyncReach(nodes, settings, trees, types[..k]) + Reach(SyncTree(nodes, settings, trees, types[k]), nodes)
    ensures SyncShapes(nodes, settings, trees, types[..k + 1], links, menu)
      == SyncShapes(nodes, settings, trees, types[..k], links, menu)
         + Shapes(SyncTree(nodes, settings, trees, types[k]), nodes, links, menu, None)
  {
    assert types[..k + 1][..k] == types[..k];
  }

  /** The sync of the first book types reaches at most what the whole sync does. */
  lemma {:induction false} SyncCovers(nodes: map<nat, Node>, settings: Settings, trees: map<nat, seq<TreeItem>>, types: seq<string>, k: nat)
    requires k <= |types|
    ensures SyncReach(nodes, settings, trees, types[..k]) <= SyncReach(nodes, settings, trees, types)
    decreases |types| - k
  {
    if k < |types| {
      assert types[..k + 1][..k] == types[..k];
      SyncCovers(nodes, settings, trees, types, k + 1);
    } else {
      assert types[..k] == types;
    }
  }

  /** The shapes of the books already synced do not change as later books
      append links, since their nodes all have links already. */
  lemma {:induction false} SyncShapesStable(nodes: map<nat, Node>, settings: Settings, trees: map<nat, seq<TreeItem>>,
                                            types: seq<string>, a: seq<MenuLink>, b: seq<MenuLink>, menu: string)
    requires |a| <= |b| && b[..|a|] == a
    requires SyncReach(nodes, settings, trees, types) <= MenuNids(a, menu)
    ensures SyncShapes(nodes, settings, trees, types, a, menu) == SyncShapes(nodes, settings, trees, types, b, menu)
    decreases types
  {
    if types != [] {
      SyncShapesStable(nodes, settings, trees, types[..|types| - 1], a, b, menu);
      ShapesStable(SyncTree(nodes, settings, trees, types[|types| - 1]), nodes, a, b, menu, None);
    }
  }
}
