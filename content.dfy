/**
 * The entity store the structuring engine works on: nodes with their
 * outline ("book") links, the path-alias table and the menu-link table,
 * held as in-memory maps and sequences.  Entity queries are modelled as a
 * scan of the node ids in ascending order, which is the order every
 * "first match" below refers to.
 */
module Content {
  import opened Base
  import opened Slugs

  /** A node's place in a book outline.  `bid` and `pid` use 0 for "none". */
  datatype BookLink = BookLink(bid: nat, pid: nat, hasChildren: bool, weight: int)

  /** A node: bundle (content type), title, `field_number`, `field_title`,
      publication status, the three reference fields and the outline link
      (`None` is the empty outline `[]`). */
  datatype Node = Node(
    bundle: string,
    title: Text,
    number: Option<int>,
    fieldTitle: Option<Text>,
    status: int,
    bookRef: Option<nat>,
    songRef: Option<nat>,
    lilaRef: Option<nat>,
    book: Option<BookLink>)

  /** A row of the path-alias table; `published` is `status = 1`. */
  datatype PathAlias = PathAlias(path: string, alias: string, published: bool)

  /** A menu link to a node; `parent` is the uuid of the parent link, or
      `None` for a top-level link (the empty parent string). */
  datatype MenuLink = MenuLink(uuid: nat, title: Text, nid: nat, menuName: string,
                               parent: Option<nat>, weight: int, expanded: bool)

  /** An item of a book tree as the book manager hands it out: the linked
      node id (0 when the link has none), its weight if set, and its
      children. */
  datatype TreeItem = TreeItem(nid: nat, weight: Option<int>, below: seq<TreeItem>)

  /** The conditions of an entity query on nodes. */
  datatype Cond = Cond(bundle: string, number: Option<int>, status: Option<int>,
                       songRef: Option<nat>, lilaRef: Option<nat>)

  function OfType(bundle: string): Cond
  {
    Cond(bundle, None, None, None, None)
  }

  predicate Matches(n: Node, c: Cond)
  {
    && n.bundle == c.bundle
    && (c.number.Some? ==> n.number == c.number)
    && (c.status.Some? ==> n.status == c.status.value)
    && (c.songRef.Some? ==> n.songRef == c.songRef)
    && (c.lilaRef.Some? ==> n.lilaRef == c.lilaRef)
  }

  predicate Selects(nodes: map<nat, Node>, c: Cond, id: nat)
  {
    id in nodes && Matches(nodes[id], c)
  }

  predicate Ascending(ids: seq<nat>)
  {
    forall i, j :: 0 <= i < j < |ids| ==> ids[i] < ids[j]
  }

  /** The ids below `hi` of the nodes that satisfy `c`, in ascending order. */
  function Query(nodes: map<nat, Node>, c: Cond, hi: nat): (ids: seq<nat>)
    ensures Ascending(ids)
    ensures forall i :: 0 <= i < |ids| ==> ids[i] < hi && Selects(nodes, c, ids[i])
    ensures forall id: nat :: id < hi && Selects(nodes, c, id) ==> id in ids
  {
    if hi == 0 then []
    else
      var ids := Query(nodes, c, hi - 1);
      if Selects(nodes, c, hi - 1) then ids + [hi - 1] else ids
  }

  /** The first id a `range(0, 1)` query returns. */
  function First(nodes: map<nat, Node>, c: Cond, hi: nat): (r: Option<nat>)
    ensures r.Some? ==> r.value < hi && Selects(nodes, c, r.value)
    ensures r.Some? ==> forall id: nat :: id < r.value ==> !Selects(nodes, c, id)
    ensures r.None? ==> forall id: nat :: id < hi ==> !Selects(nodes, c, id)
  {
    var ids := Query(nodes, c, hi);
    if ids == [] then None
    else
      assert forall id: nat :: id < ids[0] && Selects(nodes, c, id) ==> id in ids;
      Some(ids[0])
  }

  /** Two stores that differ at most in the outline links of their nodes. */
  predicate SameButBooks(a: map<nat, Node>, b: map<nat, Node>)
  {
    a.Keys == b.Keys && forall k :: k in a ==> a[k].(book := None) == b[k].(book := None)
  }

  /** Outline links take no part in any query. */
  lemma {:induction false} QueryIgnoresBooks(a: map<nat, Node>, b: map<nat, Node>, c: Cond, hi: nat)
    requires SameButBooks(a, b)
    ensures Query(a, c, hi) == Query(b, c, hi)
  {
    if hi > 0 {
      QueryIgnoresBooks(a, b, c, hi - 1);
      if hi - 1 in a {
        assert a[hi - 1].(book := None) == b[hi - 1].(book := None);
        assert Matches(a[hi - 1], c) == Matches(b[hi - 1], c);
      }
    }
  }

  // ---------------------------------------------------------------------
  // Path aliases

  /** The `fetchField()` of the direct `path_alias` select: the first
      published row for `path`. */
  function PublishedAlias(rows: seq<PathAlias>, path: string): (r: Option<string>)
    ensures r.Some? <==> exists k :: 0 <= k < |rows| && rows[k].path == path && rows[k].published
    ensures r.Some? ==> exists k :: 0 <= k < |rows| && rows[k].path == path && rows[k].published && rows[k].alias == r.value
  {
    if rows == [] then None
    else if rows[0].path == path && rows[0].published then Some(rows[0].alias)
    else
      var r := PublishedAlias(rows[1..], path);
      assert forall k :: 1 <= k < |rows| ==> rows[k] == rows[1..][k - 1];
      r
  }

  /** Row `k` is the most recent published alias of `path`. */
  predicate LatestForPath(rows: seq<PathAlias>, path: string, k: int)
  {
    && 0 <= k < |rows| && rows[k].path == path && rows[k].published
    && forall j :: k < j < |rows| ==> !(rows[j].path == path && rows[j].published)
  }

  /** Row `k` is the most recent published row for `alias`. */
  predicate LatestForAlias(rows: seq<PathAlias>, alias: string, k: int)
  {
    && 0 <= k < |rows| && rows[k].alias == alias && rows[k].published
    && forall j :: k < j < |rows| ==> !(rows[j].alias == alias && rows[j].published)
  }

  /** The alias manager's `getAliasByPath`: the most recent published alias
      of `path`, or `path` itself when it has none. */
  function AliasByPath(rows: seq<PathAlias>, path: string): (r: string)
    ensures forall k :: LatestForPath(rows, path, k) ==> r == rows[k].alias
    ensures (forall k :: 0 <= k < |rows| ==> !(rows[k].path == path && rows[k].published)) ==> r == path
    ensures r == path || exists k :: 0 <= k < |rows| && rows[k].path == path && rows[k].published && rows[k].alias == r
  {
    if rows == [] then path
    else
      var last := rows[|rows| - 1];
      if last.path == path && last.published then last.alias
      else
        var front := rows[..|rows| - 1];
        assert forall k :: LatestForPath(rows, path, k) ==> LatestForPath(front, path, k);
        AliasByPath(front, path)
  }

  /** The alias manager's `getPathByAlias`: the path of the most recent
      published row for `alias`, or `alias` itself when there is none. */
  function PathByAlias(rows: seq<PathAlias>, alias: string): (r: string)
    ensures forall k :: LatestForAlias(rows, alias, k) ==> r == rows[k].path
    ensures (forall k :: 0 <= k < |rows| ==> !(rows[k].alias == alias && rows[k].published)) ==> r == alias
    ensures r == alias || exists k :: 0 <= k < |rows| && rows[k].alias == alias && rows[k].published && rows[k].path == r
  {
    if rows == [] then alias
    else
      var last := rows[|rows| - 1];
      if last.alias == alias && last.published then last.path
      else
        var front := rows[..|rows| - 1];
        assert forall k :: LatestForAlias(rows, alias, k) ==> LatestForAlias(front, alias, k);
        PathByAlias(front, alias)
  }

  /** `loadByProperties(['alias' => $alias])` finds a row, whatever its path
      or status. */
  predicate AliasTaken(rows: seq<PathAlias>, alias: string)
  {
    exists k :: 0 <= k < |rows| && rows[k].alias == alias
  }

  /** The alias table after `createPathAlias(node nid, alias)`. */
  function WithAlias(rows: seq<PathAlias>, nid: nat, alias: string): (r: seq<PathAlias>)
    ensures AliasTaken(r, alias)
    ensures AliasTaken(rows, alias) ==> r == rows
    ensures !AliasTaken(rows, alias) ==> r == rows + [PathAlias(NodePath(nid), alias, true)]
  {
    if AliasTaken(rows, alias) then rows
    else
      var r := rows + [PathAlias(NodePath(nid), alias, true)];
      assert r[|rows|].alias == alias;
      r
  }

  // ---------------------------------------------------------------------
  // Menu links

  /** The `loadByProperties` lookup of a link for (menu, node): the first one. */
  function LinkFor(links: seq<MenuLink>, menu: string, nid: nat): (r: Option<nat>)
    ensures r.Some? ==> r.value < |links| && links[r.value].menuName == menu && links[r.value].nid == nid
    ensures r.Some? ==> forall k :: 0 <= k < r.value ==> !(links[k].menuName == menu && links[k].nid == nid)
    ensures r.None? ==> forall k :: 0 <= k < |links| ==> !(links[k].menuName == menu && links[k].nid == nid)
  {
    if links == [] then None
    else if links[0].menuName == menu && links[0].nid == nid then Some(0)
    else
      var r := LinkFor(links[1..], menu, nid);
      if r.Some? then Some(r.value + 1) else None
  }

  function Uuids(links: seq<MenuLink>): set<nat>
  {
    set l | l in links :: l.uuid
  }

  function MenuNids(links: seq<MenuLink>, menu: string): set<nat>
  {
    set l | l in links && l.menuName == menu :: l.nid
  }

  // ---------------------------------------------------------------------
  // The store

  /** Why a structuring operation stopped. */
  datatype Failure =
    | NotConfigured(which: string)
    | MainBookMissing(which: string)
    | SaveRefused(nid: nat)
    | LoadFailed(nid: nat)
  {
    /** The exception message the structuring code throws, for its own
        exceptions; the storage layer's messages are not modelled. */
    function Message(): (m: Option<string>)
      ensures m.Some? <==> (this.NotConfigured? || this.MainBookMissing?)
    {
      match this
      case NotConfigured(which) => Some("Main book node ID not configured for " + which)
      case MainBookMissing(which) => Some("Main book node not found for " + which)
      case _ => None
    }
  }

  datatype Outcome = Pass | Fail(failure: Failure)

  /** The site: node storage, alias table and menu-link table.  `refused`
      holds the nodes whose re-save the storage layer rejects with an
      exception; creating a node always succeeds. */
  class Site {
    var nodes: map<nat, Node>
    var nextId: nat
    var aliases: seq<PathAlias>
    var links: seq<MenuLink>
    var nextUuid: nat
    const refused: set<nat>

    /** Node ids are positive and below `nextId`; link uuids are positive
        and below `nextUuid`, so both counters hand out fresh values. */
    ghost predicate Valid()
      reads this
    {
      && 0 < nextId && 0 < nextUuid
      && (forall id :: id in nodes ==> 0 < id < nextId)
      && (forall l :: l in links ==> 0 < l.uuid < nextUuid)
    }

    constructor (refused: set<nat>)
      ensures Valid()
      ensures nodes == map[] && aliases == [] && links == []
      ensures nextId == 1 && nextUuid == 1 && this.refused == refused
    {
      nodes := map[];
      nextId := 1;
      aliases := [];
      links := [];
      nextUuid := 1;
      this.refused := refused;
    }

    /** `$storage->create($values)->save()`: a new node under a fresh id. */
    method Create(n: Node) returns (id: nat)
      requires Valid()
      modifies this
      ensures Valid()
      ensures id == old(nextId) && id !in old(nodes) && 0 < id
      ensures nodes == old(nodes)[id := n] && nextId == old(nextId) + 1
      ensures aliases == old(aliases) && links == old(links) && nextUuid == old(nextUuid)
    {
      id := nextId;
      nodes := nodes[id := n];
      nextId := nextId + 1;
    }

    /** `$node->save()` on an existing node; a refused save leaves the
        store as it was and reports `false`. */
    method Save(id: nat, n: Node) returns (ok: bool)
      requires Valid() && id in nodes
      modifies this
      ensures Valid()
      ensures ok <==> id !in refused
      ensures nodes == if ok then old(nodes)[id := n] else old(nodes)
      ensures nextId == old(nextId) && aliases == old(aliases) && links == old(links) && nextUuid == old(nextUuid)
    {
      ok := id !in refused;
      if ok {
        nodes := nodes[id := n];
      }
    }

    /** The direct `DELETE FROM book WHERE nid = id`: the node leaves its
        outline. */
    method DropBookRow(id: nat)
      requires Valid() && id in nodes
      modifies this
      ensures Valid()
      ensures nodes == old(nodes)[id := old(nodes)[id].(book := None)]
      ensures nextId == old(nextId) && aliases == old(aliases) && links == old(links) && nextUuid == old(nextUuid)
    {
      nodes := nodes[id := nodes[id].(book := None)];
    }

    /** `$storage->delete($entities)`. */
    method DeleteAll(ids: seq<nat>)
      requires Valid()
      modifies this
      ensures Valid()
      ensures nodes == old(nodes) - set i | i in ids
      ensures nextId == old(nextId) && aliases == old(aliases) && links == old(links) && nextUuid == old(nextUuid)
    {
      nodes := nodes - set i | i in ids;
    }

    /** `createPathAlias($node, $alias)`: a published alias row for the
        node, unless a row with that alias already exists. */
    method CreatePathAlias(nid: nat, alias: string)
      requires Valid()
      modifies this
      ensures Valid()
      ensures aliases == WithAlias(old(aliases), nid, alias)
      ensures nodes == old(nodes) && nextId == old(nextId) && links == old(links) && nextUuid == old(nextUuid)
    {
      var i := 0;
      var existing := false;
      while i < |aliases|
        invariant 0 <= i <= |aliases|
        invariant existing <==> exists k :: 0 <= k < i && aliases[k].alias == alias
      {
        if aliases[i].alias == alias {
          existing := true;
        }
        i := i + 1;
      }
      if !existing {
        aliases := aliases + [PathAlias(NodePath(nid), alias, true)];
      }
    }

    /** `menu_link_content` create and save: a link under a fresh uuid. */
    method CreateLink(title: Text, nid: nat, menu: string, parent: Option<nat>, weight: int, expanded: bool)
      returns (uuid: nat)
      requires Valid()
      modifies this
      ensures Valid()
      ensures uuid == old(nextUuid) && uuid !in Uuids(old(links)) && 0 < uuid
      ensures links == old(links) + [MenuLink(uuid, title, nid, menu, parent, weight, expanded)]
      ensures nextUuid == old(nextUuid) + 1
      ensures nodes == old(nodes) && nextId == old(nextId) && aliases == old(aliases)
    {
      uuid := nextUuid;
      links := links + [MenuLink(uuid, title, nid, menu, parent, weight, expanded)];
      nextUuid := nextUuid + 1;
    }
  }
}
