/**
 * The batch operations: each call works on one chunk and records where it
 * stands in an explicit context, `sandbox.progress` out of `sandbox.max`,
 * the `finished` fraction the batch host reads to decide whether to call
 * again, and the `results.errors` list.  Structuring operations run in one
 * shot; verse assignment walks a snapshot of verse ids 50 at a time.
 */
module Batch {
  import opened Base
  import opened Slugs
  import opened Content
  import opened Resolver
  import opened Builder
  import opened Assigner

  /** The `&$context` array of one batch operation. */
  class BatchContext {
    /** `isset($context['sandbox']['progress'])`. */
    var started: bool
    var progress: nat
    var max: nat
    var verseIds: seq<nat>
    /** `results.errors`: the failures whose exception messages were logged. */
    var errors: seq<Failure>
    var finished: real
    var message: Option<Text>

    /** A context before the first call of its operation. */
    constructor ()
      ensures !started && progress == 0 && max == 0 && verseIds == []
      ensures errors == [] && finished == 0.0 && message == None
    {
      started := false;
      progress := 0;
      max := 0;
      verseIds := [];
      errors := [];
      finished := 0.0;
      message := None;
    }

    /** Of the assign operation: progress never passes the snapshot size. */
    ghost predicate AssignValid()
      reads this
    {
      started ==> progress <= max && max == |verseIds|
    }

    /** What `Settle(out, done)` leaves in the context, field by field:
        the sandbox is started (with `max = 1` if it was not), progress is 1
        after a normal return and otherwise kept (0 on a fresh sandbox), the
        failure is appended to the errors, the message is set only after a
        normal return, the verse snapshot is kept, and `finished` is
        `progress / max`. */
    twostate predicate Settled(new out: Outcome, new done: Text)
      reads this
    {
      SettledFrom(old(started), old(progress), old(max), old(errors), old(message), old(verseIds), out, done)
    }

    /** `Settled`, with the fields before the call given as values. */
    ghost predicate SettledFrom(started0: bool, progress0: nat, max0: nat, errors0: seq<Failure>,
                                message0: Option<Text>, verseIds0: seq<nat>, out: Outcome, done: Text)
      reads this
    {
      && started && max == (if started0 then max0 else 1)
      && progress == (if out.Pass? then 1 else if started0 then progress0 else 0)
      && errors == errors0 + (if out.Fail? then [out.failure] else [])
      && message == (if out.Pass? then Some(done) else message0)
      && verseIds == verseIds0
      && max != 0 && finished == progress as real / max as real
    }

    /** The shared tail of the single-shot operations: initialise the
        sandbox once (`progress = 0, max = 1`), count the operation as done
        when it returned normally, record its failure otherwise, and set
        `finished = progress / max`.  A sandbox started earlier is kept, so
        its `max` must be non-zero for the division. */
    method Settle(out: Outcome, done: Text)
      requires started ==> max != 0
      modifies this
      ensures Settled(out, done)
      ensures !old(started) ==> (finished == 1.0 <==> out.Pass?)
      ensures !old(started) && out.Fail? ==> finished == 0.0
    {
      if !started {
        started := true;
        progress := 0;
        max := 1;
      }
      if out.Pass? {
        progress := 1;
        message := Some(done);
      } else {
        errors := errors + [out.failure];
      }
      finished := progress as real / max as real;
    }
  }

  // ---------------------------------------------------------------------
  // Single-shot operations

  /** `BookStructureBatch::createChapters`. */
  method CreateChaptersOp(ctx: BatchContext, site: Site, settings: Settings, bookType: string, config: Option<int>)
    returns (out: Outcome)
    requires site.Valid() && (ctx.started ==> ctx.max != 0)
    modifies ctx, site
    ensures site.Valid()
    ensures Performed(site, ChaptersPlan(old(site.nodes), settings, bookType, config), out)
    ensures !old(ctx.started) ==> (ctx.finished == 1.0 <==> out.Pass?)
    ensures ctx.Settled(out, Text("Создание глав для @type завершено.", [bookType]))
  {
    out := CreateChapters(site, settings, bookType, config);
    ctx.Settle(out, Text("Создание глав для @type завершено.", [bookType]));
  }

  /** `BookStructureBatch::createSongs`. */
  method CreateSongsOp(ctx: BatchContext, site: Site, settings: Settings) returns (out: Outcome)
    requires site.Valid() && (ctx.started ==> ctx.max != 0)
    modifies ctx, site
    ensures site.Valid()
    ensures Performed(site, DivisionsPlan(old(site.nodes), old(site.nextId), settings, "sb", "SB", Songs()), out)
    ensures !old(ctx.started) ==> (ctx.finished == 1.0 <==> out.Pass?)
    ensures ctx.Settled(out, Text("Создание песен ШБ завершено.", []))
  {
    out := CreateSongs(site, settings);
    ctx.Settle(out, Text("Создание песен ШБ завершено.", []));
  }

  /** `BookStructureBatch::createLilas`. */
  method CreateLilasOp(ctx: BatchContext, site: Site, settings: Settings) returns (out: Outcome)
    requires site.Valid() && (ctx.started ==> ctx.max != 0)
    modifies ctx, site
    ensures site.Valid()
    ensures Performed(site, DivisionsPlan(old(site.nodes), old(site.nextId), settings, "cc", "CC", Lilas()), out)
    ensures !old(ctx.started) ==> (ctx.finished == 1.0 <==> out.Pass?)
    ensures ctx.Settled(out, Text("Создание лил ЧЧ завершено.", []))
  {
    out := CreateLilas(site, settings);
    ctx.Settle(out, Text("Создание лил ЧЧ завершено.", []));
  }

  /** `BookStructureBatch::deleteStructure`. */
  method DeleteStructureOp(ctx: BatchContext, site: Site, bookType: string) returns (out: Outcome)
    requires site.Valid() && (ctx.started ==> ctx.max != 0)
    modifies ctx, site
    ensures site.Valid()
    ensures DeleteResult(old(site.nodes), old(site.nextId), bookType, site.refused) == Teardown(site.nodes, out)
    ensures site.nextId == old(site.nextId) && site.aliases == old(site.aliases)
    ensures site.links == old(site.links) && site.nextUuid == old(site.nextUuid)
    ensures !old(ctx.started) ==> (ctx.finished == 1.0 <==> out.Pass?)
    ensures ctx.Settled(out, Text("Удаление структуры @type завершено.", [bookType]))
  {
    out := DeleteStructure(site, bookType);
    ctx.Settle(out, Text("Удаление структуры @type завершено.", [bookType]));
  }

  // ---------------------------------------------------------------------
  // Verse assignment, 50 verses per call

  const ChunkSize: nat := 50

  /** `array_slice($verse_ids, $progress, 50)`. */
  function Chunk(ids: seq<nat>, p: nat): (c: seq<nat>)
    requires p <= |ids|
    ensures |c| <= ChunkSize && |c| == if p + ChunkSize <= |ids| then ChunkSize else |ids| - p
    ensures forall k :: 0 <= k < |c| ==> c[k] == ids[p + k]
  {
    if p + ChunkSize <= |ids| then ids[p..p + ChunkSize] else ids[p..]
  }

  /** `$context['finished']` after an assign chunk. */
  function Finished(progress: nat, max: nat): real
  {
    if max > 0 then progress as real / max as real else 1.0
  }

  /** The chapter the batch path links a verse with this alias to: only
      `(<type>_chapter, number)` is looked up, whatever the book type, and a
      chapter number 0 counts as none. */
  function BatchLink(nodes: map<nat, Node>, hi: nat, bookType: string, alias: string): Option<BookLink>
  {
    var num := ParseChapterFromAlias(alias, bookType);
    if num.None? || num.value == 0 then None
    else
      var c := FindChapter(nodes, hi, bookType, num.value);
      if c.None? then None
      else Some(BookLink(BidOf(nodes[c.value]), c.value, false, ParseVerseFromAlias(alias)))
  }

  /** Where a sweep over a chunk stands: the store, how many items were
      counted, and the verse whose load threw, if one did. */
  datatype Sweep = Sweep(nodes: map<nat, Node>, counted: nat, failed: Option<nat>)

  /** One verse of the chunk.  A load that throws (`loadFails`) aborts the
      chunk; a deleted verse is counted; a verse without a published alias
      is skipped without being counted; otherwise its book row is dropped
      and the new link saved (a refused save leaves it out of its outline),
      and it is counted. */
  function SweepItem(r: Sweep, hi: nat, rows: seq<PathAlias>, bookType: string, refused: set<nat>, loadFails: set<nat>, v: nat): Sweep
  {
    if v in loadFails then r.(failed := Some(v))
    else if v !in r.nodes then r.(counted := r.counted + 1)
    else
      var alias := PublishedAlias(rows, NodePath(v));
      if alias.None? || FalsyString(alias.value) then r
      else
        var link := BatchLink(r.nodes, hi, bookType, alias.value);
        if link.None? then r.(counted := r.counted + 1)
        else Sweep(r.nodes[v := r.nodes[v].(book := if v in refused then None else link)], r.counted + 1, None)
  }

  /** The sweep over `chunk`, item by item, stopping at the first failure. */
  function SweepOf(nodes: map<nat, Node>, hi: nat, rows: seq<PathAlias>, bookType: string, refused: set<nat>,
                   loadFails: set<nat>, chunk: seq<nat>): Sweep
  {
    if chunk == [] then Sweep(nodes, 0, None)
    else
      var r := SweepOf(nodes, hi, rows, bookType, refused, loadFails, chunk[..|chunk| - 1]);
      if r.failed.Some? then r else SweepItem(r, hi, rows, bookType, refused, loadFails, chunk[|chunk| - 1])
  }

  /** The progress message. */
  function ProgressText(progress: nat, max: nat): Text
  {
    Text("Обработано @current из @total стихов.", [Decimal(progress), Decimal(max)])
  }

  /** `BookStructureBatch::assignVerses`: on the first call snapshot the
      ids of all verses of `bookType`; then sweep the next chunk of the
      snapshot.  An empty chunk only sets `finished = 1`.  `loadFails`
      names the verses whose loading throws. */
  method AssignVersesStep(ctx: BatchContext, site: Site, bookType: string, loadFails: set<nat>)
    requires ctx.AssignValid() && site.Valid()
    modifies ctx, site
    ensures ctx.AssignValid() && site.Valid() && ctx.started
    ensures site.nextId == old(site.nextId) && site.aliases == old(site.aliases)
    ensures site.links == old(site.links) && site.nextUuid == old(site.nextUuid)
    ensures old(ctx.started) ==> ctx.verseIds == old(ctx.verseIds) && ctx.max == old(ctx.max)
    ensures !old(ctx.started) ==> ctx.verseIds == Query(old(site.nodes), OfType(bookType), old(site.nextId)) && ctx.max == |ctx.verseIds|
    ensures var p0 := if old(ctx.started) then old(ctx.progress) else 0;
      var chunk := Chunk(ctx.verseIds, p0);
      chunk == [] ==>
        && ctx.finished == 1.0 && ctx.progress == p0 && site.nodes == old(site.nodes)
        && ctx.errors == old(ctx.errors) && ctx.message == old(ctx.message)
    ensures var p0 := if old(ctx.started) then old(ctx.progress) else 0;
      var chunk := Chunk(ctx.verseIds, p0);
      var r := SweepOf(old(site.nodes), site.nextId, site.aliases, bookType, site.refused, loadFails, chunk);
      chunk != [] ==>
        && site.nodes == r.nodes && ctx.progress == p0 + r.counted
        && ctx.errors == old(ctx.errors) + (if r.failed.Some? then [LoadFailed(r.failed.value)] else [])
        && ctx.message == (if r.failed.Some? then old(ctx.message) else Some(ProgressText(ctx.progress, ctx.max)))
        && ctx.finished == Finished(ctx.progress, ctx.max)
  {
    if !ctx.started {
      var ids := Query(site.nodes, OfType(bookType), site.nextId);
      ctx.verseIds := ids;
      ctx.progress := 0;
      ctx.max := |ids|;
      ctx.started := true;
    }
    var chunk := Chunk(ctx.verseIds, ctx.progress);
    if chunk == [] {
      ctx.finished := 1.0;
      return;
    }
    SweepChunk(ctx, site, bookType, loadFails, chunk);
  }

  /** A non-empty chunk: the `foreach` with `progress++`, then the message
      or the recorded failure, then `finished`. */
  method SweepChunk(ctx: BatchContext, site: Site, bookType: string, loadFails: set<nat>, chunk: seq<nat>)
    requires ctx.AssignValid() && site.Valid() && ctx.started
    requires ctx.progress + |chunk| <= ctx.max
    modifies ctx, site
    ensures ctx.AssignValid() && site.Valid() && ctx.started
    ensures site.nextId == old(site.nextId) && site.aliases == old(site.aliases)
    ensures site.links == old(site.links) && site.nextUuid == old(site.nextUuid)
    ensures ctx.verseIds == old(ctx.verseIds) && ctx.max == old(ctx.max)
    ensures var r := SweepOf(old(site.nodes), site.nextId, site.aliases, bookType, site.refused, loadFails, chunk);
      && site.nodes == r.nodes && ctx.progress == old(ctx.progress) + r.counted
      && ctx.errors == old(ctx.errors) + (if r.failed.Some? then [LoadFailed(r.failed.value)] else [])
      && ctx.message == (if r.failed.Some? then old(ctx.message) else Some(ProgressText(ctx.progress, ctx.max)))
      && ctx.finished == Finished(ctx.progress, ctx.max)
  {
    ghost var nodes0 := site.nodes;
    ghost var p0 := ctx.progress;
    var failedAt: Option<nat> := None;
    var j := 0;
    while j < |chunk| && failedAt.None?
      invariant 0 <= j <= |chunk|
      invariant site.Valid()
      invariant site.nextId == old(site.nextId) && site.aliases == old(site.aliases)
      invariant site.links == old(site.links) && site.nextUuid == old(site.nextUuid)
      invariant ctx.verseIds == old(ctx.verseIds) && ctx.max == old(ctx.max) && ctx.started
      invariant ctx.errors == old(ctx.errors) && ctx.message == old(ctx.message)
      invariant p0 <= ctx.progress <= p0 + j
      invariant SweepOf(nodes0, site.nextId, site.aliases, bookType, site.refused, loadFails, chunk[..j])
        == Sweep(site.nodes, ctx.progress - p0, failedAt)
    {
      SweepStep(nodes0, site.nextId, site.aliases, bookType, site.refused, loadFails, chunk, j);
      var failed, counted := AssignItem(site, bookType, loadFails, chunk[j], Sweep(site.nodes, ctx.progress - p0, None));
      if failed {
        failedAt := Some(chunk[j]);
      } else if counted {
        ctx.progress := ctx.progress + 1;
      }
      j := j + 1;
    }
    SweepStopsAtFailure(nodes0, site.nextId, site.aliases, bookType, site.refused, loadFails, chunk, j);
    if failedAt.Some? {
      ctx.errors := ctx.errors + [LoadFailed(failedAt.value)];
    } else {
      ctx.message := Some(ProgressText(ctx.progress, ctx.max));
    }
    ctx.finished := if ctx.max > 0 then ctx.progress as real / ctx.max as real else 1.0;
  }

  /** The loop body for one verse of the chunk. */
  method AssignItem(site: Site, bookType: string, loadFails: set<nat>, v: nat, ghost r: Sweep) returns (failed: bool, counted: bool)
    requires site.Valid() && r.nodes == site.nodes && r.failed.None?
    modifies site
    ensures site.Valid()
    ensures site.nextId == old(site.nextId) && site.aliases == old(site.aliases)
    ensures site.links == old(site.links) && site.nextUuid == old(site.nextUuid)
    ensures !(failed && counted)
    ensures SweepItem(r, site.nextId, site.aliases, bookType, site.refused, loadFails, v)
      == Sweep(site.nodes, if counted then r.counted + 1 else r.counted, if failed then Some(v) else None)
  {
    if v in loadFails {
      return true, false;
    }
    if v !in site.nodes {
      return false, true;
    }
    var alias := PublishedAlias(site.aliases, NodePath(v));
    if alias.None? || FalsyString(alias.value) {
      return false, false;
    }
    LinkVerse(site, bookType, v, alias.value, r);
    return false, true;
  }

  /** The last step of `AssignItem`: a verse with a published alias gets the
      link `BatchLink` reads from it, if any; its book row is dropped first,
      so a refused save leaves it with none. */
  method LinkVerse(site: Site, bookType: string, v: nat, alias: string, ghost r: Sweep)
    requires site.Valid() && v in site.nodes && r.nodes == site.nodes
    modifies site
    ensures site.Valid()
    ensures site.nextId == old(site.nextId) && site.aliases == old(site.aliases)
    ensures site.links == old(site.links) && site.nextUuid == old(site.nextUuid)
    ensures var link := BatchLink(r.nodes, site.nextId, bookType, alias);
      site.nodes == if link.None? then r.nodes else r.nodes[v := r.nodes[v].(book := if v in site.refused then None else link)]
  {
    var verse := site.nodes[v];
    var link := BatchLink(site.nodes, site.nextId, bookType, alias);
    if link.Some? {
      site.DropBookRow(v);
      var _ := site.Save(v, verse.(book := link));
    }
  }

  /** One more item of the sweep. */
  lemma SweepStep(nodes: map<nat, Node>, hi: nat, rows: seq<PathAlias>, bookType: string,
                  refused: set<nat>, loadFails: set<nat>, chunk: seq<nat>, j: nat)
    requires j < |chunk|
    ensures var r := SweepOf(nodes, hi, rows, bookType, refused, loadFails, chunk[..j]);
      r.failed.None? ==>
        SweepOf(nodes, hi, rows, bookType, refused, loadFails, chunk[..j + 1]) == SweepItem(r, hi, rows, bookType, refused, loadFails, chunk[j])
  {
    assert chunk[..j + 1][..j] == chunk[..j];
  }

  /** Once the sweep has failed, later items change nothing. */
  lemma {:induction false} SweepStopsAtFailure(nodes: map<nat, Node>, hi: nat, rows: seq<PathAlias>, bookType: string,
                                               refused: set<nat>, loadFails: set<nat>, chunk: seq<nat>, j: nat)
    requires j <= |chunk|
    requires j < |chunk| ==> SweepOf(nodes, hi, rows, bookType, refused, loadFails, chunk[..j]).failed.Some?
    ensures SweepOf(nodes, hi, rows, bookType, refused, loadFails, chunk) == SweepOf(nodes, hi, rows, bookType, refused, loadFails, chunk[..j])
    decreases |chunk| - j
  {
    if j == |chunk| {
      assert chunk[..j] == chunk;
    } else {
      assert chunk[..j + 1][..j] == chunk[..j];
      SweepStopsAtFailure(nodes, hi, rows, bookType, refused, loadFails, chunk, j + 1);
    }
  }

  // ---------------------------------------------------------------------
  // What a chunk does

  /** The verse has a published alias that PHP reads as true. */
  predicate AliasTruthy(rows: seq<PathAlias>, v: nat)
  {
    var alias := PublishedAlias(rows, NodePath(v));
    alias.Some? && !FalsyString(alias.value)
  }

  /** A sweep counts each verse it gets through, changes nothing but the
      outline links of the chunk's verses, and fails only at a verse of the
      chunk whose load throws. */
  lemma {:induction false} SweepFacts(nodes: map<nat, Node>, hi: nat, rows: seq<PathAlias>, bookType: string,
                                      refused: set<nat>, loadFails: set<nat>, chunk: seq<nat>)
    ensures var r := SweepOf(nodes, hi, rows, bookType, refused, loadFails, chunk);
      && r.counted <= |chunk|
      && SameButBooks(nodes, r.nodes)
      && (forall id :: id in nodes && id !in chunk ==> r.nodes[id] == nodes[id])
      && (r.failed.Some? ==> r.failed.value in chunk && r.failed.value in loadFails)
  {
    if chunk != [] {
      var front := chunk[..|chunk| - 1];
      SweepFacts(nodes, hi, rows, bookType, refused, loadFails, front);
      assert forall id :: id in front ==> id in chunk;
    }
  }

  /** The sweep fails exactly when a verse of the chunk fails to load, and
      then at the first such verse. */
  lemma {:induction false} SweepFailsAtFirst(nodes: map<nat, Node>, hi: nat, rows: seq<PathAlias>, bookType: string,
                                             refused: set<nat>, loadFails: set<nat>, chunk: seq<nat>)
    ensures var r := SweepOf(nodes, hi, rows, bookType, refused, loadFails, chunk);
      && (r.failed.None? <==> forall k :: 0 <= k < |chunk| ==> chunk[k] !in loadFails)
      && (r.failed.Some? ==> exists k :: 0 <= k < |chunk| && chunk[k] == r.failed.value && forall j :: 0 <= j < k ==> chunk[j] !in loadFails)
  {
    if chunk != [] {
      var front := chunk[..|chunk| - 1];
      SweepFailsAtFirst(nodes, hi, rows, bookType, refused, loadFails, front);
      SweepLastFailure(nodes, hi, rows, bookType, refused, loadFails, chunk);
      var before := SweepOf(nodes, hi, rows, bookType, refused, loadFails, front).failed;
      var last := |chunk| - 1;
      assert forall k :: 0 <= k < |front| ==> chunk[k] == front[k];
      if before.Some? {
        var k :| 0 <= k < |front| && front[k] == before.value && forall j :: 0 <= j < k ==> front[j] !in loadFails;
        assert chunk[k] == before.value;
        assert !forall j :: 0 <= j < |front| ==> front[j] !in loadFails;
      } else if chunk[last] in loadFails {
        assert forall j :: 0 <= j < last ==> chunk[j] !in loadFails;
      }
    }
  }

  /** Whether, and where, a sweep fails is decided by its last item only
      when the sweep of the items before it did not fail. */
  lemma SweepLastFailure(nodes: map<nat, Node>, hi: nat, rows: seq<PathAlias>, bookType: string,
                         refused: set<nat>, loadFails: set<nat>, chunk: seq<nat>)
    requires chunk != []
    ensures var before := SweepOf(nodes, hi, rows, bookType, refused, loadFails, chunk[..|chunk| - 1]).failed;
      SweepOf(nodes, hi, rows, bookType, refused, loadFails, chunk).failed
      == if before.Some? then before else if chunk[|chunk| - 1] in loadFails then Some(chunk[|chunk| - 1]) else None
  {
  }

  /** Where every verse is either gone or has an alias and loads, the whole
      chunk is counted. */
  lemma {:induction false} SweepCountsAll(nodes: map<nat, Node>, hi: nat, rows: seq<PathAlias>, bookType: string,
                                          refused: set<nat>, loadFails: set<nat>, chunk: seq<nat>)
    requires forall k :: 0 <= k < |chunk| ==> chunk[k] !in loadFails && (chunk[k] in nodes ==> AliasTruthy(rows, chunk[k]))
    ensures var r := SweepOf(nodes, hi, rows, bookType, refused, loadFails, chunk);
      r.counted == |chunk| && r.failed.None?
  {
    if chunk != [] {
      var front := chunk[..|chunk| - 1];
      SweepCountsAll(nodes, hi, rows, bookType, refused, loadFails, front);
      SweepFacts(nodes, hi, rows, bookType, refused, loadFails, front);
    }
  }

  /** A chunk made only of verses that exist, load, and have no usable
      alias changes nothing and counts nothing: the batch stalls. */
  lemma {:induction false} AliasLessChunkStalls(nodes: map<nat, Node>, hi: nat, rows: seq<PathAlias>, bookType: string,
                                                refused: set<nat>, loadFails: set<nat>, chunk: seq<nat>)
    requires forall k :: 0 <= k < |chunk| ==> chunk[k] in nodes && chunk[k] !in loadFails && !AliasTruthy(rows, chunk[k])
    ensures SweepOf(nodes, hi, rows, bookType, refused, loadFails, chunk) == Sweep(nodes, 0, None)
  {
    if chunk != [] {
      AliasLessChunkStalls(nodes, hi, rows, bookType, refused, loadFails, chunk[..|chunk| - 1]);
    }
  }

  /** `progress` after one call that sweeps a chunk from `p`. */
  function Advance(nodes: map<nat, Node>, hi: nat, rows: seq<PathAlias>, bookType: string, refused: set<nat>,
                   loadFails: set<nat>, ids: seq<nat>, p: nat): nat
    requires p <= |ids|
  {
    p + SweepOf(nodes, hi, rows, bookType, refused, loadFails, Chunk(ids, p)).counted
  }

  /** Progress never passes the snapshot size. */
  lemma AdvanceBounded(nodes: map<nat, Node>, hi: nat, rows: seq<PathAlias>, bookType: string, refused: set<nat>,
                       loadFails: set<nat>, ids: seq<nat>, p: nat)
    requires p <= |ids|
    ensures p <= Advance(nodes, hi, rows, bookType, refused, loadFails, ids, p) <= |ids|
  {
    SweepFacts(nodes, hi, rows, bookType, refused, loadFails, Chunk(ids, p));
  }

  /** Every verse of the snapshot from `p` on counts. */
  ghost predicate AllCount(nodes: map<nat, Node>, rows: seq<PathAlias>, loadFails: set<nat>, ids: seq<nat>, p: nat)
  {
    forall k :: p <= k < |ids| ==> ids[k] !in loadFails && (ids[k] in nodes ==> AliasTruthy(rows, ids[k]))
  }

  /** With every verse counting, each call advances by a full chunk of 50,
      or to the end of the snapshot. */
  lemma FullChunk(nodes: map<nat, Node>, hi: nat, rows: seq<PathAlias>, bookType: string, refused: set<nat>,
                  loadFails: set<nat>, ids: seq<nat>, p: nat)
    requires p <= |ids| && AllCount(nodes, rows, loadFails, ids, p)
    ensures Advance(nodes, hi, rows, bookType, refused, loadFails, ids, p) == if p + ChunkSize <= |ids| then p + ChunkSize else |ids|
  {
    var chunk := Chunk(ids, p);
    assert forall k :: 0 <= k < |chunk| ==> chunk[k] == ids[p + k];
    SweepCountsAll(nodes, hi, rows, bookType, refused, loadFails, chunk);
  }

  /** A snapshot of 120 verses that all count is done in three calls, at
      progress 50, 100 and 120; a fourth finds an empty chunk. */
  lemma HundredTwentyVerses(n1: map<nat, Node>, n2: map<nat, Node>, n3: map<nat, Node>, hi: nat, rows: seq<PathAlias>,
                            bookType: string, refused: set<nat>, loadFails: set<nat>, ids: seq<nat>)
    requires |ids| == 120
    requires AllCount(n1, rows, loadFails, ids, 0) && AllCount(n2, rows, loadFails, ids, 50) && AllCount(n3, rows, loadFails, ids, 100)
    ensures Advance(n1, hi, rows, bookType, refused, loadFails, ids, 0) == 50
    ensures Advance(n2, hi, rows, bookType, refused, loadFails, ids, 50) == 100
    ensures Advance(n3, hi, rows, bookType, refused, loadFails, ids, 100) == 120
    ensures Chunk(ids, 120) == []
  {
    FullChunk(n1, hi, rows, bookType, refused, loadFails, ids, 0);
    FullChunk(n2, hi, rows, bookType, refused, loadFails, ids, 50);
    FullChunk(n3, hi, rows, bookType, refused, loadFails, ids, 100);
  }

  /** `finished` reaches 1 exactly when the whole snapshot is counted. */
  lemma FinishedIsOne(progress: nat, max: nat)
    requires progress <= max
    ensures Finished(progress, max) == 1.0 <==> progress == max
  {
    if max > 0 && Finished(progress, max) == 1.0 {
      assert progress as real == 1.0 * max as real;
    }
  }

  /** The link the batch path writes: the first chapter of `bookType` with
      the alias's chapter number, in whichever outline that chapter is,
      with the verse number as weight. */
  lemma BatchLinkFacts(nodes: map<nat, Node>, hi: nat, bookType: string, alias: string)
    ensures var num := ParseChapterFromAlias(alias, bookType);
      var l := BatchLink(nodes, hi, bookType, alias);
      && (l.Some? <==> num.Some? && num.value != 0 && exists c: nat :: c < hi && IsChapter(nodes, c, bookType, num.value))
      && (l.Some? ==>
            && IsChapter(nodes, l.value.pid, bookType, num.value)
            && (forall c: nat :: c < l.value.pid ==> !IsChapter(nodes, c, bookType, num.value))
            && l.value == BookLink(BidOf(nodes[l.value.pid]), l.value.pid, false, ParseVerseFromAlias(alias)))
  {
    var num := ParseChapterFromAlias(alias, bookType);
    if num.Some? && num.value != 0 {
      var c := FindChapter(nodes, hi, bookType, num.value);
      if c.Some? {
        assert c.value < hi;
      }
    }
  }

  /** For the single-level book the batch path and `assignVersesToChapters`
      pick the same chapter. */
  lemma BatchAgreesOnBg(nodes: map<nat, Node>, hi: nat, alias: string)
    ensures var c := ChapterOf(nodes, hi, "bg", alias);
      BatchLink(nodes, hi, "bg", alias)
        == if c.None? then None else Some(BookLink(BidOf(nodes[c.value]), c.value, false, ParseVerseFromAlias(alias)))
  {
  }
}
