# Shloka book structure, modelled in Dafny

The shloka Drupal module keeps three scripture books as Drupal book outlines:

- Bhagavad-gita (`bg`) is one level deep: book, then chapters, then verses.
- Srimad-Bhagavatam (`sb`) has an extra level of songs: book, songs, chapters, verses.
- Chaitanya-charitamrita (`cc`) has an extra level of lilas: book, lilas, chapters, verses.

The module builds this skeleton from the site settings. It resolves a verse to its
chapter from the verse's URL alias (`/books/sb/1/2/13-14`), links verses into the
outline, tears the structure down, and mirrors outlines into a navigation menu. The
admin form runs these steps as Batch API operations. A chapter page lists the
chapter's verses in weight order.

This project models that core in ten modules.

- `Base`: `Option`, translatable `Text`, PHP truthiness of strings (`FalsyString`),
  and decimal text with its `(int)` reading.
- `Slugs` and `SlugFacts`: the alias grammar. The PCRE patterns are written out as
  leftmost-match functions with greedy runs, and `$` also matches before a final
  newline. `SlugFacts` proves round trips: an alias built by the skeleton builder
  parses back to the numbers it was built from.
- `Content`: the content store as a `Site` class. It holds nodes (a map by id),
  path-alias rows, menu links, and the next id and uuid. It also gives entity
  queries and alias lookups over value snapshots.
- `Resolver`: `findChapter`, `findSbChapter` and `findCcChapter`.
- `Builder`: `createChapters`, `createSongs` and `createLilas`. Each computes a plan
  (the nodes and aliases to create, in order) and is proved to carry it out, or to
  fail before touching the store.
- `Assigner`: `assignVersesToChapters` and `deleteStructure`, as loops over the
  store, proved against `Assigned` and `DeleteResult`.
- `MenuSync`: `syncWithMenutree` and the recursive `createMenuLinksFromBookTree`.
- `Batch`: the Batch API callbacks of `BookStructureBatch`, over a `BatchContext`
  class that stands for `$context`.
- `Renderer`: `getChapterVerses`, `parseVerseRange`, `loadVerseRange` and
  `extractChildNids` of `ChapterRenderer`.

Entity queries without a sort have no defined order. Here a query returns ids in
ascending order, so "the first match" is the match with the least id. Exceptions
thrown by storage are modelled in two ways:

- a save the store refuses, given by a `refused` set of node ids;
- a node load that throws during a batch sweep, given by a `loadFails` parameter.

Failures are values of `Failure`, and an operation's result is `Outcome`.

## Model

| member | source | states |
|---|---|---|
| Base.DecimalRoundTrip | BookStructureManager.php:113 | reading the decimal text of `n` back with `(int)` gives `n`; this is what makes an alias built from a number parse back to it |
| Base.DecimalTruthy | BookStructureBatch.php:128 | the decimal text of a positive number is never a falsy PHP string |
| Slugs.Leftmost | BookStructureManager.php:547-563 | `preg_match` semantics: the hit is at the leftmost position where the pattern matches, nothing matches before it, and `None` means nothing matches anywhere |
| Slugs.ParseChapterFromAlias | BookStructureManager.php:546-564 | an unknown book type gives null; otherwise a number is returned exactly when the type's chapter pattern matches at some position of the alias |
| Slugs.ParseSongFromAlias | BookStructureManager.php:569-574 | a song number is returned exactly when `/books/sb/<digits>/` occurs in the alias |
| Slugs.ParseLilaFromAlias | BookStructureManager.php:579-584 | a lila name is returned exactly when `/books/cc/<segment>/` occurs; the name is non-empty and contains no `/` |
| Slugs.ParseVerseFromAlias | BookStructureManager.php:589-595 | with no `/<digits>[-<digits>]` at the end of the alias the verse number is 0 |
| Slugs.VerseTailIsLastSegment | BookStructureManager.php:590 | a verse tail that matches contains no `/` after its leading one, so it is the alias's last path segment |
| Slugs.PhpRange | ChapterRenderer.php:188 | PHP `range(a, b)`: `|a-b|+1` values stepping by one from `a` toward `b`, descending when `a > b` |
| Slugs.ParseVerseRange | ChapterRenderer.php:185-197 | an alias whose end is not `/<digits>` or `/<digits>-<digits>` gives the empty range |
| Slugs.NodeIdOfPath | ChapterRenderer.php:220 | a node id is read exactly when `node/<digits>` occurs in the path |
| SlugFacts.BgChapterRoundTrip | BookStructureManager.php:548-551 | the chapter number of a verse alias under `/books/bg/<c>` is `c` |
| SlugFacts.SbChapterRoundTrip | BookStructureManager.php:552-556 | a verse alias under `/books/sb/<s>/<c>` gives chapter `c` and song `s` |
| SlugFacts.CcChapterRoundTrip | BookStructureManager.php:557-561 | a verse alias under `/books/cc/<lila>/<c>` gives chapter `c` and that lila name |
| SlugFacts.BgChapterAliasHasNoChapter | BookStructureManager.php:549 | the alias of a bg chapter itself (`/books/bg/<c>`, no trailing slash) yields no chapter number |
| SlugFacts.VerseNumberRoundTrip | BookStructureManager.php:589-595 | an alias ending in `/<n>` or `/<n>-<m>` yields verse number `n`, whatever comes before |
| SlugFacts.BasePathRoundTrip | ChapterRenderer.php:212 | stripping the verse tail from `pre/<n>[-<m>]` leaves exactly `pre` |
| SlugFacts.VerseRangeRoundTrip | ChapterRenderer.php:185-197 | `pre/<n>-<m>` gives `range(n, m)` and `pre/<n>` gives `[n]` |
| SlugFacts.NodePathRoundTrip | ChapterRenderer.php:220 | the node id read from `/node/<nid>` is `nid` |
| SlugFacts.TailIsLeftmost | BookStructureManager.php:590 | a verse tail written at the end of any prefix is the leftmost match of the verse pattern |
| SlugFacts.ExampleChapterOfVerse | BookStructureManager.php:549-550 | `/books/bg/2/13` is a verse of chapter 2 |
| SlugFacts.ExampleChapterAliasIsNotAVerse | BookStructureManager.php:549 | `/books/bg/2` yields no chapter |
| SlugFacts.ExampleChapterZero | BookStructureManager.php:549-550 | `/books/bg/0/5` yields chapter 0, which callers then treat as none |
| SlugFacts.ExampleVerseOfCompound | BookStructureManager.php:590-591 | the compound verse `/books/bg/2/13-14` has number 13 |
| SlugFacts.ExampleCompoundRange | ChapterRenderer.php:187-188 | `/books/bg/2/13-14` expands to `[13, 14]` |
| SlugFacts.ExampleSingleRange | ChapterRenderer.php:192-193 | `/books/bg/2/7` expands to `[7]` |
| SlugFacts.ExampleEmptyRange | ChapterRenderer.php:196 | an alias ending in `/` expands to nothing |
| Content.Query | BookStructureManager.php:283-286 | an entity query returns, in ascending order, exactly the ids below the next free id that meet its conditions |
| Content.First | BookStructureManager.php:603-612 | `range(0, 1)`: the least id meeting the conditions, or none when no id does |
| Content.QueryIgnoresBooks | BookStructureManager.php:603-607 | queries read bundle, number, status and references, so changing outline links never changes their result |
| Content.PublishedAlias | BookStructureManager.php:292-297 | the published alias row for a path is found exactly when one exists, and what is returned is one of them |
| Content.AliasByPath | ChapterRenderer.php:211 | `getAliasByPath` returns the alias of the most recent published row for the path. It returns the path itself when there is no such row, and any other result is a published alias of the path |
| Content.PathByAlias | ChapterRenderer.php:218 | `getPathByAlias` returns the path of the most recent published row with that alias. It returns the alias itself when there is no such row, and any other result is the path of a published row with the alias |
| Content.WithAlias | BookStructureManager.php:525-541 | creating an alias makes it taken; an alias that is already taken leaves the table unchanged, and otherwise one published row for `/node/<nid>` is appended |
| Content.LinkFor | BookStructureManager.php:487-490 | the first menu link of the menu for the node, or none exactly when the menu has no link to it |
| Content.Failure.Message | BookStructureManager.php:76-85 | the configuration failures carry a message for the user; storage failures do not |
| Content.Site.Create | BookStructureManager.php:90-110 | a created node gets the next id, which no existing node has; nothing else changes |
| Content.Site.Save | BookStructureManager.php:431 | a save succeeds unless the store refuses that node, and then the node is replaced |
| Content.Site.DropBookRow | BookStructureBatch.php:144-146 | the verse's `book` row is deleted and nothing else changes |
| Content.Site.DeleteAll | BookStructureManager.php:393-396 | the listed nodes are removed and nothing else changes |
| Content.Site.CreatePathAlias | BookStructureManager.php:525-541 | the alias table becomes `WithAlias` of the old one; nodes and menu links are unchanged |
| Content.Site.CreateLink | BookStructureManager.php:493-502 | one link with a fresh uuid is appended, carrying the given title, node, menu, parent, weight and expanded flag |
| Resolver.FindChapter | BookStructureManager.php:600-615 | the least id of a `<type>_chapter` with that number; null exactly when no such chapter exists |
| Resolver.FindSbChapter | BookStructureManager.php:620-651 | null when no song has the number; a hit lies below the id bound and is an `sb_chapter` with the number whose song reference is the first song with the song number, with no lower such chapter under that song; and whenever such a chapter exists under the first song, the lookup finds one at or below it |
| Resolver.LilaOrdinal | BookStructureManager.php:660-666 | a name has a lila number exactly when it is `adi`, `madhya` or `antya`, and the number lies in 1..3 |
| Resolver.FindCcChapter | BookStructureManager.php:656-699 | an unknown lila name, or no lila with its number, gives null; a hit is a `cc_chapter` with the number whose lila reference is the first such lila, with no lower such chapter under that lila; for a known name, whenever such a chapter exists under the first lila, the lookup finds one at or below it |
| Resolver.FirstDivisionUnique | BookStructureManager.php:625-634 | the song (or lila) the lookups pick, the least id of its bundle and number, is unique |
| Resolver.SbChapterFound | BookStructureManager.php:620-651 | when `c` is the least chapter with the number under the first song with the song number, `findSbChapter` returns exactly `c` |
| Resolver.CcChapterFound | BookStructureManager.php:656-699 | for a name in the lila map, when `c` is the least chapter with the number under the first lila with that name's number, `findCcChapter` returns exactly `c` |
| Resolver.FindChapterIgnoresBooks | BookStructureManager.php:600-615 | outline links do not affect `findChapter` |
| Resolver.FindSbChapterIgnoresBooks | BookStructureManager.php:620-651 | outline links do not affect `findSbChapter` |
| Resolver.FindCcChapterIgnoresBooks | BookStructureManager.php:656-699 | outline links do not affect `findCcChapter` |
| Builder.MainBookCheck | BookStructureManager.php:76-85 | the book may be built exactly when `main_book_nid` is set and the node loads; a refusal carries a message |
| Builder.BookId | BookStructureManager.php:104 | `bid` is the main book's own outline `bid` whenever it has an outline (`??` keeps even 0), and the main book's id only when it has none |
| Builder.ChapterCount | BookStructureManager.php:87-89 | the chapter count is the form's value if given, else the settings' value, else 0; a negative count creates nothing |
| Builder.ChaptersPlan | BookStructureManager.php:72-121 | the main-book checks come first, with their two failures; a plan that builds has one item per chapter |
| Builder.CreateChapters | BookStructureManager.php:72-121 | the store ends exactly as the plan says: refused with no change, or its items created under consecutive ids with their aliases, and menu links untouched |
| Builder.BuiltChapterIsFound | BookStructureManager.php:89-114 | after building `n` chapters into a store without chapters of that type, `findChapter(i)` returns the `i`-th created node |
| Builder.ChaptersRerun | BookStructureManager.php:525-541 | running `createChapters` again adds no alias row, because every alias it would create is already taken, and it plans as many chapters |
| Builder.SongList | BookStructureManager.php:140-145 | twelve songs numbered 1..12, with their numbers as slugs |
| Builder.LilaTablesAgree | BookStructureManager.php:213-217 | the lilas that `createLilas` builds are exactly the ones `findCcChapter`'s name map knows, with the same numbers |
| Builder.CountOf | BookStructureManager.php:164 | a division missing from the `chapters` table gets 0 chapters, otherwise its configured count |
| Builder.DivisionsPlan | BookStructureManager.php:126-138 | a divided book is refused exactly when the main book is not configured or does not load, and otherwise always builds |
| Builder.CreateSongs | BookStructureManager.php:126-194 | the store ends as the songs' plan says: each song, then its chapters referring to it, with their aliases |
| Builder.CreateLilas | BookStructureManager.php:199-273 | the store ends as the lilas' plan says: each lila, then its chapters referring to it, with their aliases |
| Builder.BuildDivisions | BookStructureManager.php:140-187 | the outer loop over divisions creates exactly the planned items, in order |
| Builder.BuildDivisionChapters | BookStructureManager.php:164-187 | the inner loop creates one chapter per configured count under the division, with aliases |
| Builder.OwnerOf | BookStructureManager.php:140-187 | every position of a divided book's plan lies in the block (the division and its chapters) of exactly one division, between its offset and its offset plus its chapter count |
| Builder.DivisionItemsLength | BookStructureManager.php:140-187 | the plan of the first `n` divisions has one item per division plus one per configured chapter |
| Builder.DivisionItemAt | BookStructureManager.php:140-161 | division `k` is created at its block's offset: its bundle, number, title, published, under the main book with weight its number, with the alias `/books/<type>/<name>` |
| Builder.DivisionChapterItemAt | BookStructureManager.php:163-186 | chapter `j` of division `k` is created `j` places after it: numbered and weighted `j`, under the division's id and referring to it through the song or lila reference, with the alias `/books/<type>/<name>/<j>` |
| Builder.BuiltIsLaidOut | BookStructureManager.php:140-187 | after a divided build every old node is kept and every new id holds the node the plan puts at that position |
| Builder.BuiltDivisionChapterIsFirst | BookStructureManager.php:140-187 | in a built store, division `q` is the first node of its bundle and number, and chapter `j` under it is the first chapter `j` referring to it |
| Builder.NothingEarlierMatches | BookStructureManager.php:140-187 | no id below chapter `j` of division `q` is another division of that number (before the division) or another chapter `j` of it |
| Builder.BuiltSongChapterIsFound | BookStructureManager.php:140-187 | building the songs into a store without songs or song chapters puts chapter `j` of song `i` exactly where `findSbChapter(i, j)` then finds it |
| Builder.SongsNumbered | BookStructureManager.php:140-145 | `createSongs` builds twelve songs numbered 1..12 in order, so the lemma above applies to it |
| Builder.BuiltLilaChapterIsFound | BookStructureManager.php:213-266 | building the lilas into a store without lilas or lila chapters puts chapter `j` of each lila exactly where `findCcChapter(<its name>, j)` then finds it |
| Builder.LilasNumbered | BookStructureManager.php:213-217 | `createLilas` builds three lilas numbered 1..3 in order whose names the lookup maps to those numbers, so the lemma above applies to it |
| Builder.RerunAddsNoAliases | BookStructureManager.php:529-533 | a second run over items with the same aliases adds no alias row |
| Assigner.ChapterOfFacts | BookStructureManager.php:299-340 | the chapter a verse resolves to: none when the alias has no chapter number or the number is 0; a hit lies below the id bound and is a chapter with that number, under the first song with the alias's song number for sb and under the first lila with its lila's number for cc. Conversely, whenever such a chapter exists the lookup finds one at or below it |
| Assigner.TargetFacts | BookStructureManager.php:290-370 | a verse is relinked exactly when it has a truthy published alias and its chapter resolves; the new link is under that chapter, in the chapter's book, with no children, weighted by the verse number |
| Assigner.AssignVersesToChapters | BookStructureManager.php:278-379 | the loop over all verses of the type leaves the store equal to `Assigned` of the old one; aliases and menu links are unchanged |
| Assigner.Assigned | BookStructureManager.php:290-370 | only verses' outline links change; every other node stays as it was |
| Assigner.AssignedLinks | BookStructureManager.php:299-370 | per verse: no alias, a falsy alias, no chapter number or no chapter found leaves its link; a resolved chapter gives the new link, or none when the save is refused after the old row was dropped |
| Assigner.AssignIdempotent | BookStructureManager.php:278-379 | assigning twice gives the same store as assigning once |
| Assigner.ChapterIsNoVerse | BookStructureManager.php:600-699 | a verse never resolves to a node of its own type |
| Assigner.ResolveChapter | BookStructureManager.php:310-340 | picks `findChapter`, `findSbChapter` or `findCcChapter` by book type, and gives the chapter `ChapterOf` names |
| Assigner.FirstRefused | BookStructureManager.php:429-432 | the position of the first verse whose save is refused, or the end |
| Assigner.DeleteStructure | BookStructureManager.php:384-435 | the store ends as `DeleteResult` says: structure deleted, verses unlinked in id order up to the first refused save, which throws |
| Assigner.RemoveStructure | BookStructureManager.php:387-420 | chapters go first, then songs for sb or lilas for cc; the store ends without those bundles |
| Assigner.DeleteKeepsContent | BookStructureManager.php:384-435 | after delete the store has every node except the book type's structure, and nodes other than its verses are untouched |
| Assigner.DeleteStopsAtFirstRefusal | BookStructureManager.php:429-432 | delete passes exactly when no verse save is refused; otherwise it fails at the least refused verse |
| Assigner.DeleteClearsUpToStop | BookStructureManager.php:429-432 | verses before the stop lose their outline link; verses from the stop on keep theirs |
| Assigner.AssignAfterDelete | BookStructureManager.php:278-435 | assignment after a delete changes nothing, because no chapter is left to resolve to |
| Assigner.VersesAreNotStructural | BookStructureManager.php:387-420 | delete never removes the verses themselves |
| MenuSync.ReachIsLive | BookStructureManager.php:477-484 | every node the walk reaches has a non-empty nid and loads |
| MenuSync.CreateMenuLinksFromBookTree | BookStructureManager.php:473-513 | links are only appended, and only to the menu; afterwards every reached node has a link in the menu and no node has two new ones. Each new link carries its node's title and the shape of a reached item: its nid, weight (`?? 0`) and expanded flag, with parent `parent` at the top level and, below it, the uuid of the menu's link to the item's tree parent. When every reached node already had a link, nothing changes |
| MenuSync.LinkItem | BookStructureManager.php:476-511 | one item: its node and everything reached below it end up in the menu; its own link has its shape under `parent`, and its children's new links hang under the uuid of the menu's link to the item |
| MenuSync.LinkNode | BookStructureManager.php:486-506 | when the menu already links the node, nothing changes; otherwise exactly one link is appended: the node's title, nid, the menu, parent `parent`, weight `?? 0`, expanded when it has children. Either way the returned uuid is that of the menu's link to the node |
| MenuSync.FreshKeepsUnique | BookStructureManager.php:487-492 | since links are only created for nodes without one, a menu with one link per node keeps one link per node |
| MenuSync.UuidStable | BookStructureManager.php:493-509 | appending links never changes the link the lookup finds for a node already linked, so the uuid children were hung under stays that of their parent's link |
| MenuSync.ShapesStable | BookStructureManager.php:473-513 | the shapes a finished walk stands for do not change as later items append links |
| MenuSync.SyncShapesStable | BookStructureManager.php:440-468 | the shapes of the books already synced do not change as later books append links |
| MenuSync.LinkedIsFound | BookStructureManager.php:487-490 | a node with a link in the menu is found by the existence check |
| MenuSync.SyncWithMenutree | BookStructureManager.php:440-468 | for `bg`, `sb` and `cc` in turn, a book whose main book is configured, loads and has a `bid` has its tree mirrored with no parent at the top level; every new link has the shape and title of a reached item of one of the three trees, under its tree parent's link |
| Batch.BatchContext.Settle | BookStructureBatch.php:16-31 | ensures `Settled`: on first call the sandbox is set to 0 of 1, otherwise `max` is kept. Success sets progress to 1 and the message; failure appends the error and keeps the progress and the message. The verse snapshot is kept, and `finished` is progress over max, so a fresh operation is finished exactly when it succeeded |
| Batch.CreateChaptersOp | BookStructureBatch.php:13-32 | runs `createChapters` with its full effect on the store. The context is left exactly as `Settled` describes, with the chapters message: progress, max, errors, message (kept on failure), verse snapshot and `finished == progress / max` |
| Batch.CreateSongsOp | BookStructureBatch.php:37-56 | runs `createSongs` with its full effect on the store. The context is left exactly as `Settled` describes, with the songs message |
| Batch.CreateLilasOp | BookStructureBatch.php:61-80 | runs `createLilas` with its full effect on the store. The context is left exactly as `Settled` describes, with the lilas message |
| Batch.DeleteStructureOp | BookStructureBatch.php:193-212 | runs `deleteStructure` and leaves node ids, uuids, aliases and menu links alone. The context is left exactly as `Settled` describes, with the deletion message |
| Batch.Chunk | BookStructureBatch.php:102-107 | `array_slice` of at most 50 ids from the current progress, in order |
| Batch.AssignVersesStep | BookStructureBatch.php:85-188 | the first call snapshots all verse ids of the type. An empty chunk only sets `finished` to 1. Otherwise the chunk is swept: the store becomes the sweep's, progress grows by the verses counted, and a throwing load appends an error and keeps the old message. `finished` is progress over max |
| Batch.SweepChunk | BookStructureBatch.php:114-183 | the loop over one chunk: state as the sweep function says, stopping at the first load that throws |
| Batch.AssignItem | BookStructureBatch.php:117-172 | one verse: a throwing load, a deleted verse (counted), no alias (skipped, not counted), no chapter (counted), or drop row and save the new link (counted) |
| Batch.LinkVerse | BookStructureBatch.php:133-167 | a verse whose alias yields a chapter link has its `book` row dropped and the link saved; a refused save leaves it with no outline link, and no link leaves the store unchanged |
| Batch.SweepFacts | BookStructureBatch.php:114-183 | a sweep counts at most the chunk, changes only outline links of verses in the chunk, and fails only at a chunk verse whose load throws |
| Batch.SweepFailsAtFirst | BookStructureBatch.php:114-183 | a sweep fails exactly when some chunk verse's load throws, and then at the first such verse |
| Batch.SweepCountsAll | BookStructureBatch.php:116-173 | when no load throws and every live verse has a truthy alias, the whole chunk is counted |
| Batch.AliasLessChunkStalls | BookStructureBatch.php:128-131 | a chunk of verses without aliases counts nothing and changes nothing, so the next call slices the same chunk and the batch never finishes |
| Batch.AdvanceBounded | BookStructureBatch.php:103-172 | progress after a call never goes back and never passes max |
| Batch.FullChunk | BookStructureBatch.php:102-172 | when every verse counts, a call advances by 50, or to the end |
| Batch.HundredTwentyVerses | BookStructureBatch.php:102-112 | 120 countable verses take calls ending at 50, 100 and 120, and then an empty chunk |
| Batch.FinishedIsOne | BookStructureBatch.php:185-187 | an assign call reports finished exactly when progress has reached max |
| Batch.BatchLinkFacts | BookStructureBatch.php:133-158 | the batch links a verse exactly when its alias has a non-zero chapter number and a `<type>_chapter` with it exists; the link is under the first such chapter, whatever the song or lila |
| Batch.BatchAgreesOnBg | BookStructureBatch.php:217-266 | for `bg` the batch's own parse and lookup link a verse exactly as `assignVersesToChapters` does |
| Renderer.StripChapterBundle | ChapterRenderer.php:56 | `str_replace('_chapter', '')` on a chapter bundle gives back its book type |
| Renderer.GetChapterVerses | ChapterRenderer.php:52-87 | a verse is listed exactly when it is the last-loaded published verse of the type under the chapter for its weight; the list is in strictly ascending weight |
| Renderer.FileByWeight | ChapterRenderer.php:74-81 | `$chapter_verses[$weight] = $verse`: each weight maps to the last verse of the chapter with it, and the recorded keys are exactly the map's keys, none twice |
| Renderer.ByAscendingKey | ChapterRenderer.php:84-86 | `ksort` then `array_values`: one value per key of the map, every key used once, in strictly ascending key order |
| Renderer.LoadVerseRange | ChapterRenderer.php:202-229 | a range of at most one verse gives the base verse. Otherwise the result is the verses whose aliases `base/<n>` exist and have the base's type, in range order, or the base verse when none do. The result is never empty |
| Renderer.RangeHitsFacts | ChapterRenderer.php:216-226 | at most one verse per range number, each of the base's type and found through its alias |
| Renderer.RangeMemberOfAlias | ChapterRenderer.php:217-224 | when the most recent published row for the alias `base/<n>` points at a node of the type, that node is the one found for `n` |
| Renderer.ExtractChildNids | ChapterRenderer.php:234-267 | the result is exactly `Search`: items in order; the first top-level item that is the parent with children contributes its children's preorder and ends the loop (the `break`); each item before it contributes what the search finds in its subtree |
| Renderer.SearchAtFirstMatch | ChapterRenderer.php:238-255 | at the first top-level match the result is what the earlier subtrees gave, followed by the match's children's preorder |
| Renderer.SearchStops | ChapterRenderer.php:254 | once the loop has reached a match, the items after it add nothing |
| Renderer.SearchFacts | ChapterRenderer.php:234-267 | everything returned is a loaded node that is no chapter, song or lila and occurs in the tree; a tree with no parent item (with children) at any depth gives nothing |
| Renderer.SearchFindsChildren | ChapterRenderer.php:238-247 | every kept child of the first top-level match is returned |
| Renderer.ChildNids | ChapterRenderer.php:239-253 | the result is exactly `KeptPreorder` of the matched item's children: for each child with a nid in order, the child when it loads and is no chapter, song or lila, then what is kept below it |
| Renderer.SearchOwnItem | ChapterRenderer.php:249-251 | the recursive call `extractChildNids([$child], <its nid>)` collects exactly the child's own children's preorder |
| Renderer.KeptPreorderFacts | ChapterRenderer.php:239-253 | everything the children loop collects is kept and occurs below the item, and every kept child is collected |

## Left out

- Translation and logging. `t()` is kept as an untranslated `Text` with its arguments, and logger calls are dropped.
- SQL and entity APIs are abstracted. Access checks and languages are not modelled. Which alias row `fetchField` returns is modelled as the first published row.
- Query order is not modelled. Unsorted entity queries are taken in ascending id order, so "first" means the least id.
- Node titles are opaque: chapter, song and lila titles are `Text` values and are never rendered.
- Book module hooks are not modelled: deleting a node does not touch other nodes' outline links.
- Exceptions are not modelled in general. Only two failures are: the `refused` set of nodes whose save throws, and the `loadFails` set of verses whose load throws in a batch sweep. Exception messages become `Failure` values.
- A failed delete of a verse's `book` row is always caught and ignored, both in `assignVersesToChapters` (BookStructureManager.php:340-347) and in the batch's verse sweep (BookStructureBatch.php:143-150), so it is not modelled.
- Book tree: `bookTreeAllData` is not modelled. The trees are a parameter keyed by `bid`, and a main book without an outline counts as `bid` 0.
- The batch engine itself is not modelled. Which callback runs next, and how often, is up to the host.
- Batch.BatchContext.Settle: `finished` is an exact rational, not a PHP float.
- Assigner.BidOf: a chapter without an outline has a null `bid` in PHP (BookStructureManager.php:351, BookStructureBatch.php:154). The model stores 0 in its place. Node ids are positive (`Site.Valid`), so 0 never names a real book.
- Batch.AssignVersesStep: `finished` is an exact rational, not a PHP float.
- Numbers are unbounded, and chapter counts past `PHP_INT_MAX` are ignored.
- Renderer.GetChapterVerses: a verse's outline weight is always present, so the `isset` default of 0 is never taken.
- The batch's private `parseChapterFromAlias`, `parseVerseFromAlias` and `findChapter` (BookStructureBatch.php:217-266) have the same text as the manager's. The model reuses `Slugs` and `Resolver` for them.
- `renderVerses` and `renderSingleVerse` (ChapterRenderer.php:92-180) produce markup, and are not part of this model.
- `ShlokaAdminForm.php` only builds the admin form and queues the batch operations, and is not part of this model.
- The `getChapterTitle` helper is not modelled. Its title is kept as an untranslated `Text`.
