# winter: a verified model of the storage engine

This project models the embedded storage engine in C (`src/btree.c`, `src/pager.c`,
`src/latch.c`, `src/varint.c`, `src/blob.c`) and proves what its parts promise each
other. `dafny verify dfyconfig.toml` checks all of it.

| files | what they are about |
|---|---|
| `Common.dfy` | an option type and a fact about sets |
| `Varint.dfy`, `Blob.dfy` | the codecs, on byte arrays, against reference encodings |
| `Cells.dfy`, `PageLayout.dfy`, `SlottedPage.dfy` | a page: what its bytes mean, and the in-place operations on the byte array |
| `TreeInvariant.dfy`, `TreeSteps.dfy`, `TreeWalk.dfy` | when a heap of pages that refer to each other by id is a B+-tree, what splits and inserts do to it, how walks go through it |
| `TreeFate.dfy`, `TreeSearch.dfy`, `PageCount.dfy` | told from the pages alone: what is ahead of an insertion, what a lookup answers, and how many pages a number of rows can take |
| `BTree.dfy`, `Table.dfy`, `AsWritten.dfy` | the tree over page objects, table insert and lookup, whole runs; inputs for which the C code does less than it means to |
| `LatchWord.dfy`, `Latch.dfy` | the readers-writer latch: compare-and-swap loops of any number of threads |
| `PagerSteps.dfy`, `PagerInvariant.dfy`, `PagerSafety.dfy`, `PagerInduction.dfy`, `PagerRuns.dfy` | the pager as a step relation over any number of threads, one atomic operation a step, with an inductive invariant and what follows for every run |
| `PagerCalls.dfy` | what a call of `pager_fix` comes to, whatever the interleaving |
| `Directory.dfy` | one entry of the hash directory, with its chain of buckets |
| `Clock.dfy` | the pager in one thread: what its loops over the ring find, and one call of fix, unfix and evict as a function |
| `PagerAlone.dfy`, `PagerEnds.dfy` | the steps of a thread that nobody interferes with refine those functions, and come to an end |

## How the layers meet

A page is a byte array. `Layout(bytes, node)` says that the bytes stand for a list of
cells and a `right` id; it determines the node. The operations on pages are proved to
act on the node as an insertion at an index, the identity (compaction) and a cut in
two. `Tight` adds that there are no holes; every page that the tree produces is tight,
so insertion never compacts, and the pointer that `page_insert_inner` keeps across it
stays good.

The tree keeps a map from ids to page objects. In the proofs every page has a fence:
its level and the half-open range of keys (lo, hi] that it answers for. `TreeOk` is
local to each page and its links, and adds only that pages of one level have disjoint
ranges. `Represents` says that the leaves hold exactly the bindings of a map.

The concurrent pager takes a latch in the one step in which the compare-and-swap of
`Latch` succeeds (`Latch.StepKeeps` proves that the loops look like that to a user),
and reads or writes what a latch protects in one step. Its directory is a map, which
is what `Directory.HashEntry` proves one entry to be, for the calls that
`PagerRuns.DirectoryCalls` proves to be the only ones.

`Clock.AfterFix` and `Clock.AfterUnfix` are one call each as a function of the pager. The
methods of `Clock.Pager` compute them, and `PagerAlone.FixAlone` and
`PagerAlone.UnfixAlone` prove that the steps of a thread alone do so too, wherever other
threads have stopped. While nobody is in the middle of a call the pager is as `Clock`
requires (`PagerEnds.QuietPager`).

`TreeFate.FromRoot` foretells an insertion from the pages as they are: whether the key is
added fresh, found, or added a second time, whether an assertion on line 240 or 339
fails or a page with fewer than two cells is split, and how many new pages are asked for
until then. `BTree.BTree.Insert` proves that the insertion answers just that, for any page
size and any rows, and what it leaves in the pages, in the map and in the page latches.
`TreeSearch.Search` says what lookups answer, also where some page stays latched or the
heap is no tree any more; `BTree.BTree.LookupIn` proves that the bytes answer so.

`PageCount.PagesForRows` bounds the pages of a tree by its rows, so `Table.Run` can say
how many pages are enough for a run to come to its end. The tree takes its pages from a
pager below its capacity; `Clock.ServeNext`, `Clock.ServeFix` and `Clock.ServeUnfix` run
its three requests on the pager itself.

## Where the text and its intent differ

A tree is made with three switches (`TreeFate.Repairs`): routing, guards and cleanup are
each as written or as meant, and everything is proved for all settings. The other places
are modelled as meant, and a lemma says for which inputs the text is right.

* `src/varint.c:13` steps `--i`. `Varint.Put` is the text, `Varint.PutRepaired` is
  what is meant; they agree on the bytes for values below 2^56, and the text is right
  for no other value (`Varint.WrittenRoundTripIff`). Tables use the repaired one.
* `src/btree.c:19` narrows a 64-bit difference to an int. A window of keys compares
  right exactly if it has at most 2^31 keys (`Cells.CompareExactIff`); a tree has such
  a window.
* `src/btree.c:226` subtracts from the page size and not from `data_start`. The model
  computes what line 325 computes; `PageLayout.WrittenFreeSpaceIff` says when both agree
  and `PageLayout.WrittenFreeSpaceSign` when the text states too much or too little.
* Guards, `src/btree.c:362` and `398`: they leave out the slot of 2 bytes, and on inner
  pages measure the inserted key and not the key that will be added. As meant they ask for
  the entry with its slot in a leaf, and for the longest separator with its slot in an
  inner page. With either guard the insertion fails line 240 exactly if that is foreseen;
  with the guards as meant and rows of like cost it never is (`TreeFate.NeverTrips`), and
  with the text the 39th row of 22 bytes on a page of 1024 is (`AsWritten.RowThirtyNine`).
* `src/btree.c:339` asserts that an inner page has room for the inserted key. The guards
  see to it for a page that is entered whole, but nothing does for the half of a page that
  was split just before. From 102 bytes a page on either half has that room, whatever the
  guard and the rows (`TreeFate.InnerAdmits`); on a page of 41 bytes the assertion fails
  with each of the three switches in each place (`AsWritten.HalfWithoutRoom`).
* Routing, `src/btree.c:371` and `427`: a key that equals the split key is sent to the
  right, although separators are inclusive on the left. As meant it goes to the left. As
  written a stored key is added a second time, exactly if the walk splits a page at it
  and finds room; the insertion answers success, and no lookup ever sees the row
  (`TreeSearch.TwiceIsUnseen`).
* Cleanup of errors. Line 395 unfixes the root once more for every error after line 435,
  where lines 343 or 436 have unfixed it: the assertion of `latch_release_read` fails on
  every EEXIST, and on an ENOMEM in the walk. It does so after a success too if an error
  of an earlier call has not been cleared. The child that is fixed on line 358 and, if
  the second page is lacking, the one made on line 401 are never unfixed. As meant line
  395 is for the errors before line 435 alone, and every page is unfixed once.
  `BTree.BTree.Insert` says for each outcome which page is off; as written all are even
  exactly after a success with no error pending, or if a full root finds no page at all.
  Line 153 is of the same kind: `btree_create` with an error pending frees the tree that
  it returns.
* `src/btree.c:401-407`: with memory for one of two new pages a root split is left half
  done. `BTree.BTree.Insert` says exactly when. As written the new page stays latched, so
  a lookup answers as before exactly up to the split key (`TreeSearch.TornRoot`).

## Model

| member | source | states |
|---|---|---|
| Varint.RoundTrip | src/varint.c:7-68 | whatever surrounds the encoding of a 64-bit value, reading there gives the value and exactly the number of its bytes |
| Varint.EncodeIs | src/varint.c:7-30 | the format, byte for byte: seven bits a byte, low ones first, bit 7 set in each but the last, no more bytes than needed, eight bits in a ninth |
| Varint.ReadsAnywhere | src/varint.c:43-78 | a varint that is copied with its bytes reads the same at its new place |
| Varint.PrefixFree | src/varint.c:7-30 | no encoding is a prefix of another one |
| Varint.PutLen | src/varint.c:32-41 | the computed length is that of the encoding, 1 to 9 |
| Varint.GetLen | src/varint.c:70-78 | the length found by scanning is the one that reading uses |
| Varint.Get | src/varint.c:43-68 | the loop with its shifts gives value and length of the reference decoding, below 2^64 |
| Varint.Put | src/varint.c:7-30 | the text as it is: the encoding below 2^56, and else two bytes at the wrong places |
| Varint.PutRepaired | src/varint.c:7-30 | with `++i`: writes the encoding and touches no other byte |
| Varint.WrittenRoundTripIff | src/varint.c:12-20 | what the text writes reads back, in every buffer, exactly for values below 2^56 |
| Varint.LostBytes | src/varint.c:12-20 | any value with a top byte, written into zeroes, reads back as its low 7 bits |
| Blob.RoundTrip | src/blob.c:21-45 | a written blob reads back with its length, whatever surrounds it |
| Blob.Put | src/blob.c:21-26 | writes the encoding in place and touches no other byte |
| Blob.Get | src/blob.c:33-38 | the range of bytes and the total size that decoding gives |
| Blob.GetLen | src/blob.c:40-45 | the number of bytes that decoding takes |
| Blob.PutLen | src/blob.c:28-31 | the length of the encoding |
| Blob.CmpMeaning | src/blob.c:6-19 | zero exactly for equal blobs, negative exactly if the first is a proper prefix or smaller at the first difference |
| Cells.CellRoundTrip | src/btree.c:53-114 | cells delimit themselves: parsing a stored payload gives its length, key and contents, whatever follows |
| Cells.KeyInPayload | src/btree.c:70-82 | the bytes of the key are where `payload_get_key` looks |
| Cells.CompareExactIff | src/btree.c:13-20 | the narrowed difference orders a window of keys right exactly up to 2^31 keys |
| Cells.CutInMiddle | src/btree.c:311-369 | the two halves are the old cells in order, the upper one has as many or one more, and the key handed up is that of the last cell that stays |
| Cells.SplitMakesRoom | src/btree.c:303-369 | a page without room for one more maximal cell has two cells or more, and either half has that room |
| Cells.InnerRoomy | src/btree.c:356-369 | the condition for that holds for inner pages exactly from 102 bytes a page on |
| PageLayout.LayoutDetermines | src/btree.c:38-44 | the bytes of a page stand for one node only |
| PageLayout.HeaderBytes | src/btree.c:22-44 | where the fields of the header and the slots are in the bytes, and what they say |
| PageLayout.ReadCell | src/btree.c:53-138 | following a slot and parsing gives its cell |
| PageLayout.TightIff | src/btree.c:135-139 | the header's free space is the space between slots and data exactly if the page has no holes |
| PageLayout.InsertLayout | src/btree.c:246-258 | opening a place and filling it inserts one cell at the index, below `data_start`, and leaves the bytes of all others |
| PageLayout.RedirectLayout | src/btree.c:295-299 | overwriting the id of one cell changes that child only |
| PageLayout.PackedLayout | src/btree.c:213-226 | cells packed downwards are disjoint, inside the page and without holes |
| PageLayout.WrittenFreeSpaceIff | src/btree.c:226 | the formula in the text is right exactly if `data_start` is half of the page size |
| PageLayout.WrittenFreeSpaceSign | src/btree.c:226 | for every exact page: when the text states more free space than there is, and when less |
| PageLayout.WrittenFreeSpaceFails | src/btree.c:226 | the left half of a split page of 1024 bytes with 208 bytes free, for which the text states 784 |
| SlottedPage.Page.FindPointer | src/btree.c:183-203 | the first index whose key is not below the key, and whether it is there |
| SlottedPage.Page.Compact | src/btree.c:205-227 | the same node, without holes |
| SlottedPage.Page.InsertPayload | src/btree.c:229-259 | a slot and a place below the data; an exact page is not compacted for it |
| SlottedPage.Page.InsertLeaf | src/btree.c:261-276 | EEXIST and no change for a key that is there, the failed assertion exactly without room, else the entry at its place in order |
| SlottedPage.Page.InsertInner | src/btree.c:278-301 | the assertion fails exactly without room; else the new separator takes over the child, the new page the rest of its range, and the page stays exact |
| SlottedPage.Page.Split | src/btree.c:303-333 | the cells cut in the middle, the first half staying and the upper one having as many or one more, the old `right` moved to the new page and the new id put in its place; both pages exact |
| SlottedPage.Page.InitLeaf | src/btree.c:165-178 | an empty leaf |
| SlottedPage.Page.InitRoot | src/btree.c:410-422 | one separator over two pages |
| TreeInvariant.LeafDecides | src/btree.c:462-470 | a key is stored exactly if the leaf that answers for it has it |
| TreeInvariant.SeparatorIsStored | src/btree.c:345-348 | every separator is the largest key of a leaf and is stored, so EEXIST at an inner page is right |
| TreeInvariant.BoundIsStored | src/btree.c:366-369 | every upper bound of a page is the largest key of a leaf below it |
| TreeInvariant.UniqueParent | src/btree.c:350-355 | a page hangs below one position of one page |
| TreeSteps.SplitKeepsTree | src/btree.c:363-369 | splitting a child of any page with room keeps the tree well-formed |
| TreeSteps.SplitKeepsStored | src/btree.c:363-369 | and what it holds |
| TreeSteps.BareRootKeepsTree | src/btree.c:410-425 | a new root above the old one keeps the tree well-formed |
| TreeSteps.RootSepFits | src/btree.c:412-414 | the first cell of a new root always fits a page that could be split |
| TreeSteps.EntryKeepsTree | src/btree.c:379-386 | so does a fresh entry in its leaf |
| TreeSteps.EntryAddsBinding | src/btree.c:379-386 | which adds exactly its binding to the map |
| TreeWalk.Descend | src/btree.c:350-355 | a hop goes one level down to a child that answers for the key; off the right spine it never follows `right`, which names a sibling there |
| TreeWalk.EveryPageReached | src/btree.c:453-462 | every page is reached from the root by walking to a key of its range |
| TreeWalk.LeafChain | src/btree.c:326-329 | following `right` from the leftmost leaf visits every leaf once, ends at 0 and gives all stored keys in increasing order |
| TreeWalk.ChainKeys | src/btree.c:326-329 | the keys along the chain increase strictly |
| TreeFate.GuardDecides | src/btree.c:117-121 | with f bytes free: as written a leaf is split exactly if its payload is longer than f, an inner page exactly if key and page id are; as meant with the slot, and with the longest separator; lines 240 and 339 in bytes |
| TreeFate.WholeLeafTrips | src/btree.c:232-261 | a leaf entered whole fails line 240 exactly if the payload fits and its slot of 2 bytes does not; as meant it never does |
| TreeFate.HalfLeads | src/btree.c:371-376 | the half that the key is sent to is the one responsible for it, or the key is lost at its lower end, exactly if it equals the split key and is sent to the right |
| TreeFate.AheadFrame | src/btree.c:335-389 | what is ahead of a walk depends on the pages below only, so a split above does not change it |
| TreeFate.EndFromRoot | src/btree.c:335-443 | of the ends, line 339 included, a fresh one is for keys not stored, EEXIST and a second entry are for stored ones, and with the routing as meant no key is added twice; an insertion takes at most two pages more than the root has levels below it |
| TreeFate.SplitLeavesRoom | src/btree.c:362-369 | for such rows, a page that fails the guard as meant can be split, and the half for the key passes it |
| TreeFate.InnerAdmits | src/btree.c:337-339 | with any guard and any rows, an inner page that is entered whole passes line 339, and from 102 bytes a page on so does the half of one that was split |
| TreeFate.NeverTrips | src/btree.c:335-389 | with the guards as meant, on pages of 102 bytes or more and rows whose costs differ little for the page, the assertions on lines 240 and 339 hold and no page of fewer than two cells is split, anywhere on the way |
| TreeSearch.SearchAnswers | src/btree.c:445-472 | with no page latched, the answers of lookups are those of the map |
| TreeSearch.LostEntry | src/btree.c:371-376 | a stored key that is routed to the right of its split ends up in two leaves |
| TreeSearch.TwiceIsUnseen | src/btree.c:371-376 | after that every lookup of every key still answers as before |
| TreeSearch.TornRoot | src/btree.c:398-407 | a root that is left half split: up to the split key lookups answer as before; above it a leaf root has lost the row, and an inner root makes the lookup wait for ever if the new sibling is latched, and else leads there |
| PageCount.LeafCount | src/btree.c:326-329 | there are at most as many leaves as rows, and one |
| PageCount.InnerCount | src/btree.c:303-333 | there are no more inner pages than leaves off the right spine |
| PageCount.PagesForRows | src/btree.c:391-443 | a tree has at most two pages a row and one, and no more levels than rows |
| BTree.AfterSplit | src/btree.c:366-377 | the chosen half answers for the key, or the walk is lost, and what is ahead is what was ahead before the split |
| BTree.AfterRootSplit | src/btree.c:398-432 | the same for a root split |
| BTree.LeafFate | src/btree.c:379-383 | how a walk ends in its leaf, and what the entry does to the tree and its map |
| BTree.BTree.constructor | src/btree.c:146-181 | a well-formed tree for the empty map, for any page size, if no error is pending or line 153 is as meant |
| BTree.BTree.SplitChild | src/btree.c:363-369 | the split of a child: no page, too few cells, no room in the parent, or pages, heap and map as they should be, the child cut in the middle and its last key that stays handed up |
| BTree.BTree.StepDown | src/btree.c:345-377 | one turn of the walk: a level down with the same fate ahead, or the foreseen failure; the parent is unfixed, and the full child leaked as written |
| BTree.BTree.InsertWalk | src/btree.c:335-389 | the walk answers as foreseen, with the assertion on line 339 checked at every inner page, and refines the insertion into the map; the pages it takes and the page latches it leaves |
| BTree.BTree.EnterRoot | src/btree.c:391-434 | the root is split under a new one if it is full; what is left in the page bytes, and latched, if memory ends in between |
| BTree.BTree.Insert | src/btree.c:391-443 | from any well-formed tree, for any row: the answer is the foreseen one and takes the foreseen pages; a fresh key adds exactly its binding, EEXIST and ENOMEM change no row but for a torn root; what lookups find in the bytes after a torn root or a second entry; which page latches are off, and exactly when none is |
| BTree.BTree.Lookup | src/btree.c:445-472 | terminates, finds exactly what the map has, and leaves no page latched |
| BTree.BTree.LookupIn | src/btree.c:445-472 | on any laid-out pages, with any latched: answers as `Search` says on what the bytes stand for, whenever that is an answer, and leaves the latches as they were |
| Table.Insert | src/btree.c:474-485 | the same through the encoded row, for any row |
| Table.Lookup | src/btree.c:487-498 | the blob of the id, or ENOENT |
| Table.LookupIn | src/btree.c:487-498 | the same as far as there is an answer, in pages that are no tree any more |
| Table.PutNext | src/btree.c:608-618 | one insert of a run: it lacks a page, breaks, or adds the row twice exactly if that is foreseen |
| Table.Run | src/btree.c:608-618 | any run of inserts and lookups on a new table until it stops: every answer is that of the map of first inserts; it stops only where some tree of just those rows has not enough page ids left, fails an assertion, leaves a page off or adds the row twice; on pages of 102 bytes or more it lacks a page only with at most three pages a row and one to make; with guards as meant and rows of like cost it breaks only at a repeated id, and only with the cleanup as written; an id is added twice only with the routing as written; so with three pages a row and two, rows of like cost, guards as meant, and no repeated id or cleanup and routing as meant, it comes to its end |
| Table.RowsAreFirstPuts | src/btree.c:608-618 | that map has an id exactly if it was inserted, with the blob of its first insert |
| AsWritten.RowThirtyNine | src/btree.c:398-436 | the source's page of 1024 bytes with 38 rows: as written the next row fails line 240, as meant it is added |
| AsWritten.HalfWithoutRoom | src/btree.c:337-339 | on a page of 41 bytes, with any of the repairs: the root is split, its right half has 7 bytes free, and line 339 asks for 9 |
| AsWritten.TornLeafRoot | src/btree.c:398-407 | a leaf root that is left half split has lost exactly the keys above the split key |
| AsWritten.RepeatedId | src/btree.c:435-437 | a tree with one row whose id is found again, which as written is unfixed twice |
| AsWritten.FullLeafTwice | src/btree.c:427-432 | in a tree of one full leaf exactly the split key is added twice, and only as written |
| AsWritten.RepeatedKeyIsLost | src/btree.c:427-432 | a concrete tree and stored key that is added twice as written, and found as meant |
| LatchWord.Meaning | src/latch.c:7-111 | the word is -1 exactly for one writer alone, 0 exactly for nobody, else the number of readers |
| Latch.StepKeeps | src/latch.c:12-106 | every step of every thread keeps that, looks atomic to users, and a release meets its assertion |
| Latch.Exclusion | src/latch.c:12-106 | in every run of fewer than 2^31 threads, at every moment: one writer and no reader, or readers as counted |
| Latch.TwoLooksTake | src/latch.c:12-85 | whatever a thread believes, two looks without a spurious failure take a latch that is to be had |
| Latch.Progress | src/latch.c:12-85 | in a run: two looks of a thread at one word that allows what it wants, whatever others do in between, and it has the latch |
| Latch.AloneTakesAndReleases | src/latch.c:12-106 | alone, by the loops and by the tries, a thread gets the latch with two looks at most, and the release leaves all as it was |
| Latch.ReleaseLetsGo | src/latch.c:96-106 | a release ends the hold and undoes what the acquisition did to the word |
| Latch.FailedTry | src/latch.c:31-85 | a try that fails met a word that forbade it between its call and its return |
| PagerInvariant.OneSlotPerPage | src/pager.c:253-262 | no page is in two slots of the ring |
| PagerInvariant.PageShows | src/pager.c:354-359 | who has a page latch shows in its word and excludes others |
| PagerSafety.OperationFollows | src/pager.c:250-450 | one operation of one thread: latches, count, slot and what the thread relies on follow it |
| PagerInduction.OthersRely | src/pager.c:250-450 | no step of a thread takes away what another one relies on |
| PagerInduction.NobodyAtNew | src/pager.c:272-275 | nobody has or waits for the page latch that `latch_init` resets |
| PagerInduction.StepKeepsInv | src/pager.c:250-450 | the invariant is inductive over every step of every thread |
| PagerRuns.RunInv | src/pager.c:115-450 | it holds at every moment of every run from `pager_open` on |
| PagerRuns.FixedPageStays | src/pager.c:348-450 | from reaching a page until unfixing it, in every interleaving: slot, header and mapping stay, and no step evicts or re-creates it |
| PagerRuns.RingMatchesDirectory | src/pager.c:290-344 | ring and directory correspond one to one for every entry that is not write-latched, header ids included |
| PagerRuns.PageExclusion | src/pager.c:348-364 | two threads with one page have one header, and both share it |
| PagerRuns.ExclusiveFlag | src/pager.c:354-359 | the EXCLUSIVE flag is set exactly for a completed exclusive fix, and then the latch is -1 |
| PagerRuns.UnfixAgrees | src/pager.c:436-450 | `pager_unfix` releases in the mode of the fix, and its assertions hold |
| PagerRuns.WaitsForHolder | src/pager.c:348-423 | no latch is left taken: a thread without a step waits for one that has the latch, of the same entry or page, in a mode that excludes it |
| PagerRuns.Conservation | src/pager.c:385-411 | `page_count` is the number of pages in the ring and of reservations, at most size - 1; free slots outnumber reservations |
| PagerRuns.EntryShows | src/pager.c:166-232 | the latch assertions of the directory functions hold |
| PagerRuns.DirectoryCalls | src/pager.c:250-344 | inserts are of absent nonzero ids and removals of present ones, under the exclusive entry latch |
| PagerCalls.CallComesTo | src/pager.c:366-423 | in every interleaving a call of `pager_fix` ends with the page that it asked for, in that mode, or without it because memory lacked, or because the pager was full and two rounds of visits took nothing |
| PagerCalls.EvictsOnlyIfFull | src/pager.c:385-396 | a thread looks for a page to evict only if at some moment of its call the count was size - 1 |
| PagerCalls.VisitPasses | src/pager.c:290-335 | in every interleaving a visit passes over a slot only if at some moment of it the slot was empty, or its page in use or referenced |
| PagerCalls.WeakExchange | src/pager.c:257-395 | a weak compare-and-swap that fails changes nothing |
| PagerAlone.FixAlone | src/pager.c:250-423 | the steps of a thread alone, from its call until it has the page or is back without it, do what `Clock.AfterFix` says |
| PagerAlone.UnfixAlone | src/pager.c:436-450 | and those of its unfix what `Clock.AfterUnfix` says |
| PagerEnds.AloneEnds | src/pager.c:250-423 | a call alone is over after at most 22 steps a slot and 20 |
| PagerEnds.UnfixEnds | src/pager.c:436-450 | an unfix alone is over after three |
| PagerEnds.HasStep | src/pager.c:348-423 | while nobody else is in the middle of a call, a thread always has a step unless somebody keeps its page |
| PagerEnds.QuietPager | src/pager.c:250-450 | between calls ring, headers, directory and count are as the model of one thread requires |
| Directory.PlacedStands | src/pager.c:190-225 | filling the first hole, or adding a slot, inserts into the map |
| Directory.ClearedStands | src/pager.c:227-246 | making a hole removes from the map |
| Directory.HashEntry.Lookup | src/pager.c:165-186 | finds exactly what the map has |
| Directory.HashEntry.Insert | src/pager.c:190-225 | adds the binding, in the first hole or else in one more bucket, and touches no other slot; fails without change exactly without memory and hole; the chain has an end and only grows |
| Directory.HashEntry.Remove | src/pager.c:227-246 | removes the binding and no bucket, and touches no other slot |
| Clock.TwoRoundsDecide | src/pager.c:316-344 | two rounds meet a page to take exactly if some page is free to go |
| Clock.SecondChance | src/pager.c:331-335 | a page with its reference bit set goes only in the second round, when every candidate has lost its bit |
| Clock.ClockOrder | src/pager.c:316-344 | the page that goes is the first idle one from the head on with a clear bit, and if all idle ones have theirs, the first idle one |
| Clock.UsedPageStays | src/pager.c:331-335 | a page with its bit set stays if there is an idle one without |
| Clock.UnfixThenEvict | src/pager.c:331-447 | so does the page that was unfixed last |
| Clock.Pager.Evict | src/pager.c:316-344 | takes the first page in clock order that may go, ages those before it, and fails exactly if every page is latched |
| Clock.Pager.NextFree | src/pager.c:253-262 | the first free slot from the head on, within one round |
| Clock.Pager.Create | src/pager.c:250-284 | the page in that slot with a fresh header, or nothing mapped on failure |
| Clock.Pager.Reserve | src/pager.c:385-396 | a reservation, except exactly if the ring is full and every page is latched |
| Clock.Pager.Fix | src/pager.c:366-423 | the page, latched as asked; ENOMEM exactly if there is no place, or no memory for the directory or for the slot that a new page will get, which is the first free one after the eviction, foretold from the ring before the call; a page that was there gets one more reader or a writer and keeps its bits, a new one starts clean; latched pages stay, at most one idle page goes, and none below the capacity |
| Clock.Pager.Unfix | src/pager.c:436-450 | releases in the mode of the fix, sets the reference bit, and after an exclusive fix the dirty bit, and takes the mark away |
| Clock.FreeExists | src/pager.c:385-411 | fewer pages than slots leave a free slot |
| Clock.BelowCapacity | src/pager.c:385-396 | as long as there are fewer than size - 1 pages, none is evicted |
| Clock.ServeNext | src/pager.c:426-433 | below the capacity a new page of the tree is made, and the pages, and which of them are fixed, are otherwise as before |
| Clock.ServeFix | src/pager.c:366-423 | fixing a page of the tree finds it, and fixes no other |
| Clock.ServeUnfix | src/pager.c:436-450 | unfixing a page of the tree unfixes it and no other |
| Clock.FillPager | src/pager.c:538-546 | size - 1 pages can be fixed at once, and then no other |

## Left out

- UUID index pages: `key_compare` reads every key as a varint, so only tables have an order.
- `src/error.c` and the defer and try macros: results are values, and of the error stack the model keeps whether there is a code; `ensure` failures other than page id 0 are not modelled.
- `src/test.c` and the test blocks, other than as runs of `Table.Run`.
- `pager_close`, `btree_close`, `btree_open` on an existing root, alignment.
- `varint_cmp`: the source does not implement it.
- The hash arithmetic: the hash is any function into the directory.
- Eviction does not save contents, so the tree is proved over a pager below its capacity: `NextPage` makes pages while there is memory and fixing a page always finds it, as `Clock.ServeNext` and `Clock.ServeFix` have it. The ENOMEM of the tree is a failing `malloc`; at its capacity the pager evicts instead, and what a tree becomes whose pages are evicted is not modelled.
- Concurrent operations on one tree: the update of the root is explicitly not synchronised.
- Deadlock freedom and fairness between threads: `pager_fix` waits for a page latch with an entry latch held. That a call ends is proved for a thread that nobody interferes with.
- Weak memory orders: steps are sequentially consistent.
- Threads of the step relation unfix what they fixed, once; the tree's error paths that do not are part of `BTree.BTree.Insert`.
- Wrap-around of `evict_head`, `create_head` and `next_page` at 2^32; rings of fewer than two slots.
- A pager thread has one page at a time; a thread that fixes several stands for several.
- Clock.Pager.Fix: requires the page latch to be available, since a lone thread would wait for ever; a compare-and-swap of a lone thread does not fail.
- Table.Insert: requires ids within one window of 2^31, since `key_compare` does not order others (`Cells.CompareExactIff`).
- BTree.BTree.constructor: requires that no error is pending with line 153 as written, since the tree would be freed when it is returned.
- Table.Run: how many pages are enough is stated for pages of 102 bytes or more; on smaller ones a split can leave an inner page with one cell, which off the right spine has one child, and pages are not bounded by rows.
- BTree.BTree.Insert: requires that no page is latched, since the fix of a latched page would wait for ever; after a row was added twice, a torn root or a failed assertion it says what is there, not what later insertions do.
