/**
  The table tree of src/btree.c:146-506: pages of bytes that refer to each other by
  id, proved to be a map from keys to blobs.
*/
module BTree {
  import opened Common
  import opened Varint
  import Blob
  import opened Cells
  import opened PageLayout
  import opened SlottedPage
  import opened TreeInvariant
  import opened TreeSteps
  import opened TreeWalk
  import opened TreeFate
  import opened TreeSearch
  import opened PageCount

  /** Success, EEXIST or ENOMEM; or there is no answer, because an assertion on line 240
      or 339 fails, or because lines 367 and 404 read slot -1. */
  datatype Result = Ok | Exists | NoMem | Fails | Strays

  function ResultOf(f: Fate, available: nat): Result {
    if available < f.pages then NoMem
    else match f.end
      case Fresh | Twice => Ok
      case Found => Exists
      case Trips => Fails
      case Outside => Strays
  }

  /** The pages in memory, by id. */
  type Store = map<PageId, Page>

  /** How many more times pages were fixed than unfixed; a page that is not in the map
      is even. A negative number stands for an unfix that fails the assertion of
      `latch_release_read`; the fix of a page with a positive one waits for ever. */
  type Latches = map<PageId, int>

  function Shift(l: Latches, p: PageId, d: int): Latches {
    var v := (if p in l then l[p] else 0) + d;
    if v == 0 then l - {p} else l[p := v]
  }

  class BTree {
    const cfg: Config
    const pageSize: nat
    /** Which places are taken as meant and not as written. */
    const fix: Repairs

    var store: Store
    var root: PageId
    /** The next page id, and how many pages `pager_next` still makes: as many as there
        is memory for below the capacity of the pager, where it evicts none. */
    var next: PageId
    var available: nat
    var latches: Latches
    /** Whether `error_get_code` is not 0. */
    var failed: bool

    /** What the bytes of each page stand for, and all pages together. */
    ghost var nodes: Pages
    ghost var contents: map<nat, seq<Byte>>
    ghost var fences: Fences
    /** The page that the latest insertion went on from after looking at the root. */
    ghost var entered: PageId
    /** The pages and their bytes. */
    ghost var repr: set<object>

    /** Every page is laid out exactly, and pages share no memory. */
    ghost predicate PagesValid()
      reads `store, `nodes, `repr, `next, `available, repr
      ensures PagesValid() ==> this !in repr && next <= MAX_ID && store.Keys == nodes.Keys
      ensures PagesValid() ==> HEADER_SIZE + cfg.space == pageSize <= MAX_PAGE
    {
      && store.Keys == nodes.Keys
      && this !in repr
      && (forall p :: p in store ==> store[p] in repr && store[p].data in repr)
      && (forall p, q :: p in store && q in store && p != q ==> store[p] != store[q] && store[p].data != store[q].data)
      && (forall p :: p in store ==> store[p].Is(nodes[p], pageSize))
      && (forall p :: p in store ==> p < next)
      && HEADER_SIZE + cfg.space == pageSize <= MAX_PAGE && 0 < next && next + available <= MAX_ID
    }

    ghost predicate Valid()
      reads `store, `nodes, `repr, `next, `available, `root, `contents, `fences, repr
      ensures Valid() ==> this !in repr
    {
      && PagesValid() && TreeOk(cfg, nodes, fences, root) && Represents(nodes, contents)
      && Shaped(cfg, nodes, root, next)
    }

    /** All the pages that there will have been. */
    ghost function Capacity(): nat
      reads `next, `available
    {
      next + available
    }

    /** The bytes of a key and of a value. */
    ghost predicate Accepts(key: nat, keyBytes: seq<Byte>, value: seq<Byte>, blob: seq<Byte>) {
      && InWindow(cfg.base, key) && Entry(key, blob).Fits()
      && keyBytes == Varint.Encode(key) && value == Blob.Encode(blob)
    }

    /** `btree_create`, in a pager that makes `capacity` more pages. With an error pending,
        line 153 as written frees the tree that is returned. */
    constructor (pageSize: nat, capacity: nat, base: nat, fix: Repairs, failed: bool)
      requires HEADER_SIZE <= pageSize <= MAX_PAGE && 0 < capacity < MAX_ID && (fix.cleanup || !failed)
      ensures Valid() && fresh(repr) && contents == map[] && latches == map[] && this.failed == failed
      ensures cfg == Config(pageSize - HEADER_SIZE, base) && this.fix == fix
      ensures available == capacity - 1 && root in fences && fences[root].level == 0
    {
      hide PagesValid, TreeOk, Represents, Shaped;
      this.cfg, this.pageSize, this.fix := Config(pageSize - HEADER_SIZE, base), pageSize, fix;
      store, root, next, available, latches, this.failed := map[], 1, 2, capacity - 1, map[], failed;
      nodes, contents, fences, entered, repr := map[], map[], map[1 := Fence(0, -1, None)], 1, {};
      new;
      NoPageYet();
      FirstPage();
      EmptyTree(cfg);
    }

    lemma NoPageYet()
      requires store == map[] && nodes == map[] && repr == {} && 0 < next && next + available <= MAX_ID
      requires HEADER_SIZE + cfg.space == pageSize <= MAX_PAGE
      ensures PagesValid()
    {
    }

    method FirstPage()
      requires PagesValid() && nodes == map[] && next == 2 && repr == {}
      modifies `store, `repr, `nodes
      ensures PagesValid() && nodes == map[1 := Node(true, [], 0)] && fresh(repr)
    {
      hide Page.Is, PagesValid;
      var page := new Page(pageSize);
      InitLeafPage(page, pageSize);
      Install(1, page, Node(true, [], 0));
    }

    // ------------------------------------------------------------ page latches

    /** `pager_fix`, exclusive, of a page that is not latched. */
    method Fix(p: PageId)
      requires p !in latches
      modifies `latches
      ensures latches == old(latches)[p := 1]
    {
      latches := latches[p := 1];
    }

    /** `pager_unfix`. */
    method Unfix(p: PageId)
      modifies `latches
      ensures latches == Shift(old(latches), p, -1)
    {
      latches := Shift(latches, p, -1);
    }

    method FixBeside(p: PageId, q: PageId)
      requires latches == map[p := 1] && p != q
      modifies `latches
      ensures latches == map[p := 1, q := 1]
    {
      Fix(q);
    }

    method UnfixBeside(p: PageId, q: PageId)
      requires latches == map[p := 1, q := 1] && p != q
      modifies `latches
      ensures latches == map[q := 1]
    {
      Unfix(p);
    }

    method UnfixLast(p: PageId)
      requires latches == map[p := 1]
      modifies `latches
      ensures latches == map[]
    {
      Unfix(p);
    }

    /** `error_clear`. */
    method ClearError()
      modifies `failed
      ensures !failed
    {
      failed := false;
    }

    // -------------------------------------------------------------------- pages

    /** `pager_next`: a page that no one else has, latched. */
    method NextPage() returns (ok: bool, id: PageId, page: Page)
      requires PagesValid() && latches.Keys <= nodes.Keys
      modifies `next, `available, `latches, `failed
      ensures PagesValid() && fresh(page) && fresh(page.data) && page.data.Length == pageSize
      ensures page !in repr && page.data !in repr
      ensures ok <==> old(available) > 0
      ensures ok ==> id !in nodes && 0 < id < MAX_ID && id < next && available == old(available) - 1
      ensures ok ==> latches == old(latches)[id := 1] && failed == old(failed)
      ensures !ok ==> available == 0 && latches == old(latches) && failed
      ensures Capacity() == old(Capacity())
    {
      hide Page.Exact;
      page := new Page(pageSize);
      id := next;
      ok := available > 0;
      if ok {
        next := next + 1;
        available := available - 1;
        FreshId(id);
        Fix(id);
      } else {
        failed := true;
      }
    }

    lemma FreshId(id: PageId)
      requires latches.Keys <= nodes.Keys && id !in nodes
      ensures id !in latches
    {
    }

    /** Lines 363-369: the child at position i of p is full; its upper half moves to a
        new page s, and the parent learns the split key. */
    method SplitChild(p: PageId, i: nat, c: PageId) returns (r: Result, s: PageId, splitKey: nat)
      requires Valid() && latches.Keys <= nodes.Keys
      requires p in nodes && p in fences && !nodes[p].leaf && nodes[p].Typed() && i < Arity(nodes[p], fences[p])
      requires c == ChildId(nodes[p], i) && c in nodes && nodes[c].Typed()
      requires cfg.space >= MIN_SPACE ==> Halves(nodes[c])
      modifies this, repr
      ensures fresh(repr - old(repr)) && root == old(root) && contents == old(contents)
      ensures Capacity() == old(Capacity())
      ensures r == if old(available) == 0 then NoMem
                   else if |old(nodes)[c].cells| < 2 then Strays
                   else if !Takes(cfg.space, old(nodes)[p], Sep(SplitKey(old(nodes)[c]), c)) then Fails
                   else Ok
      ensures r == NoMem ==> Valid() && nodes == old(nodes) && fences == old(fences) && available == 0
                             && latches == old(latches) && failed
      ensures r == Ok ==> Valid() && CanSplit(cfg, old(nodes), old(fences), old(root), p, i, s)
      ensures r == Ok ==>
                && available == old(available) - 1 && s !in old(nodes) && failed == old(failed)
                && latches == old(latches)[s := 1]
                && p in old(nodes) && c in old(nodes) && c in old(fences) && splitKey == SplitKey(old(nodes)[c])
                && (i < |old(nodes)[p].cells| ==> old(nodes)[p].cells[i].Sep?)
                && nodes == SplitPages(old(nodes), p, i, c, s) && fences == SplitFences(old(fences), c, splitKey, s)
      ensures r == Ok ==> c in old(nodes) && CutAt(old(nodes)[c], nodes, c, s, splitKey)
    {
      hide TreeOk, Represents, InsertSep, Takes, PagesValid, Arity, ChildId, SplitFences, SplitKey, Node.Typed, Shaped,
           CutAt;
      SplitApplies(cfg, nodes, fences, root, p, i);
      RootBounds(cfg, nodes, fences, root);
      ghost var before := nodes;
      r, s, splitKey := SplitChildPages(p, i, c);
      if r == Ok {
        SepSame(cfg.space, before[p], before[c], c, s);
        SplitStep(cfg, before, fences, root, p, i, s, contents);
        SplitCuts(before, p, i, c, s);
        SplitKeepsShape(cfg, before, fences, root, p, i, s, next - 1);
        fences := SplitFences(fences, c, splitKey, s);
      }
    }

    /** The same on the pages themselves. */
    method SplitChildPages(p: PageId, i: nat, c: PageId) returns (r: Result, s: PageId, splitKey: nat)
      requires PagesValid() && latches.Keys <= nodes.Keys
      requires p in nodes && c in nodes && p != c && c < MAX_ID && nodes[p].Typed() && nodes[c].Typed()
      requires !nodes[p].leaf && i <= |nodes[p].cells| && (i < |nodes[p].cells| ==> nodes[p].cells[i].Sep?)
      modifies `store, `repr, `nodes, `next, `available, `latches, `failed, repr
      ensures fresh(repr - old(repr))
      ensures r == if old(available) == 0 then NoMem
                   else if |old(nodes)[c].cells| < 2 then Strays
                   else if !Takes(cfg.space, old(nodes)[p], Sep(SplitKey(old(nodes)[c]), c)) then Fails
                   else Ok
      ensures r == NoMem ==> PagesValid() && nodes == old(nodes) && available == 0 && repr == old(repr)
                             && store == old(store) && latches == old(latches) && failed
      ensures Capacity() == old(Capacity())
      ensures r == Ok ==>
                && PagesValid() && available == old(available) - 1 && failed == old(failed)
                && s !in old(nodes) && 0 < s < MAX_ID && latches == old(latches)[s := 1]
                && splitKey == SplitKey(old(nodes)[c]) && nodes == SplitPages(old(nodes), p, i, c, s)
    {
      hide InsertSep, Takes, PagesValid, SplitKey, Node.Typed, LeftHalf, RightHalf, Varint.Encode;
      ghost var n, child := nodes[p], nodes[c];
      var bytes;
      r, s, splitKey, bytes := TearOff(c);
      if r != Ok {
        return;
      }
      SepSame(cfg.space, n, child, c, s);
      var ok := AddSep(p, i, splitKey, bytes, s);
      r := if ok then Ok else Fails;
    }

    /** Lines 363-368 for the full child c, and 399-404 for the root: its upper half
        moves to a new page s. */
    method TearOff(c: PageId) returns (r: Result, s: PageId, splitKey: nat, bytes: seq<Byte>)
      requires PagesValid() && c in nodes && latches.Keys <= nodes.Keys
      modifies `store, `repr, `nodes, `next, `available, `latches, `failed, repr
      ensures fresh(repr - old(repr)) && Capacity() == old(Capacity())
      ensures r == if old(available) == 0 then NoMem else if |old(nodes)[c].cells| < 2 then Strays else Ok
      ensures r == NoMem ==> PagesValid() && nodes == old(nodes) && repr == old(repr) && available == 0
                             && store == old(store) && latches == old(latches) && failed
      ensures r == Ok ==>
                && PagesValid() && available == old(available) - 1 && failed == old(failed)
                && s !in old(nodes) && s in nodes && 0 < s < MAX_ID
                && latches == old(latches)[s := 1] && latches.Keys <= nodes.Keys
                && splitKey == SplitKey(old(nodes)[c]) < U64 && bytes == Varint.Encode(splitKey)
                && nodes == TornPages(old(nodes), c, s)
    {
      hide PagesValid, SplitKey, LeftHalf, RightHalf, Varint.Encode;
      splitKey, bytes := 0, [];
      var ok, page;
      ok, s, page := NextPage();
      if !ok {
        return NoMem, s, splitKey, bytes;
      }
      var count := CountOf(c);
      if count < 2 {
        return Strays, s, splitKey, bytes;
      }
      splitKey, bytes := SplitOff(c, s, page);
      r := Ok;
    }

    method CountOf(p: PageId) returns (n: nat)
      requires PagesValid() && p in nodes
      ensures n == |nodes[p].cells|
    {
      hide Layout, Tight;
      assert store[p].Is(nodes[p], pageSize);
      HeaderMeans(store[p].data[..], nodes[p]);
      n := store[p].Field(COUNT_AT);
    }

    /** `page_split` of page c, whose upper half becomes page s, and the split key. */
    method SplitOff(c: PageId, s: PageId, page: Page) returns (splitKey: nat, bytes: seq<Byte>)
      requires PagesValid() && c in nodes && |nodes[c].cells| >= 2 && s !in nodes && 0 < s < next
      requires page !in repr && page.data !in repr && page.data.Length == pageSize
      modifies `store, `repr, `nodes, repr, page.data, page`node
      ensures PagesValid() && repr == old(repr) + {page, page.data}
      ensures splitKey == SplitKey(old(nodes)[c]) < U64 && bytes == Varint.Encode(splitKey)
      ensures nodes == old(nodes)[c := LeftHalf(old(nodes)[c], s)][s := RightHalf(old(nodes)[c])]
    {
      hide PagesValid, Page.Is, LeftHalf, RightHalf, SplitKey;
      ghost var n := nodes[c];
      splitKey, bytes := SplitOne(c, s, page);
      Install(s, page, RightHalf(n));
    }

    method SplitOne(c: PageId, s: PageId, page: Page) returns (splitKey: nat, bytes: seq<Byte>)
      requires PagesValid() && c in nodes && |nodes[c].cells| >= 2 && s < MAX_ID
      requires page !in repr && page.data !in repr && page.data.Length == pageSize
      modifies `nodes, repr, page.data, page`node
      ensures PagesValid() && page.Is(RightHalf(old(nodes)[c]), pageSize)
      ensures splitKey == SplitKey(old(nodes)[c]) < U64 && bytes == Varint.Encode(splitKey)
      ensures nodes == old(nodes)[c := LeftHalf(old(nodes)[c], s)]
    {
      hide Page.Is, LeftHalf, RightHalf, SplitKey, Varint.Encode;
      splitKey, bytes := SplitInTwo(store[c], s, page, pageSize, nodes[c]);
      nodes := nodes[c := LeftHalf(nodes[c], s)];
    }

    /** `page_insert_inner` on page p. */
    method AddSep(p: PageId, i: nat, key: nat, bytes: seq<Byte>, s: PageId) returns (ok: bool)
      requires PagesValid() && p in nodes && key < U64 && bytes == Varint.Encode(key) && s < MAX_ID
      requires !nodes[p].leaf && i <= |nodes[p].cells| && (i < |nodes[p].cells| ==> nodes[p].cells[i].Sep?)
      requires nodes[p].Typed()
      modifies `nodes, repr
      ensures PagesValid() && (ok <==> Takes(cfg.space, old(nodes)[p], Sep(key, s)))
      ensures nodes == if ok then old(nodes)[p := InsertSep(old(nodes)[p], i, key, s)] else old(nodes)
    {
      hide InsertSep, Page.Is, Takes, Node.Typed;
      ok := InsertInnerPage(store[p], i, key, bytes, s, pageSize, nodes[p]);
      nodes := if ok then nodes[p := InsertSep(nodes[p], i, key, s)] else nodes;
    }

    method Install(s: PageId, page: Page, ghost n: Node)
      requires PagesValid() && s !in nodes && s < next
      requires page !in repr && page.data !in repr && page.Is(n, pageSize)
      modifies `store, `repr, `nodes
      ensures PagesValid() && repr == old(repr) + {page, page.data}
      ensures nodes == old(nodes)[s := n] && store == old(store)[s := page]
    {
      hide Page.Is;
      store, repr, nodes := store[s := page], repr + {page, page.data}, nodes[s := n];
    }

    // ----------------------------------------------------------------- search

    /** `page_find_pointer` on page p. */
    method FindIn(p: PageId, key: nat) returns (found: bool, index: nat)
      requires PagesValid() && Searchable(cfg, nodes) && p in nodes && InWindow(cfg.base, key)
      ensures index == Find(nodes[p].cells, key) && (found <==> HasKey(nodes[p].cells, key))
    {
      hide Find, HasKey, Layout, Tight;
      assert CellsSearchable(cfg, nodes[p]);
      assert store[p].Is(nodes[p], pageSize);
      found, index := store[p].FindPointer(key, cfg.base);
    }

    method ChildOf(p: PageId, index: nat) returns (id: PageId)
      requires PagesValid() && p in nodes && !nodes[p].leaf && index <= |nodes[p].cells| && nodes[p].Typed()
      ensures id == ChildId(nodes[p], index)
    {
      hide Layout, Tight;
      assert store[p].Is(nodes[p], pageSize);
      assert index < |nodes[p].cells| ==> nodes[p].cells[index] in nodes[p].cells;
      id := store[p].Child(index);
    }

    /** Whether p is a leaf, and whether lines 362 and 398 find it too full. */
    method CheckRoom(p: PageId, key: nat, keyBytes: seq<Byte>, value: seq<Byte>, ghost blob: seq<Byte>)
      returns (leaf: bool, full: bool)
      requires PagesValid() && p in nodes && nodes[p].Typed() && Accepts(key, keyBytes, value, blob)
      ensures leaf == nodes[p].leaf
      ensures full <==> Full(cfg.space, fix, nodes[p], Entry(key, blob))
      ensures Used(nodes[p].cells) <= cfg.space
      ensures !fix.guard && |keyBytes| + |value| < 0x1_0000 ==>
                (full <==> cfg.space - Used(nodes[p].cells) < if leaf then |keyBytes| + |value| else |keyBytes| + 4)
    {
      hide Layout, Tight, Used, Varint.Encode, Blob.Encode;
      assert store[p].Is(nodes[p], pageSize);
      HeaderMeans(store[p].data[..], nodes[p]);
      GuardDecides(cfg.space, fix, nodes[p], Entry(key, blob));
      var flags := store[p].Field(FLAGS_AT);
      leaf := flags % 2 == 1;
      var free := store[p].Field(FREE_SPACE_AT);
      full := free < Need(fix, leaf, |keyBytes|, |value|);
    }

    /** `btree_lookup`, in a tree of which no page is latched. */
    method Lookup(key: nat) returns (r: Option<seq<Byte>>)
      requires Valid() && InWindow(cfg.base, key) && latches == map[]
      modifies `latches, `failed
      ensures Valid() && latches == map[] && failed == (old(failed) || r == None)
      ensures r == if key in contents then Some(contents[key]) else None
    {
      hide TreeOk, Represents, PagesValid, Shaped, Search, Standing;
      RootBounds(cfg, nodes, fences, root);
      TreeSearchable(cfg, nodes, fences, root);
      SearchAnswers(cfg, nodes, fences, root, contents, root, key, fences[root].level);
      assert latches.Keys == {};
      r := LookupIn(key, fences[root].level);
    }

    /** The same in any pages, also where the heap is not a tree or some stay latched: the
        bytes answer as `Search` says, unless the lookup would wait for ever. */
    method LookupIn(key: nat, ghost hops: nat) returns (r: Option<seq<Byte>>)
      requires PagesValid() && Searchable(cfg, nodes) && InWindow(cfg.base, key)
      requires Answered(Search(nodes, latches.Keys, root, key, hops))
      modifies `latches, `failed
      ensures PagesValid() && latches == old(latches) && failed == (old(failed) || r == None)
      ensures r == BlobOf(old(Search(nodes, latches.Keys, root, key, hops)))
    {
      hide PagesValid, Searchable, Find, InLeaf, Node.Typed, Search, Next, Answered, InWindow;
      ghost var held, left := latches, hops;
      var page := root;
      SearchHop(nodes, held.Keys, page, key, left);
      Fix(page);
      var leaf := IsLeaf(page);
      while !leaf
        invariant PagesValid() && page in nodes && nodes[page].Typed() && page !in held && leaf == nodes[page].leaf
        invariant latches == held[page := 1] && failed == old(failed)
        invariant Search(nodes, held.Keys, page, key, left) == Search(nodes, held.Keys, root, key, hops)
        decreases left
      {
        var child := NextOf(page, key);
        SearchHop(nodes, held.Keys, page, key, left);
        SearchHop(nodes, held.Keys, child, key, left - 1);
        HandOver(page, child, held);
        page, left := child, left - 1;
        leaf := IsLeaf(page);
      }
      SearchHop(nodes, held.Keys, page, key, left);
      r := AnswerFrom(page, key);
      failed := failed || r == None;
      Release(page, held);
    }

    /** Lines 453-462. */
    method NextOf(page: PageId, key: nat) returns (child: PageId)
      requires PagesValid() && Searchable(cfg, nodes) && InWindow(cfg.base, key)
      requires page in nodes && !nodes[page].leaf && nodes[page].Typed()
      ensures child == Next(nodes[page], key)
    {
      hide PagesValid, Searchable, Find, HasKey, Node.Typed;
      var found, index := FindIn(page, key);
      child := ChildOf(page, index);
    }

    /** Lines 469-475. */
    method AnswerFrom(page: PageId, key: nat) returns (r: Option<seq<Byte>>)
      requires PagesValid() && Searchable(cfg, nodes) && InWindow(cfg.base, key)
      requires page in nodes && nodes[page].leaf
      ensures r == BlobOf(InLeaf(nodes[page].cells, key))
    {
      hide PagesValid, Find, HasKey;
      assert CellsSearchable(cfg, nodes[page]);
      FindHit(nodes[page].cells, key);
      var found, index := FindIn(page, key);
      r := None;
      if found {
        var blob := ValueOf(page, index);
        r := Some(blob);
      }
    }

    /** Lines 464-465. */
    method HandOver(page: PageId, child: PageId, ghost held: Latches)
      requires latches == held[page := 1] && page !in held && child !in held && child != page
      modifies `latches
      ensures latches == held[child := 1]
    {
      Fix(child);
      Unfix(page);
    }

    method Release(page: PageId, ghost held: Latches)
      requires latches == held[page := 1] && page !in held
      modifies `latches
      ensures latches == held
    {
      Unfix(page);
    }

    method IsLeaf(p: PageId) returns (leaf: bool)
      requires PagesValid() && p in nodes
      ensures leaf == nodes[p].leaf
    {
      hide Layout, Tight;
      assert store[p].Is(nodes[p], pageSize);
      HeaderMeans(store[p].data[..], nodes[p]);
      var flags := store[p].Field(FLAGS_AT);
      leaf := flags % 2 == 1;
    }

    method ValueOf(p: PageId, index: nat) returns (blob: seq<Byte>)
      requires PagesValid() && p in nodes && nodes[p].leaf && index < |nodes[p].cells|
      ensures nodes[p].cells[index] == Entry(nodes[p].cells[index].key, blob)
    {
      hide Layout, Tight;
      assert store[p].Is(nodes[p], pageSize);
      blob := store[p].Value(index);
    }

    // ----------------------------------------------------------------- insert

    /** What is ahead of a walk that enters page p. */
    ghost function AheadOf(p: PageId, key: nat, blob: seq<Byte>, lost: bool): Fate
      requires At(p, key, lost) && Entry(key, blob).Fits()
      reads `nodes, `fences, `contents
    {
      Ahead(cfg.space, fix, nodes, nodes[p], fences[p].level, Entry(key, blob), lost)
    }

    /** What is ahead of a whole insertion. */
    ghost function Foreseen(key: nat, blob: seq<Byte>): Fate
      requires root in nodes && root in fences && nodes[root].Typed() && Entry(key, blob).Fits()
      reads `nodes, `fences, `root
    {
      FromRoot(cfg.space, fix, nodes, root, fences[root].level, Entry(key, blob))
    }

    /** A walk stands at page p, with the key in its range, or lost at the lower end. */
    ghost predicate At(p: PageId, key: nat, lost: bool)
      reads `nodes, `fences, `contents
    {
      Standing(nodes, fences, contents, p, key, lost)
    }

    /** `page_insert_leaf` on page l. */
    method AddEntry(l: PageId, key: nat, keyBytes: seq<Byte>, value: seq<Byte>, ghost blob: seq<Byte>)
      returns (r: Added)
      requires Valid() && l in nodes && nodes[l].leaf && nodes[l].Typed() && Accepts(key, keyBytes, value, blob)
      modifies `nodes, repr
      ensures PagesValid() && old(nodes)[l].Typed()
      ensures r == if HasKey(old(nodes)[l].cells, key) then Present
                   else if Takes(cfg.space, old(nodes)[l], Entry(key, blob)) then Placed else NoRoom
      ensures nodes == if r == Placed then EntryPages(old(nodes), l, key, blob) else old(nodes)
    {
      hide TreeOk, Represents, PagesValid, Takes, Find, HasKey, Node.Typed, Shaped, InWindow, Varint.Encode,
           Blob.Encode;
      NodeSorted(cfg, nodes, fences, root, l);
      r := PutEntry(l, key, keyBytes, value, blob);
    }

    /** The same, of pages alone. */
    method PutEntry(l: PageId, key: nat, keyBytes: seq<Byte>, value: seq<Byte>, ghost blob: seq<Byte>)
      returns (r: Added)
      requires PagesValid() && l in nodes && nodes[l].leaf && nodes[l].Typed() && Accepts(key, keyBytes, value, blob)
      requires Sorted(nodes[l].cells)
      requires forall i :: 0 <= i < |nodes[l].cells| ==> InWindow(cfg.base, nodes[l].cells[i].key)
      modifies `nodes, repr
      ensures PagesValid() && old(nodes)[l].Typed()
      ensures r == if HasKey(old(nodes)[l].cells, key) then Present
                   else if Takes(cfg.space, old(nodes)[l], Entry(key, blob)) then Placed else NoRoom
      ensures nodes == if r == Placed then EntryPages(old(nodes), l, key, blob) else old(nodes)
    {
      hide Page.Is, Takes, Find, HasKey, Node.Typed, Varint.Encode, Blob.Encode, InWindow, Sorted;
      r := InsertLeafPage(store[l], key, keyBytes, value, pageSize, nodes[l], blob, cfg.base);
      nodes := if r == Placed then EntryPages(nodes, l, key, blob) else nodes;
    }

    /** Lines 379-383 and 435-437: page l is unfixed whatever happens. */
    method InsertInLeaf(l: PageId, key: nat, keyBytes: seq<Byte>, value: seq<Byte>, ghost blob: seq<Byte>,
                        ghost lost: bool)
      returns (r: Result)
      requires Valid() && At(l, key, lost) && nodes[l].leaf && Accepts(key, keyBytes, value, blob)
      requires latches == map[l := 1]
      modifies this, repr
      ensures repr == old(repr) && root == old(root) && available == old(available)
      ensures fences == old(fences) && Capacity() == old(Capacity())
      ensures r == ResultOf(old(AheadOf(l, key, blob, lost)), available)
      ensures Outcome(r, old(contents), key, blob, old(AheadOf(l, key, blob, lost)).end)
      ensures latches == map[] && failed == (old(failed) || r == Exists)
    {
      hide TreeOk, Represents, PagesValid, HasKey, Takes, Node.Typed, Payload, Answers, Duplicated, InWindow,
           Varint.Encode, Blob.Encode, Shaped, Searchable, Capacity, AheadOf, Standing, Valid, Outcome;
      StandsAt(nodes, fences, contents, l, key, lost);
      r := PlaceEntry(l, key, keyBytes, value, blob, lost);
      failed := failed || r == Exists;
      UnfixLast(l);
    }

    lemma Settled(r: Result, before: map<nat, seq<Byte>>, key: nat, blob: seq<Byte>, end: End)
      requires r == Exists || r == NoMem ==> Valid() && contents == before
      requires r == Ok && end == Fresh ==>
                 && contents == before[key := blob] && PagesValid() && TreeOk(cfg, nodes, fences, root)
                 && Represents(nodes, contents) && Shaped(cfg, nodes, root, next)
      requires r == Ok && end == Twice ==>
                 && contents == before && PagesValid() && Searchable(cfg, nodes)
                 && Answers(nodes, root, fences, before) && Duplicated(nodes, key)
      ensures Outcome(r, before, key, blob, end)
    {
      hide PagesValid, TreeOk, Represents, Shaped, Duplicated, Answers, Searchable;
    }

    /** The same without the latch. */
    method PlaceEntry(l: PageId, key: nat, keyBytes: seq<Byte>, value: seq<Byte>, ghost blob: seq<Byte>,
                      ghost lost: bool)
      returns (r: Result)
      requires Valid() && At(l, key, lost) && l in nodes && nodes[l].leaf && Accepts(key, keyBytes, value, blob)
      modifies `nodes, `contents, repr
      ensures r == ResultOf(old(AheadOf(l, key, blob, lost)), available) && this !in repr
      ensures Outcome(r, old(contents), key, blob, old(AheadOf(l, key, blob, lost)).end)
    {
      hide TreeOk, Represents, PagesValid, HasKey, Takes, Node.Typed, Payload, EntryPages, Answers, Duplicated,
           Standing, InWindow, Varint.Encode, Blob.Encode, Ahead, Shaped, Searchable;
      StandsAt(nodes, fences, contents, l, key, lost);
      LeafFate(cfg, nodes, fences, root, contents, fix, l, key, blob, lost);
      EntryKeepsShape(cfg, nodes, root, l, key, blob, next);
      ghost var before, end := contents, AheadOf(l, key, blob, lost).end;
      var added := AddEntry(l, key, keyBytes, value, blob);
      r := match added case Present => Exists case NoRoom => Fails case Placed => Ok;
      contents := if r == Ok && !lost then contents[key := blob] else contents;
      Settled(r, before, key, blob, end);
    }

    /** What an insertion that ends so did: a fresh row is added to the map; a row that
        went in twice is not seen by any lookup; an error changes nothing. */
    ghost predicate Outcome(r: Result, before: map<nat, seq<Byte>>, key: nat, blob: seq<Byte>, end: End)
      reads `store, `nodes, `repr, `next, `available, `root, `contents, `fences, repr
    {
      && (r == Exists || r == NoMem ==> Valid() && contents == before)
      && (r == Ok && end == Fresh ==> Valid() && contents == before[key := blob])
      && (r == Ok && end == Twice ==>
            && contents == before && PagesValid() && Searchable(cfg, nodes)
            && Answers(nodes, root, fences, before) && Duplicated(nodes, key))
    }

    /** Lines 345-377 for a key that the parent does not hold: go to its child, after
        splitting it if it is full. The parent is unfixed whatever happens. */
    method StepDown(parent: PageId, index: nat, key: nat, keyBytes: seq<Byte>, value: seq<Byte>,
                    ghost blob: seq<Byte>, ghost lost: bool)
      returns (r: Result, cur: PageId, leaf: bool, ghost lost': bool)
      requires Valid() && At(parent, key, lost) && !nodes[parent].leaf && Accepts(key, keyBytes, value, blob)
      requires !HasKey(nodes[parent].cells, key) && index == Find(nodes[parent].cells, key)
      requires Admits(cfg.space, nodes[parent], Entry(key, blob)) && latches == map[parent := 1]
      modifies this, repr
      ensures fresh(repr - old(repr)) && root == old(root) && contents == old(contents)
      ensures Capacity() == old(Capacity())
      ensures r == Ok ==> Valid() && At(cur, key, lost') && fences[cur].level == old(fences)[parent].level - 1
      ensures r == Ok ==> leaf == nodes[cur].leaf && available <= old(available) && failed == old(failed)
                          && latches == map[cur := 1]
      ensures r == Ok ==>
                old(AheadOf(parent, key, blob, lost))
                == More(old(available) - available, AheadOf(cur, key, blob, lost'))
      ensures r != Ok ==> r != Exists && r == ResultOf(old(AheadOf(parent, key, blob, lost)), old(available))
      ensures r == NoMem ==> Valid() && failed && Leaked(cur, old(fences)[parent].level)
      ensures r == Ok || r == NoMem ==> SameLevels(old(fences), fences)
    {
      hide TreeOk, Represents, PagesValid, HasKey, Find, Full, Takes, Ahead, AheadInHalf, Standing, SplitKey,
           Node.Typed, SameLevels, Arity, InWindow, Payload, Varint.Encode, Blob.Encode, Shaped, Admits, Halves,
           Capacity, Valid, At, AheadOf;
      var c, full;
      c, leaf, full := TakeChild(parent, index, key, keyBytes, value, blob, lost);
      LevelsOn(fences, fences, fences);
      r, cur, lost' := Ok, c, lost;
      if full {
        r, cur, lost' := SplitAndRoute(parent, index, c, key, blob, lost);
      }
      LeaveParent(r, parent, cur);
    }

    /** Lines 352-362. */
    method TakeChild(parent: PageId, index: nat, key: nat, keyBytes: seq<Byte>, value: seq<Byte>,
                     ghost blob: seq<Byte>, ghost lost: bool)
      returns (c: PageId, leaf: bool, full: bool)
      requires Valid() && At(parent, key, lost) && !nodes[parent].leaf && Accepts(key, keyBytes, value, blob)
      requires !HasKey(nodes[parent].cells, key) && index == Find(nodes[parent].cells, key)
      requires Admits(cfg.space, nodes[parent], Entry(key, blob)) && latches == map[parent := 1]
      modifies `latches
      ensures parent in nodes && parent in fences && nodes[parent].Typed()
      ensures index < Arity(nodes[parent], fences[parent])
      ensures c == ChildId(nodes[parent], index) && c != parent && latches == map[parent := 1, c := 1]
      ensures At(c, key, lost) && c in nodes && nodes[c].Typed() && c in fences && leaf == nodes[c].leaf
      ensures fences[c].level == fences[parent].level - 1
      ensures full && cfg.space >= MIN_SPACE ==> Halves(nodes[c])
      ensures AheadOf(parent, key, blob, lost)
              == if !full then AheadOf(c, key, blob, lost)
                 else if |nodes[c].cells| < 2 then Fate(Outside, 1)
                 else if !Takes(cfg.space, nodes[parent], Sep(SplitKey(nodes[c]), c)) then Fate(Trips, 1)
                 else More(1, AheadInHalf(cfg.space, fix, nodes, nodes[c], fences[c].level, Entry(key, blob), lost))
    {
      hide TreeOk, Represents, PagesValid, HasKey, Find, Full, Takes, Ahead, AheadInHalf, Standing, SplitKey,
           Node.Typed, Arity, InWindow, Payload, Varint.Encode, Blob.Encode, Shaped, Admits, Halves;
      GoDown(cfg, nodes, fences, root, contents, fix, parent, key, blob, lost);
      c := ChildOf(parent, index);
      FixBeside(parent, c);
      leaf, full := CheckRoom(c, key, keyBytes, value, blob);
      if full {
        FullChild(cfg.space, fix, nodes[c], key, blob);
      }
    }

    /** The parent is unfixed whatever happens. */
    method LeaveParent(r: Result, parent: PageId, cur: PageId)
      requires r == Ok || (r == NoMem && !fix.cleanup) ==> parent != cur && latches == map[parent := 1, cur := 1]
      requires r == NoMem && fix.cleanup ==> latches == map[parent := 1]
      modifies `latches
      ensures r == Ok || (r == NoMem && !fix.cleanup) ==> latches == map[cur := 1]
      ensures r == NoMem && fix.cleanup ==> latches == map[]
    {
      if r == Ok || (r == NoMem && !fix.cleanup) {
        UnfixBeside(parent, cur);
      } else if r == NoMem {
        UnfixLast(parent);
      }
    }

    /** Lines 363-376. */
    method SplitAndRoute(parent: PageId, index: nat, c: PageId, key: nat, ghost blob: seq<Byte>, ghost lost: bool)
      returns (r: Result, cur: PageId, ghost lost': bool)
      requires Valid() && parent in nodes && parent in fences && !nodes[parent].leaf && nodes[parent].Typed()
      requires index < Arity(nodes[parent], fences[parent]) && c == ChildId(nodes[parent], index)
      requires At(c, key, lost) && InWindow(cfg.base, key) && Entry(key, blob).Fits() && c != parent
      requires latches == map[parent := 1, c := 1] && (cfg.space >= MIN_SPACE ==> Halves(nodes[c]))
      modifies this, repr
      ensures fresh(repr - old(repr)) && root == old(root) && contents == old(contents)
      ensures Capacity() == old(Capacity())
      ensures r == if old(available) == 0 then NoMem
                   else if |old(nodes)[c].cells| < 2 then Strays
                   else if !Takes(cfg.space, old(nodes)[parent], Sep(SplitKey(old(nodes)[c]), c)) then Fails
                   else Ok
      ensures r == Ok ==> Valid() && At(cur, key, lost') && cur != parent && SameLevels(old(fences), fences)
      ensures r == Ok ==>
                && fences[cur].level == old(fences)[c].level && nodes[cur].leaf == old(nodes)[c].leaf
                && available == old(available) - 1 && failed == old(failed) && latches == map[parent := 1, cur := 1]
                && AheadOf(cur, key, blob, lost')
                   == AheadInHalf(cfg.space, fix, old(nodes), old(nodes)[c], old(fences)[c].level,
                                  Entry(key, blob), lost)
      ensures r == NoMem ==> Valid() && nodes == old(nodes) && fences == old(fences) && failed && cur == c
                             && latches == if fix.cleanup then map[parent := 1] else map[parent := 1, c := 1]
    {
      hide TreeOk, Represents, PagesValid, Takes, Ahead, AheadInHalf, Standing, SplitPages, SplitFences, SplitKey,
           Arity, ChildId, Node.Typed, Shaped, Halves;
      ghost var before, fs := nodes, fences;
      StandsAt(nodes, fences, contents, c, key, lost);
      lost' := lost;
      var s, splitKey;
      r, s, splitKey := SplitChild(parent, index, c);
      cur := c;
      if r == NoMem {
        CleanUp(c);
      } else if r == Ok {
        AfterSplit(cfg, before, fs, root, contents, fix, parent, index, s, key, blob, lost);
        assert latches == map[parent := 1, c := 1, s := 1];
        cur := Route(parent, c, s, key, splitKey);
        lost' := GetsLost(fix, lost, key, splitKey);
      }
    }

    /** What is meant on line 365: the child is unfixed before the error is returned. */
    method CleanUp(c: PageId)
      requires c in latches && latches[c] == 1
      modifies `latches
      ensures latches == if fix.cleanup then old(latches) - {c} else old(latches)
    {
      if fix.cleanup {
        Unfix(c);
      }
    }

    /** After an ENOMEM in a walk that came from above this level: as written, the full
        page c stays latched. */
    ghost predicate Leaked(c: PageId, level: nat)
      reads `nodes, `fences, `latches
    {
      && c in nodes && c in fences && fences[c].level < level
      && latches == if fix.cleanup then map[] else map[c := 1]
    }

    /** Lines 371-376 and 427-432: the half to go on with; the other one is unfixed. */
    method Route(parent: PageId, c: PageId, s: PageId, key: nat, splitKey: nat) returns (h: PageId)
      requires InWindow(cfg.base, key) && InWindow(cfg.base, splitKey)
      requires latches == map[parent := 1, c := 1, s := 1] && parent != c && parent != s && c != s
      modifies `latches
      ensures h == Half(fix, c, s, key, splitKey) && latches == map[parent := 1, h := 1]
    {
      var order := KeyCompare(key, splitKey);
      if order < 0 || (fix.routing && order == 0) {
        Unfix(s);
        h := c;
      } else {
        Unfix(c);
        h := s;
      }
    }

    /** `btree_insert_walk`. */
    method InsertWalk(parent: PageId, key: nat, keyBytes: seq<Byte>, value: seq<Byte>, ghost blob: seq<Byte>,
                      ghost lost: bool)
      returns (r: Result)
      requires Valid() && At(parent, key, lost) && !nodes[parent].leaf && Accepts(key, keyBytes, value, blob)
      requires latches == map[parent := 1]
      modifies this, repr
      ensures fresh(repr - old(repr)) && root == old(root) && Capacity() == old(Capacity())
      ensures r == ResultOf(old(AheadOf(parent, key, blob, lost)), old(available))
      ensures Outcome(r, old(contents), key, blob, old(AheadOf(parent, key, blob, lost)).end)
      ensures r == Ok || r == Exists ==>
                latches == map[] && available == old(available) - old(AheadOf(parent, key, blob, lost)).pages
      ensures r == Ok ==> failed == old(failed)
      ensures r == Exists || r == NoMem ==> failed
      ensures r == NoMem ==> exists c :: Leaked(c, old(fences[parent].level))
      ensures r == Ok || r == Exists || r == NoMem ==> SameLevels(old(fences), fences)
      decreases fences[parent].level, 0
    {
      hide TreeOk, Represents, PagesValid, HasKey, Find, Full, Takes, Standing, Node.Typed, Payload, Answers,
           Duplicated, Ahead, Admits, Shaped, Searchable, Capacity, Outcome, SameLevels, InWindow, Varint.Encode,
           Blob.Encode;
      WalkFacts(cfg, nodes, fences, root, contents, fix, parent, key, blob, lost);
      TreeSearchable(cfg, nodes, fences, root);
      LevelsOn(fences, fences, fences);
      ghost var end := AheadOf(parent, key, blob, lost).end;
      var admits := CheckWalk(parent, key, keyBytes, value, blob);
      if !admits {
        Refused(Fails, contents, key, blob, end);
        return Fails;
      }
      var found, index := FindIn(parent, key);
      if found {
        Reject(parent);
        Refused(Exists, contents, key, blob, end);
        return Exists;
      }
      var page, leaf;
      ghost var lost';
      r, page, leaf, lost' := StepDown(parent, index, key, keyBytes, value, blob, lost);
      if r == Ok {
        StandsAt(nodes, fences, contents, page, key, lost');
        ghost var fs, level := fences, fences[page].level;
        r := Proceed(page, leaf, key, keyBytes, value, blob, lost');
        LevelsOn(old(fences), fs, fences);
        if r == NoMem {
          ghost var c :| Leaked(c, level);
          assert Leaked(c, old(fences[parent].level));
        }
      } else {
        Refused(r, contents, key, blob, end);
      }
    }

    /** Lines 347-350. */
    method Reject(parent: PageId)
      requires latches == map[parent := 1]
      modifies `latches, `failed
      ensures latches == map[] && failed
    {
      failed := true;
      UnfixLast(parent);
    }

    /** An error that changes nothing leaves what it found. */
    lemma Refused(r: Result, before: map<nat, seq<Byte>>, key: nat, blob: seq<Byte>, end: End)
      requires r != Ok && (r == Exists || r == NoMem ==> Valid() && contents == before)
      ensures Outcome(r, before, key, blob, end)
    {
      hide PagesValid, TreeOk, Represents, Shaped, Duplicated, Answers, Searchable;
    }

    /** The assertion on line 339. */
    method CheckWalk(p: PageId, key: nat, keyBytes: seq<Byte>, value: seq<Byte>, ghost blob: seq<Byte>)
      returns (ok: bool)
      requires PagesValid() && p in nodes && nodes[p].Typed() && Accepts(key, keyBytes, value, blob)
      ensures ok <==> Admits(cfg.space, nodes[p], Entry(key, blob))
    {
      hide Layout, Tight, Used;
      assert store[p].Is(nodes[p], pageSize);
      HeaderMeans(store[p].data[..], nodes[p]);
      var free := store[p].Field(FREE_SPACE_AT);
      ok := free >= TreeFate.PutLen(false, |keyBytes|, |value|);
    }

    /** Lines 379-386 and 435-440: on from a page that the walk has entered. */
    method Proceed(p: PageId, leaf: bool, key: nat, keyBytes: seq<Byte>, value: seq<Byte>, ghost blob: seq<Byte>,
                   ghost lost: bool)
      returns (r: Result)
      requires Valid() && At(p, key, lost) && leaf == nodes[p].leaf && Accepts(key, keyBytes, value, blob)
      requires latches == map[p := 1]
      modifies this, repr
      ensures fresh(repr - old(repr)) && root == old(root) && Capacity() == old(Capacity())
      ensures r == ResultOf(old(AheadOf(p, key, blob, lost)), old(available))
      ensures Outcome(r, old(contents), key, blob, old(AheadOf(p, key, blob, lost)).end)
      ensures r == Ok || r == Exists ==>
                latches == map[] && available == old(available) - old(AheadOf(p, key, blob, lost)).pages
      ensures r == Ok ==> failed == old(failed)
      ensures r == Exists || r == NoMem ==> failed
      ensures r == NoMem ==> exists c :: Leaked(c, old(fences[p].level))
      ensures r == Ok || r == Exists || r == NoMem ==> SameLevels(old(fences), fences)
      decreases fences[p].level, 1
    {
      hide TreeOk, Represents, PagesValid, HasKey, Find, Full, Takes, Node.Typed, Payload, Answers, Duplicated, Ahead,
           Shaped, Searchable, Capacity;
      LevelsOn(fences, fences, fences);
      if leaf {
        NoPages(cfg.space, fix, nodes, nodes[p], fences[p].level, Entry(key, blob), lost);
        r := InsertInLeaf(p, key, keyBytes, value, blob, lost);
      } else {
        r := InsertWalk(p, key, keyBytes, value, blob, lost);
      }
    }

    /** Lines 399-425: a full root is split under a new root. With memory for only one
        of the two pages the split stays behind, and the new page s is not linked to. */
    method SplitRoot() returns (r: Result, s: PageId, splitKey: nat)
      requires Valid() && root in nodes && nodes[root].Typed() && latches == map[root := 1]
      requires cfg.space >= MIN_SPACE ==> Halves(nodes[root])
      modifies this, repr
      ensures fresh(repr - old(repr)) && contents == old(contents) && Capacity() == old(Capacity())
      ensures r == if old(available) == 0 then NoMem
                   else if |old(nodes)[old(root)].cells| < 2 then Strays
                   else if old(available) == 1 then NoMem
                   else Ok
      ensures r == Ok ==> Valid() && available == old(available) - 2 && splitKey == SplitKey(old(nodes)[old(root)])
      ensures r == Ok ==> NewIds(old(nodes), root, s) && old(root) in old(nodes) && old(root) in old(fences)
      ensures r == Ok ==> nodes == GrownPages(old(nodes), old(root), root, s)
      ensures r == Ok ==> fences == GrownFences(old(fences), old(root), root, s, splitKey)
      ensures r == Ok ==> latches == map[root := 1, old(root) := 1, s := 1] && failed == old(failed)
      ensures r == Ok ==> CutAt(old(nodes)[old(root)], nodes, old(root), s, splitKey)
      ensures r == NoMem ==> root == old(root) && fences == old(fences) && failed
      ensures r == NoMem && old(available) == 0 ==> Valid() && nodes == old(nodes) && latches == map[root := 1]
      ensures r == NoMem && old(available) == 1 ==>
                && PagesValid() && s !in old(nodes) && 0 < s < MAX_ID && Torn(old(nodes), root, s, nodes)
                && latches == if fix.cleanup then map[root := 1] else map[root := 1, s := 1]
    {
      hide TreeOk, Represents, PagesValid, SplitKey, GrownPages, GrownFences, TornPages, Torn, Node.Typed, Used,
           Shaped, Halves, CutAt;
      RootBounds(cfg, nodes, fences, root);
      ghost var before := nodes;
      RootFits(cfg, nodes, fences, root);
      var t;
      r, t, s, splitKey := SplitRootPages();
      if r == Ok {
        RootStep(cfg, before, fences, root, contents, t, s);
        GrownCuts(before, root, t, s);
        LatchesOf(root, s, t);
        GrowKeepsShape(cfg, before, root, t, s, next - 2);
        fences := GrownFences(fences, root, t, s, splitKey);
        root := t;
      } else if r == NoMem && old(available) == 1 {
        LatchesOf(root, s, s);
      }
    }

    /** The same on the pages themselves. */
    method SplitRootPages() returns (r: Result, t: PageId, s: PageId, splitKey: nat)
      requires PagesValid() && root in nodes && root < MAX_ID && latches.Keys <= nodes.Keys
      requires nodes[root].Typed() && Used(nodes[root].cells) <= cfg.space
      modifies `store, `repr, `nodes, `next, `available, `latches, `failed, repr
      ensures fresh(repr - old(repr)) && Capacity() == old(Capacity())
      ensures r == if old(available) == 0 then NoMem
                   else if |old(nodes)[root].cells| < 2 then Strays
                   else if old(available) == 1 then NoMem
                   else Ok
      ensures r == Ok ==>
                && PagesValid() && available == old(available) - 2 && failed == old(failed)
                && NewIds(old(nodes), t, s) && splitKey == SplitKey(old(nodes)[root])
                && nodes == GrownPages(old(nodes), root, t, s)
                && latches == old(latches)[s := 1][t := 1]
      ensures r == NoMem ==> failed
      ensures r == NoMem && old(available) == 0 ==>
                PagesValid() && nodes == old(nodes) && repr == old(repr) && available == 0 && latches == old(latches)
      ensures r == NoMem && old(available) == 1 ==>
                && PagesValid() && s !in old(nodes) && 0 < s < MAX_ID && Torn(old(nodes), root, s, nodes)
                && latches == if fix.cleanup then old(latches)[s := 1] - {s} else old(latches)[s := 1]
    {
      hide PagesValid, SplitKey, LeftHalf, RightHalf, Cost, Varint.Encode, Used, Node.Typed, Takes;
      if |nodes[root].cells| >= 2 {
        RootSepFits(cfg.space, nodes[root], root);
      }
      t := 0;
      var bytes;
      r, s, splitKey, bytes := TearOff(root);
      if r == Ok {
        var ok;
        ok, t := AddRootPage(splitKey, bytes, root, s);
        if !ok {
          CleanUp(s);
          r := NoMem;
        }
      }
    }

    /** Lines 406-422. */
    method AddRootPage(key: nat, bytes: seq<Byte>, left: PageId, right: PageId) returns (ok: bool, t: PageId)
      requires PagesValid() && key < U64 && bytes == Varint.Encode(key) && left < MAX_ID && right < MAX_ID
      requires Cost(Sep(key, left)) <= cfg.space && latches.Keys <= nodes.Keys
      modifies `store, `repr, `nodes, `next, `available, `latches, `failed
      ensures fresh(repr - old(repr)) && PagesValid() && (ok <==> old(available) > 0)
      ensures available == if ok then old(available) - 1 else 0
      ensures Capacity() == old(Capacity())
      ensures ok ==> t !in old(nodes) && 0 < t < MAX_ID && latches == old(latches)[t := 1] && failed == old(failed)
      ensures !ok ==> latches == old(latches) && failed
      ensures nodes == if ok then old(nodes)[t := Node(false, [Sep(key, left)], right)] else old(nodes)
    {
      hide PagesValid, Cost, Varint.Encode;
      var page;
      ok, t, page := NextPage();
      if ok {
        InitRootPage(page, key, bytes, left, right, pageSize, cfg);
        Install(t, page, Node(false, [Sep(key, left)], right));
      }
    }

    /** Lines 397-434: the page at the root's old level that the insertion goes on in,
        after splitting the root if it is full. */
    method EnterRoot(key: nat, keyBytes: seq<Byte>, value: seq<Byte>, ghost blob: seq<Byte>)
      returns (r: Result, page: PageId, leaf: bool, ghost lost: bool)
      requires Valid() && Accepts(key, keyBytes, value, blob) && latches == map[root := 1]
      requires root in nodes && root in fences && nodes[root].Typed()
      modifies this, repr
      ensures fresh(repr - old(repr)) && contents == old(contents) && Capacity() == old(Capacity())
      ensures r == Ok ==> root in fences && fences[root].level <= old(fences[root].level) + 1
      ensures r == Ok ==> Valid() && At(page, key, lost) && fences[page].level == old(fences[root].level)
      ensures r == Ok ==> leaf == nodes[page].leaf && available <= old(available) && failed == old(failed)
                          && latches == map[page := 1] && (page == old(root) || page !in old(nodes))
      ensures r == Ok ==> old(Foreseen(key, blob)) == More(old(available) - available, AheadOf(page, key, blob, lost))
      ensures r == Ok && old(FullAtRoot(key, blob)) ==> old(available) >= 2
      ensures r != Ok ==> r != Exists && r == ResultOf(old(Foreseen(key, blob)), old(available))
      ensures r == NoMem ==> old(FullAtRoot(key, blob)) && root == old(root) && fences == old(fences)
      ensures r == NoMem ==> page == root && failed
      ensures r == NoMem && old(available) == 0 ==> Valid() && latches == map[root := 1]
      ensures r == NoMem && old(available) != 0 ==> old(available) == 1 && TornOff(old(nodes), map[root := 1])
    {
      hide TreeOk, Represents, PagesValid, HasKey, Find, Full, Takes, Ahead, Standing, Node.Typed, SplitKey,
           GrownPages, GrownFences, TornPages, Torn, AheadInHalf, Shaped, Halves, Capacity, CutAt, SameLevels;
      ghost var before, fs, top := nodes, fences, root;
      RootStands(cfg, nodes, fences, root, contents, key);
      var full;
      page, r, lost := root, Ok, false;
      leaf, full := CheckRoom(root, key, keyBytes, value, blob);
      if full {
        FullChild(cfg.space, fix, nodes[root], key, blob);
        var s, splitKey;
        r, s, splitKey := SplitRoot();
        if r != Ok {
          return;
        }
        AfterRootSplit(cfg, before, fs, top, contents, fix, root, s, key, blob);
        page := Route(root, page, s, key, splitKey);
        lost := GetsLost(fix, false, key, splitKey);
        UnfixBeside(root, page);
      }
    }

    /** The root is torn, and the other half s stays latched as written. */
    ghost predicate TornOff(before: Pages, held: Latches)
      reads `store, `nodes, `repr, `next, `available, `root, `latches, repr
    {
      && PagesValid()
      && exists s: PageId :: s !in before && 0 < s < MAX_ID && Torn(before, root, s, nodes)
                && latches == if fix.cleanup then held else held[s := 1]
    }

    /** What lookups answer then, one hop more being allowed. */
    ghost predicate TornLooks(before: Pages, m: map<nat, seq<Byte>>)
      reads `nodes, `fences, `root, `latches
    {
      && Searchable(cfg, nodes) && root in before && root in fences && |before[root].cells| >= 2
      && var latched, hops := latches.Keys, fences[root].level + 1;
         forall k: nat :: Search(nodes, latched, root, k, hops) == TornAnswer(before, root, m, !fix.cleanup, k)
    }

    ghost predicate FullAtRoot(key: nat, blob: seq<Byte>)
      requires root in nodes && nodes[root].Typed() && Entry(key, blob).Fits()
      reads `nodes, `root
    {
      Full(cfg.space, fix, nodes[root], Entry(key, blob))
    }

    /** `btree_insert`. The answer is the foreseen one; what is foreseen follows from
        what is stored (`TreeFate.EndFromRoot`). */
    method Insert(key: nat, keyBytes: seq<Byte>, value: seq<Byte>, ghost blob: seq<Byte>) returns (r: Result)
      requires Valid() && Accepts(key, keyBytes, value, blob) && latches == map[]
      modifies this, repr
      ensures fresh(repr - old(repr))
      ensures old(root in nodes && root in fences && nodes[root].Typed())
      ensures r == ResultOf(old(Foreseen(key, blob)), old(available))
      ensures !(r == NoMem && old(FullAtRoot(key, blob) && available == 1)) ==>
                Outcome(r, old(contents), key, blob, old(Foreseen(key, blob)).end)
      ensures r == NoMem && old(FullAtRoot(key, blob) && available == 1) ==>
                && root == old(root) && fences == old(fences)
                && TornOff(old(nodes), map[]) && TornLooks(old(nodes), old(contents))
      ensures r == NoMem && old(FullAtRoot(key, blob) && available == 0) ==> latches == map[]
      ensures r == NoMem && !old(FullAtRoot(key, blob) && available <= 1) ==>
                if fix.cleanup then latches == map[]
                else exists c :: c != entered && c in nodes && latches == map[c := 1, entered := -1]
      ensures r == Exists ==> latches == if fix.cleanup then map[] else map[entered := -1]
      ensures r == Ok ==> latches == if fix.cleanup || !old(failed) then map[] else map[entered := -1]
      ensures r == Ok || r == Exists || r == NoMem ==> entered == old(root) || entered !in old(nodes)
      ensures r == Ok || r == Exists || r == NoMem ==>
                (latches == map[]
                 <==> fix.cleanup || (r == Ok && !old(failed)) || old(FullAtRoot(key, blob) && available == 0))
      ensures r == Ok ==> failed == old(failed)
      ensures r == Exists || r == NoMem ==> failed
      ensures Capacity() == old(Capacity())
      ensures r == Ok || r == Exists ==> available == old(available) - old(Foreseen(key, blob)).pages
      ensures r == Ok || r == Exists ==> root in fences && fences[root].level <= old(fences[root].level) + 1
    {
      hide TreeOk, Represents, PagesValid, HasKey, Full, Standing, Node.Typed, Payload, Torn, Ahead, FromRoot,
           Answers, Duplicated, Shaped, Searchable, Capacity, TornLooks, TornOff, Valid, At, AheadOf, Foreseen,
           FullAtRoot, Outcome;
      ghost var before, m := nodes, contents;
      AtRoot(key);
      ghost var end := Foreseen(key, blob).end;
      Fix(root);
      var page, leaf;
      ghost var lost;
      r, page, leaf, lost := EnterRoot(key, keyBytes, value, blob);
      if r == Ok {
        r := Finish(page, leaf, key, keyBytes, value, blob, lost);
      } else if r == NoMem {
        Fail(before, old(available) == 1);
        if old(available) == 1 {
          LooksTorn(before, contents);
        } else {
          Refused(r, m, key, blob, end);
        }
      } else {
        Refused(r, m, key, blob, end);
      }
      entered := page;
    }

    lemma AtRoot(key: nat)
      requires Valid()
      ensures root in nodes && root in fences && nodes[root].Typed() && At(root, key, false)
      ensures TreeOk(cfg, nodes, fences, root) && Represents(nodes, contents)
    {
      hide TreeOk, Represents, PagesValid, Standing, Node.Typed;
      RootStands(cfg, nodes, fences, root, contents, key);
    }

    lemma LooksTorn(before: Pages, m: map<nat, seq<Byte>>)
      requires TreeOk(cfg, before, fences, root) && Represents(before, m) && TornOff(before, map[])
      ensures TornLooks(before, m)
    {
      hide TreeOk, Represents, PagesValid, Search, Searchable, TornPages, TornAnswer;
      var s: PageId :| s !in before && 0 < s < MAX_ID && Torn(before, root, s, nodes)
                       && latches == if fix.cleanup then map[] else map[s := 1];
      RootRange(cfg, before, fences, root);
      TornSearchable(cfg, before, fences, root, s);
      assert latches.Keys == if !fix.cleanup then {s} else {};
      var latched, hops := latches.Keys, fences[root].level + 1;
      forall k: nat ensures Search(nodes, latched, root, k, hops) == TornAnswer(before, root, m, !fix.cleanup, k) {
        TornRoot(cfg, before, fences, root, m, s, !fix.cleanup, k, hops);
      }
    }

    /** The return on line 401 or 407: the root is unfixed. */
    method Fail(ghost before: Pages, ghost torn: bool)
      requires failed && (!torn ==> latches == map[root := 1])
      requires torn ==> root in before && TornOff(before, map[root := 1])
      modifies `latches
      ensures if torn then TornOff(before, map[]) && (latches == map[] <==> fix.cleanup) else latches == map[]
    {
      hide Torn, PagesValid;
      ghost var held := latches;
      ErrDefer(root, true);
      if torn {
        TornEven(before, held);
      }
    }

    /** The rest of the insertion, from the page that it has entered. */
    method Finish(p: PageId, leaf: bool, key: nat, keyBytes: seq<Byte>, value: seq<Byte>, ghost blob: seq<Byte>,
                  ghost lost: bool)
      returns (r: Result)
      requires Valid() && At(p, key, lost) && leaf == nodes[p].leaf && Accepts(key, keyBytes, value, blob)
      requires latches == map[p := 1]
      modifies this, repr
      ensures fresh(repr - old(repr)) && root == old(root) && Capacity() == old(Capacity())
      ensures r == ResultOf(old(AheadOf(p, key, blob, lost)), old(available))
      ensures Outcome(r, old(contents), key, blob, old(AheadOf(p, key, blob, lost)).end)
      ensures r == Exists ==> latches == if fix.cleanup then map[] else map[p := -1]
      ensures r == Ok ==> latches == if fix.cleanup || !old(failed) then map[] else map[p := -1]
      ensures r == NoMem ==>
                if fix.cleanup then latches == map[]
                else exists c: PageId :: c != p && c in nodes && latches == map[c := 1, p := -1]
      ensures r == Ok || r == Exists || r == NoMem ==>
                (latches == map[] <==> fix.cleanup || (r == Ok && !old(failed)))
      ensures r == Ok ==> failed == old(failed)
      ensures r == Exists || r == NoMem ==> failed
      ensures r == Ok || r == Exists ==> available == old(available) - old(AheadOf(p, key, blob, lost)).pages
      ensures r == Ok || r == Exists ==> SameLevels(old(fences), fences)
    {
      hide TreeOk, Represents, PagesValid, Standing, Answers, Duplicated, Ahead, Shaped, Searchable, SameLevels,
           Capacity;
      StandsAt(nodes, fences, contents, p, key, lost);
      ghost var level := fences[p].level;
      r := Proceed(p, leaf, key, keyBytes, value, blob, lost);
      if r == NoMem {
        ghost var c :| Leaked(c, level);
        SameLevelAt(old(fences), fences, p);
        EvenOut(c, p);
      }
      assert p in map[p := -1];
      if r != Fails && r != Strays {
        ErrDefer(p, false);
      }
    }

    lemma TornEven(before: Pages, held: Latches)
      requires root in before && latches == Shift(held, root, -1)
      requires PagesValid()
      requires exists s: PageId :: s !in before && 0 < s < MAX_ID && Torn(before, root, s, nodes)
                           && held == if fix.cleanup then map[root := 1] else map[root := 1, s := 1]
      ensures TornOff(before, map[]) && (latches == map[] <==> fix.cleanup)
    {
      hide PagesValid, Torn;
      var s: PageId :| s !in before && 0 < s < MAX_ID && Torn(before, root, s, nodes)
               && held == if fix.cleanup then map[root := 1] else map[root := 1, s := 1];
      assert latches == if fix.cleanup then map[] else map[s := 1];
      assert s in map[s := 1];
    }

    lemma EvenOut(c: PageId, page: PageId)
      requires page in fences && Leaked(c, fences[page].level)
      ensures c != page && c in nodes
      ensures if fix.cleanup then latches == map[] else Shift(latches, page, -1) == map[c := 1, page := -1] != map[]
    {
      assert page in map[c := 1, page := -1];
    }

    /** Line 395. As meant, it is for the errors before line 435 alone. */
    method ErrDefer(p: PageId, early: bool)
      modifies `latches
      ensures latches == if (if fix.cleanup then early else failed) then Shift(old(latches), p, -1) else old(latches)
    {
      if if fix.cleanup then early else failed {
        Unfix(p);
      }
    }
  }

  /** Node n is cut in the middle into pages c and s, and the key handed up is the last
      one that stays. */
  ghost predicate CutAt(n: Node, nodes: Pages, c: PageId, s: PageId, splitKey: nat) {
    && c in nodes && s in nodes
    && var l, r := nodes[c], nodes[s];
       && l.cells + r.cells == n.cells && 1 <= |l.cells| <= |r.cells| <= |l.cells| + 1
       && l.cells[|l.cells| - 1].key == splitKey && l.right == s && r.right == n.right
  }

  lemma SplitCuts(nodes: Pages, p: PageId, i: nat, c: PageId, s: PageId)
    requires p in nodes && c in nodes && |nodes[c].cells| >= 2 && p != c && s != c && s !in nodes
    requires i <= |nodes[p].cells| && (i < |nodes[p].cells| ==> nodes[p].cells[i].Sep?)
    ensures CutAt(nodes[c], SplitPages(nodes, p, i, c, s), c, s, SplitKey(nodes[c]))
  {
    hide InsertSep;
    CutInMiddle(nodes[c], s);
  }

  lemma GrownCuts(nodes: Pages, root: PageId, t: PageId, s: PageId)
    requires root in nodes && |nodes[root].cells| >= 2 && NewIds(nodes, t, s)
    ensures CutAt(nodes[root], GrownPages(nodes, root, t, s), root, s, SplitKey(nodes[root]))
  {
    CutInMiddle(nodes[root], s);
  }

  function Half(fix: Repairs, c: PageId, s: PageId, key: nat, splitKey: nat): PageId {
    if Left(fix, key, splitKey) then c else s
  }

  /** A walk stands at page p, with the key in its range, or lost at the lower end. */
  ghost predicate Standing(nodes: Pages, fs: Fences, m: map<nat, seq<Byte>>, p: PageId, key: nat, lost: bool) {
    p in nodes && p in fs && nodes[p].Typed() && Stands(fs[p], key, lost) && (lost ==> key in m)
  }

  /** With no page latched, every lookup answers as m does. */
  ghost predicate Answers(nodes: Pages, root: PageId, fs: Fences, m: map<nat, seq<Byte>>) {
    root in fs && forall k: nat :: Search(nodes, {}, root, k, fs[root].level) == AnswerOf(m, k)
  }

  /** The root is split, and nothing leads to its upper half s but its own `right`. */
  ghost predicate Torn(before: Pages, root: PageId, s: PageId, after: Pages) {
    root in before && |before[root].cells| >= 2 && after == TornPages(before, root, s)
  }

  /** No page is missing or superfluous, and the tree is as bushy as its pages allow. */
  ghost predicate Shaped(cfg: Config, nodes: Pages, root: PageId, next: PageId) {
    |nodes| == next - 1 && (cfg.space >= MIN_SPACE ==> Bushy(nodes, root))
  }

  function BlobOf(a: Answer): Option<seq<Byte>> {
    if a.Hit? then Some(a.blob) else None
  }

  predicate SameLevels(fs: Fences, fs': Fences) {
    forall p :: p in fs ==> p in fs' && fs'[p].level == fs[p].level
  }

  lemma LatchesOf(p: PageId, s: PageId, t: PageId)
    requires p != s && p != t
    ensures var l: Latches := map[p := 1]; l[s := 1] - {s} == l && l[s := 1] == map[p := 1, s := 1]
    ensures s != t ==> var l: Latches := map[p := 1]; l[s := 1][t := 1] == map[t := 1, p := 1, s := 1]
  {
  }

  lemma LevelsOn(a: Fences, b: Fences, c: Fences)
    ensures SameLevels(a, a)
    ensures SameLevels(a, b) && SameLevels(b, c) ==> SameLevels(a, c)
  {
  }

  lemma SameLevelAt(a: Fences, b: Fences, p: PageId)
    requires SameLevels(a, b) && p in a
    ensures p in b && b[p].level == a[p].level
  {
  }

  // ------------------------------------------------------------------- the shape

  lemma FullChild(space: nat, fix: Repairs, n: Node, key: nat, blob: seq<Byte>)
    requires n.Typed() && Entry(key, blob).Fits() && Full(space, fix, n, Entry(key, blob))
    ensures space >= MIN_SPACE ==> Halves(n)
  {
    hide Full;
    if space >= MIN_SPACE {
      FullHalves(space, fix, n, Entry(key, blob));
    }
  }

  lemma SplitKeepsShape(cfg: Config, nodes: Pages, fs: Fences, root: PageId, p: PageId, i: nat, s: PageId, next: PageId)
    requires CanSplit(cfg, nodes, fs, root, p, i, s) && (i < |nodes[p].cells| ==> nodes[p].cells[i].Sep?)
    requires Shaped(cfg, nodes, root, next) && (cfg.space >= MIN_SPACE ==> Halves(nodes[ChildId(nodes[p], i)]))
    ensures Shaped(cfg, SplitPages(nodes, p, i, ChildId(nodes[p], i), s), root, next + 1)
  {
    hide TreeOk, Bushy, Halves, Takes, SplitPages;
    if cfg.space >= MIN_SPACE {
      SplitKeepsBushy(cfg, nodes, fs, root, p, i, s);
    }
    SplitSize(nodes, p, i, ChildId(nodes[p], i), s);
  }

  lemma SplitSize(nodes: Pages, p: PageId, i: nat, c: PageId, s: PageId)
    requires p in nodes && c in nodes && |nodes[c].cells| >= 2 && s !in nodes
    requires i <= |nodes[p].cells| && (i < |nodes[p].cells| ==> nodes[p].cells[i].Sep?)
    ensures |SplitPages(nodes, p, i, c, s)| == |nodes| + 1
  {
    assert SplitPages(nodes, p, i, c, s).Keys == nodes.Keys + {s};
  }

  lemma GrowKeepsShape(cfg: Config, nodes: Pages, root: PageId, t: PageId, s: PageId, next: PageId)
    requires root in nodes && |nodes[root].cells| >= 2 && NewIds(nodes, t, s)
    requires Shaped(cfg, nodes, root, next) && (cfg.space >= MIN_SPACE ==> Halves(nodes[root]))
    ensures Shaped(cfg, GrownPages(nodes, root, t, s), t, next + 2)
  {
    hide Bushy, Halves, GrownPages;
    GrowKeepsBushy(nodes, root, t, s);
  }

  lemma EntryKeepsShape(cfg: Config, nodes: Pages, root: PageId, l: PageId, key: nat, blob: seq<Byte>, next: PageId)
    requires l in nodes && nodes[l].leaf && Shaped(cfg, nodes, root, next)
    ensures Shaped(cfg, EntryPages(nodes, l, key, blob), root, next)
  {
    hide Bushy, EntryPages;
    EntryKeepsBushy(nodes, root, l, key, blob);
  }

  // ------------------------------------------------------------------- the walk

  lemma GoDown(cfg: Config, nodes: Pages, fs: Fences, root: PageId, m: map<nat, seq<Byte>>, fix: Repairs,
               p: PageId, key: nat, blob: seq<Byte>, lost: bool)
    requires TreeOk(cfg, nodes, fs, root) && Represents(nodes, m) && Standing(nodes, fs, m, p, key, lost)
    requires !nodes[p].leaf && !HasKey(nodes[p].cells, key) && Entry(key, blob).Fits()
    requires Admits(cfg.space, nodes[p], Entry(key, blob))
    ensures p in nodes && p in fs && nodes[p].Typed() && fs[p].level > 0
              && Find(nodes[p].cells, key) < Arity(nodes[p], fs[p])
    ensures var c := Next(nodes[p], key); var e := Entry(key, blob);
            && Standing(nodes, fs, m, c, key, lost) && c in nodes && nodes[c].Typed() && c in fs && c != p
            && fs[c].level == fs[p].level - 1
            && Ahead(cfg.space, fix, nodes, nodes[p], fs[p].level, e, lost)
               == if !Full(cfg.space, fix, nodes[c], e) then
                    Ahead(cfg.space, fix, nodes, nodes[c], fs[c].level, e, lost)
                  else if |nodes[c].cells| < 2 then Fate(Outside, 1)
                  else if !Takes(cfg.space, nodes[p], Sep(SplitKey(nodes[c]), c)) then Fate(Trips, 1)
                  else More(1, AheadInHalf(cfg.space, fix, nodes, nodes[c], fs[c].level, e, lost))
  {
    hide PageOk, RootOk, Disjoint, Represents, HasKey, Find, Full, Takes, Admits, SplitKey, AheadInHalf;
    PageLeads(cfg, nodes, fs, root, m, p, key, lost);
    if lost {
      DescendAtLowEnd(cfg, nodes, fs, root, p, key);
    } else {
      Descend(cfg, nodes, fs, root, p, key);
    }
    NodeSorted(cfg, nodes, fs, root, Next(nodes[p], key));
  }

  lemma WalkFacts(cfg: Config, nodes: Pages, fs: Fences, root: PageId, m: map<nat, seq<Byte>>, fix: Repairs,
                  p: PageId, key: nat, blob: seq<Byte>, lost: bool)
    requires TreeOk(cfg, nodes, fs, root) && Represents(nodes, m) && Standing(nodes, fs, m, p, key, lost)
    requires !nodes[p].leaf && Entry(key, blob).Fits()
    ensures p in nodes && p in fs && nodes[p].Typed() && fs[p].level > 0
    ensures Ahead(cfg.space, fix, nodes, nodes[p], fs[p].level, Entry(key, blob), lost)
            == if !Admits(cfg.space, nodes[p], Entry(key, blob)) then Fate(Trips, 0)
               else if HasKey(nodes[p].cells, key) then Fate(Found, 0)
               else Ahead(cfg.space, fix, nodes, nodes[p], fs[p].level, Entry(key, blob), lost)
  {
    hide RootOk, Disjoint, Represents, HasKey, Takes, Full, Admits;
    NodeSorted(cfg, nodes, fs, root, p);
  }

  lemma StandsAt(nodes: Pages, fs: Fences, m: map<nat, seq<Byte>>, p: PageId, key: nat, lost: bool)
    requires Standing(nodes, fs, m, p, key, lost)
    ensures p in nodes && p in fs && nodes[p].Typed()
  {
  }

  lemma NoPages(space: nat, fix: Repairs, nodes: Pages, n: Node, level: nat, e: Cell, lost: bool)
    requires n.Typed() && n.leaf && e.Entry? && e.Fits()
    ensures Ahead(space, fix, nodes, n, level, e, lost).pages == 0
  {
  }

  /** The end of a walk in leaf l, and what adding the entry does to the tree. */
  lemma LeafFate(cfg: Config, nodes: Pages, fs: Fences, root: PageId, m: map<nat, seq<Byte>>, fix: Repairs,
                 l: PageId, key: nat, blob: seq<Byte>, lost: bool)
    requires TreeOk(cfg, nodes, fs, root) && Represents(nodes, m) && Standing(nodes, fs, m, l, key, lost)
    requires nodes[l].leaf && InWindow(cfg.base, key) && Entry(key, blob).Fits()
    ensures l in nodes && l in fs && nodes[l].Typed()
    ensures var found, room := HasKey(nodes[l].cells, key), Takes(cfg.space, nodes[l], Entry(key, blob));
            var nodes' := EntryPages(nodes, l, key, blob);
            && Ahead(cfg.space, fix, nodes, nodes[l], fs[l].level, Entry(key, blob), lost)
               == Fate(if found then Found else if !room then Trips else if lost then Twice else Fresh, 0)
            && (!found && room && !lost ==> TreeOk(cfg, nodes', fs, root) && Represents(nodes', m[key := blob]))
            && (!found && lost ==>
                  Searchable(cfg, nodes') && Answers(nodes', root, fs, m) && Duplicated(nodes', key))
  {
    hide TreeOk, Represents, HasKey, Takes, Node.Typed, Search, Duplicated, Searchable;
    if lost {
      Unseen(cfg, nodes, fs, root, m, l, key, blob);
    } else {
      LeafDecides(cfg, nodes, fs, root, m, l, key);
      if !HasKey(nodes[l].cells, key) && Takes(cfg.space, nodes[l], Entry(key, blob)) {
        EntryKeepsTree(cfg, nodes, fs, root, l, key, blob);
        EntryAddsBinding(nodes, l, key, blob, m);
      }
    }
  }

  lemma Unseen(cfg: Config, nodes: Pages, fs: Fences, root: PageId, m: map<nat, seq<Byte>>, l: PageId, key: nat,
               blob: seq<Byte>)
    requires TreeOk(cfg, nodes, fs, root) && Represents(nodes, m) && Standing(nodes, fs, m, l, key, true)
    requires nodes[l].leaf && InWindow(cfg.base, key) && Entry(key, blob).Fits()
    ensures Searchable(cfg, EntryPages(nodes, l, key, blob))
    ensures Answers(EntryPages(nodes, l, key, blob), root, fs, m) && Duplicated(EntryPages(nodes, l, key, blob), key)
  {
    hide TreeOk, Represents, HasKey, Node.Typed, Search, Duplicated, EntryPages, Searchable;
    LostEntry(cfg, nodes, fs, root, m, l, key, blob);
    DoubleSearchable(cfg, nodes, fs, root, l, key, blob);
    RootRange(cfg, nodes, fs, root);
    forall k: nat ensures Search(EntryPages(nodes, l, key, blob), {}, root, k, fs[root].level) == AnswerOf(m, k) {
      TwiceIsUnseen(cfg, nodes, fs, root, m, l, key, blob, k, fs[root].level);
    }
  }

  /** The half that the walk goes on with is where it should be, and has ahead of it
      what was ahead before the split. */
  lemma AfterSplit(cfg: Config, nodes: Pages, fs: Fences, root: PageId, m: map<nat, seq<Byte>>, fix: Repairs,
                   p: PageId, i: nat, s: PageId, key: nat, blob: seq<Byte>, lost: bool)
    requires CanSplit(cfg, nodes, fs, root, p, i, s) && (i < |nodes[p].cells| ==> nodes[p].cells[i].Sep?)
    requires Represents(nodes, m) && Entry(key, blob).Fits()
    requires var c := ChildId(nodes[p], i); c in fs && Standing(nodes, fs, m, c, key, lost)
    ensures var c := ChildId(nodes[p], i); var sk := SplitKey(nodes[c]); var e := Entry(key, blob);
            var nodes', fs' := SplitPages(nodes, p, i, c, s), SplitFences(fs, c, sk, s);
            var h, lost' := Half(fix, c, s, key, sk), GetsLost(fix, lost, key, sk);
            && c != p && c != s && p != s && InWindow(cfg.base, sk) && SameLevels(fs, fs')
            && Standing(nodes', fs', m, h, key, lost')
            && fs'[h].level == fs[c].level && nodes'[h].leaf == nodes[c].leaf
            && Ahead(cfg.space, fix, nodes', nodes'[h], fs'[h].level, e, lost')
               == AheadInHalf(cfg.space, fix, nodes, nodes[c], fs[c].level, e, lost)
  {
    hide TreeOk, Represents, SplitKey, Node.Typed, Ahead, AheadInHalf, Takes, CanSplit, SplitPages, SplitFences,
         Standing;
    SplitShape(cfg, nodes, fs, root, p, i, s);
    HalfStands(cfg, nodes, fs, root, m, fix, p, i, s, key, lost);
    HalfAhead(cfg, nodes, fs, root, m, fix, p, i, s, key, blob, lost);
  }

  lemma SplitShape(cfg: Config, nodes: Pages, fs: Fences, root: PageId, p: PageId, i: nat, s: PageId)
    requires CanSplit(cfg, nodes, fs, root, p, i, s) && (i < |nodes[p].cells| ==> nodes[p].cells[i].Sep?)
    ensures var c := ChildId(nodes[p], i);
            && c in fs && c != p && c != s && p != s && InWindow(cfg.base, SplitKey(nodes[c]))
            && (var fs' := SplitFences(fs, c, SplitKey(nodes[c]), s);
                SameLevels(fs, fs') && fs'[s].level == fs[c].level)
            && (var nodes' := SplitPages(nodes, p, i, c, s);
                c in nodes' && s in nodes' && nodes'[c] == LeftHalf(nodes[c], s) && nodes'[s] == RightHalf(nodes[c])
                && forall q :: q in nodes && q in fs && fs[q].level < fs[c].level ==>
                                 q in nodes' && nodes'[q] == nodes[q])
  {
    hide PageOk, RootOk, Disjoint, InsertSep, SplitKey, Node.Typed, LeftHalf, RightHalf, Takes;
    var c: PageId := ChildId(nodes[p], i);
    ChildFacts(cfg, nodes, fs, root, p, i);
    NodeSorted(cfg, nodes, fs, root, c);
    SplitKeyOk(cfg, nodes[c], fs[c]);
  }

  lemma HalfStands(cfg: Config, nodes: Pages, fs: Fences, root: PageId, m: map<nat, seq<Byte>>, fix: Repairs,
                   p: PageId, i: nat, s: PageId, key: nat, lost: bool)
    requires CanSplit(cfg, nodes, fs, root, p, i, s) && (i < |nodes[p].cells| ==> nodes[p].cells[i].Sep?)
    requires Represents(nodes, m)
    requires var c := ChildId(nodes[p], i); c in fs && Standing(nodes, fs, m, c, key, lost)
    ensures var c := ChildId(nodes[p], i); var sk := SplitKey(nodes[c]);
            var nodes', fs' := SplitPages(nodes, p, i, c, s), SplitFences(fs, c, sk, s);
            var h, lost' := Half(fix, c, s, key, sk), GetsLost(fix, lost, key, sk);
            && Standing(nodes', fs', m, h, key, lost') && fs'[h].level == fs[c].level && nodes'[h].leaf == nodes[c].leaf
  {
    hide PageOk, RootOk, Disjoint, Represents, InsertSep, SplitKey, Node.Typed, LeftHalf, RightHalf, Takes;
    var c: PageId := ChildId(nodes[p], i);
    SplitShape(cfg, nodes, fs, root, p, i, s);
    HalfLeads(cfg, nodes, fs, root, m, fix, c, key, lost, s);
    SplitKeyStored(cfg, nodes, fs, root, m, c);
    HalfLeaf(nodes[c], s);
  }

  lemma HalfAhead(cfg: Config, nodes: Pages, fs: Fences, root: PageId, m: map<nat, seq<Byte>>, fix: Repairs,
                  p: PageId, i: nat, s: PageId, key: nat, blob: seq<Byte>, lost: bool)
    requires CanSplit(cfg, nodes, fs, root, p, i, s) && (i < |nodes[p].cells| ==> nodes[p].cells[i].Sep?)
    requires Represents(nodes, m) && Entry(key, blob).Fits()
    requires var c := ChildId(nodes[p], i); c in fs && Standing(nodes, fs, m, c, key, lost)
    ensures var c := ChildId(nodes[p], i); var sk := SplitKey(nodes[c]);
            var nodes' := SplitPages(nodes, p, i, c, s); var h := Half(fix, c, s, key, sk);
            && h in nodes' && nodes'[h].Typed()
            && Ahead(cfg.space, fix, nodes', nodes'[h], fs[c].level, Entry(key, blob), GetsLost(fix, lost, key, sk))
               == AheadInHalf(cfg.space, fix, nodes, nodes[c], fs[c].level, Entry(key, blob), lost)
  {
    hide TreeOk, Represents, SplitPages, SplitFences, SplitKey, Node.Typed, LeftHalf, RightHalf, Takes, Ahead,
         AheadInHalf;
    var c: PageId := ChildId(nodes[p], i);
    SplitShape(cfg, nodes, fs, root, p, i, s);
    HalfFate(cfg, nodes, fs, root, m, fix, c, Entry(key, blob), lost, s, SplitPages(nodes, p, i, c, s),
             Half(fix, c, s, key, SplitKey(nodes[c])));
  }

  lemma RootStands(cfg: Config, nodes: Pages, fs: Fences, root: PageId, m: map<nat, seq<Byte>>, key: nat)
    requires TreeOk(cfg, nodes, fs, root)
    ensures root in nodes && root in fs && nodes[root].Typed() && Standing(nodes, fs, m, root, key, false)
  {
    hide PageOk, Disjoint;
    NodeSorted(cfg, nodes, fs, root, root);
  }

  lemma RootFits(cfg: Config, nodes: Pages, fs: Fences, root: PageId)
    requires TreeOk(cfg, nodes, fs, root) && root in nodes
    ensures root < MAX_ID && nodes[root].Typed() && Used(nodes[root].cells) <= cfg.space
  {
    hide PageOk, Disjoint, Used;
    NodeSorted(cfg, nodes, fs, root, root);
  }

  lemma AfterRootSplit(cfg: Config, nodes: Pages, fs: Fences, root: PageId, m: map<nat, seq<Byte>>, fix: Repairs,
                       t: PageId, s: PageId, key: nat, blob: seq<Byte>)
    requires TreeOk(cfg, nodes, fs, root) && Represents(nodes, m) && root in nodes && |nodes[root].cells| >= 2
    requires NewIds(nodes, t, s) && nodes[root].Typed() && Entry(key, blob).Fits()
    ensures root in fs
    ensures var sk := SplitKey(nodes[root]); var e := Entry(key, blob);
            var nodes', fs' := GrownPages(nodes, root, t, s), GrownFences(fs, root, t, s, sk);
            var h, lost := Half(fix, root, s, key, sk), GetsLost(fix, false, key, sk);
            && InWindow(cfg.base, sk) && Standing(nodes', fs', m, h, key, lost)
            && h in nodes' && nodes'[h].Typed() && h in fs'
            && fs'[h].level == fs[root].level && nodes'[h].leaf == nodes[root].leaf
            && t in fs' && fs'[t].level == fs[root].level + 1
            && Ahead(cfg.space, fix, nodes', nodes'[h], fs'[h].level, e, lost)
               == AheadInHalf(cfg.space, fix, nodes, nodes[root], fs[root].level, e, false)
  {
    hide PageOk, Disjoint, Represents, SplitKey, Node.Typed, Ahead, AheadInHalf, LeftHalf, RightHalf;
    NodeSorted(cfg, nodes, fs, root, root);
    SplitKeyOk(cfg, nodes[root], fs[root]);
    HalfLeads(cfg, nodes, fs, root, m, fix, root, key, false, s);
    SplitKeyStored(cfg, nodes, fs, root, m, root);
    HalfLeaf(nodes[root], s);
    HalfFate(cfg, nodes, fs, root, m, fix, root, Entry(key, blob), false, s, GrownPages(nodes, root, t, s),
             Half(fix, root, s, key, SplitKey(nodes[root])));
  }

  lemma HeaderMeans(s: seq<Byte>, n: Node)
    requires Layout(s, n)
    ensures HEADER_SIZE <= |s| && U16(s, COUNT_AT) == |n.cells| && U16(s, FLAGS_AT) == FlagsOf(n.leaf) && n.Typed()
    ensures U16(s, FREE_SPACE_AT) == |s| - HEADER_SIZE - Used(n.cells)
  {
    TightIff(s, n);
  }

  method InsertLeafPage(page: Page, key: nat, keyBytes: seq<Byte>, value: seq<Byte>, size: nat,
                        ghost n: Node, ghost blob: seq<Byte>, ghost base: nat)
    returns (r: Added)
    requires page.Is(n, size) && n.leaf && Sorted(n.cells) && n.Typed() && HEADER_SIZE <= size
    requires InWindow(base, key) && forall i :: 0 <= i < |n.cells| ==> InWindow(base, n.cells[i].key)
    requires Entry(key, blob).Fits() && keyBytes == Varint.Encode(key) && value == Blob.Encode(blob)
    modifies page.data, page`node
    ensures r == if HasKey(n.cells, key) then Present
                 else if Takes(size - HEADER_SIZE, n, Entry(key, blob)) then Placed else NoRoom
    ensures page.Is(if r == Placed then n.(cells := InsertAt(n.cells, Find(n.cells, key), Entry(key, blob))) else n,
                    size)
  {
    hide Layout, Tight, Takes, Find, HasKey, Sorted, Node.Typed;
    r := page.InsertLeaf(key, keyBytes, value, blob, base);
  }

  method SplitInTwo(child: Page, s: PageId, page: Page, size: nat, ghost n: Node)
    returns (splitKey: nat, bytes: seq<Byte>)
    requires child.Is(n, size) && page != child && page.data != child.data && page.data.Length == size
    requires s < MAX_ID && |n.cells| >= 2
    modifies child.data, child`node, page.data, page`node
    ensures splitKey == SplitKey(n) < U64 && bytes == Varint.Encode(splitKey)
    ensures child.Is(LeftHalf(n, s), size) && page.Is(RightHalf(n), size)
  {
    hide Layout, Tight, Used;
    var split := child.Split(page, s);
    splitKey, bytes := child.Key(split - 1);
  }

  method InsertInnerPage(parent: Page, i: nat, key: nat, bytes: seq<Byte>, s: PageId, size: nat, ghost n: Node)
    returns (ok: bool)
    requires parent.Is(n, size) && key < U64 && bytes == Varint.Encode(key) && s < MAX_ID && HEADER_SIZE <= size
    requires !n.leaf && i <= |n.cells| && (i < |n.cells| ==> n.cells[i].Sep?) && n.Typed()
    modifies parent.data, parent`node
    ensures ok <==> Takes(size - HEADER_SIZE, n, Sep(key, s))
    ensures parent.Is(if ok then InsertSep(n, i, key, s) else n, size)
  {
    hide InsertSep, Layout, Tight, Takes;
    ok := parent.InsertInner(i, key, bytes, s);
  }

  method InitLeafPage(page: Page, size: nat)
    requires page.data.Length == size && HEADER_SIZE <= size <= MAX_PAGE
    modifies page.data, page`node
    ensures page.Is(Node(true, [], 0), size)
  {
    hide Layout, Tight;
    page.InitLeaf();
  }

  lemma EmptyTree(cfg: Config)
    ensures var nodes, fs := map[1 := Node(true, [], 0)], map[1 := Fence(0, -1, None)];
            TreeOk(cfg, nodes, fs, 1) && Represents(nodes, map[]) && Shaped(cfg, nodes, 1, 2)
  {
    var nodes: Pages, fs: Fences := map[1 := Node(true, [], 0)], map[1 := Fence(0, -1, None)];
    assert PageOk(cfg, nodes[1], fs[1], fs);
    assert forall p :: p in nodes ==> p == 1;
  }

  method InitRootPage(page: Page, key: nat, bytes: seq<Byte>, left: PageId, right: PageId, size: nat, ghost cfg: Config)
    requires page.data.Length == size && key < U64 && bytes == Varint.Encode(key) && left < MAX_ID && right < MAX_ID
    requires HEADER_SIZE + cfg.space == size <= MAX_PAGE && Cost(Sep(key, left)) <= cfg.space
    modifies page.data, page`node
    ensures page.Is(Node(false, [Sep(key, left)], right), size)
  {
    hide Layout, Tight;
    page.InitRoot(key, bytes, left, right);
  }

  /** A new root above the old one, then a split of its only child: one change of the
      heap, which keeps the tree. */
  lemma RootStep(cfg: Config, nodes: Pages, fs: Fences, root: PageId, m: map<nat, seq<Byte>>, t: PageId, s: PageId)
    requires TreeOk(cfg, nodes, fs, root) && Represents(nodes, m) && root in nodes && |nodes[root].cells| >= 2
    requires NewIds(nodes, t, s)
    ensures root in fs
    ensures var nodes0, fs0 := nodes[t := BareRoot(root)], fs[t := NewRootFence(fs, root)];
            var sk := SplitKey(nodes[root]);
            && CanSplit(cfg, nodes0, fs0, t, t, 0, s) && Represents(nodes0, m)
            && GrownPages(nodes, root, t, s) == SplitPages(nodes0, t, 0, root, s)
            && TreeOk(cfg, GrownPages(nodes, root, t, s), GrownFences(fs, root, t, s, sk), t)
            && Represents(GrownPages(nodes, root, t, s), m)
  {
    hide PageOk, Disjoint, Represents, Takes, Used, SplitPages, SplitKey, SplitFences, GrownPages;
    NodeSorted(cfg, nodes, fs, root, root);
    RootBounds(cfg, nodes, fs, root);
    RootSepFits(cfg.space, nodes[root], root);
    SepSame(cfg.space, BareRoot(root), nodes[root], root, s);
    BareRootKeepsTree(cfg, nodes, fs, root, t);
    BareRootKeepsStored(nodes, root, t, m);
    SplitStep(cfg, nodes[t := BareRoot(root)], fs[t := NewRootFence(fs, root)], t, t, 0, s, m);
    RootMaps(nodes, root, t, s);
  }

  lemma RootMaps(nodes: Pages, root: PageId, t: PageId, s: PageId)
    requires root in nodes && |nodes[root].cells| >= 2 && t !in nodes && s !in nodes && s != t
    ensures SplitPages(nodes[t := BareRoot(root)], t, 0, root, s) == GrownPages(nodes, root, t, s)
  {
    var sk := SplitKey(nodes[root]);
    assert InsertSep(BareRoot(root), 0, sk, s) == Node(false, [Sep(sk, root)], s);
    hide InsertSep, LeftHalf, RightHalf, SplitKey;
  }

  lemma RootBounds(cfg: Config, nodes: Pages, fs: Fences, root: PageId)
    requires TreeOk(cfg, nodes, fs, root)
    ensures root in nodes && fs.Keys == nodes.Keys && fs[root].lo == -1 && fs[root].hi == None
    ensures forall p :: p in nodes ==> 0 < p < MAX_ID
  {
  }

  lemma SplitApplies(cfg: Config, nodes: Pages, fs: Fences, root: PageId, p: PageId, i: nat)
    requires TreeOk(cfg, nodes, fs, root) && p in nodes && !nodes[p].leaf && nodes[p].Typed()
    requires p in fs && i < Arity(nodes[p], fs[p])
    ensures ChildId(nodes[p], i) in nodes && ChildId(nodes[p], i) != p && ChildId(nodes[p], i) in fs
    ensures i <= |nodes[p].cells|
    ensures i < |nodes[p].cells| ==> nodes[p].cells[i].Sep?
  {
    hide Disjoint, SpaceOk;
    ChildFacts(cfg, nodes, fs, root, p, i);
    assert i < |nodes[p].cells| ==> nodes[p].cells[i] in nodes[p].cells;
  }

  lemma SplitStep(cfg: Config, nodes: Pages, fs: Fences, root: PageId, p: PageId, i: nat, s: PageId,
                  m: map<nat, seq<Byte>>)
    requires CanSplit(cfg, nodes, fs, root, p, i, s) && Represents(nodes, m)
    ensures i <= |nodes[p].cells| && (i < |nodes[p].cells| ==> nodes[p].cells[i].Sep?)
    ensures var c := ChildId(nodes[p], i);
            && c != p && c in fs
            && TreeOk(cfg, SplitPages(nodes, p, i, c, s), SplitFences(fs, c, SplitKey(nodes[c]), s), root)
            && Represents(SplitPages(nodes, p, i, c, s), m)
  {
    hide TreeOk, Represents;
    RootBounds(cfg, nodes, fs, root);
    SplitApplies(cfg, nodes, fs, root, p, i);
    SplitKeepsTree(cfg, nodes, fs, root, p, i, s);
    SplitKeepsStored(nodes, p, i, ChildId(nodes[p], i), s, m);
  }

  /** The room for a separator does not depend on the page that it leads to. */
  lemma SepSame(space: nat, n: Node, child: Node, c: PageId, s: PageId)
    requires n.Typed() && child.Typed() && |child.cells| >= 2 && c < MAX_ID && s < MAX_ID
    ensures Takes(space, n, Sep(SplitKey(child), c)) <==> Takes(space, n, Sep(SplitKey(child), s))
  {
    assert child.cells[SplitPoint(child) - 1] in child.cells;
    SamePayload(SplitKey(child), c, s);
  }
}
