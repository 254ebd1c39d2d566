/**
  The three changes that an insertion makes to the heap of pages, and why each keeps
  the tree: splitting a child, growing a root, and adding an entry to a leaf.
*/
module TreeSteps {
  import opened Common
  import opened Varint
  import opened Cells
  import opened TreeInvariant

  // ------------------------------------------------------------ split a child

  /** Page c, the child at position i of p, gives its upper half to the new page s. */
  function SplitPages(pages: Pages, p: PageId, i: nat, c: PageId, s: PageId): Pages
    requires p in pages && c in pages && |pages[c].cells| >= 2
    requires i <= |pages[p].cells| && (i < |pages[p].cells| ==> pages[p].cells[i].Sep?)
  {
    pages[c := LeftHalf(pages[c], s)]
         [s := RightHalf(pages[c])]
         [p := InsertSep(pages[p], i, SplitKey(pages[c]), s)]
  }

  function LowerFence(f: Fence, key: nat): Fence {
    f.(hi := Some(key))
  }

  function UpperFence(f: Fence, key: nat): Fence {
    f.(lo := key)
  }

  function SplitFences(fs: Fences, c: PageId, key: nat, s: PageId): Fences
    requires c in fs
  {
    fs[c := LowerFence(fs[c], key)][s := UpperFence(fs[c], key)]
  }

  ghost predicate CanSplit(cfg: Config, pages: Pages, fs: Fences, root: PageId, p: PageId, i: nat, s: PageId) {
    && TreeOk(cfg, pages, fs, root)
    && p in pages && !pages[p].leaf && pages[p].Typed() && i < Arity(pages[p], fs[p])
    && s !in pages && 0 < s < MAX_ID
    && var c := ChildId(pages[p], i);
       && c in pages && |pages[c].cells| >= 2 && pages[c].Typed()
       && Takes(cfg.space, pages[p], Sep(SplitKey(pages[c]), s))
  }

  lemma HalvesOk(cfg: Config, n: Node, f: Fence, s: PageId)
    requires CellsOk(cfg, n, f) && SpaceOk(cfg, n) && |n.cells| >= 2 && s < MAX_ID
    ensures Within(f, SplitKey(n)) && SplitKey(n) < n.cells[|n.cells| - 1].key
    ensures CellsOk(cfg, LeftHalf(n, s), LowerFence(f, SplitKey(n)))
    ensures CellsOk(cfg, RightHalf(n), UpperFence(f, SplitKey(n)))
    ensures SpaceOk(cfg, LeftHalf(n, s)) && SpaceOk(cfg, RightHalf(n))
  {
    hide SpaceOk;
    KeyWithin(cfg, n, f, SplitPoint(n) - 1);
    HalvesSpaceOk(cfg, n, s);
  }

  lemma HalvesSpaceOk(cfg: Config, n: Node, s: PageId)
    requires SpaceOk(cfg, n) && s < MAX_ID
    ensures SpaceOk(cfg, LeftHalf(n, s)) && SpaceOk(cfg, RightHalf(n))
  {
    hide Used, Size, Payload;
    UsedHalves(n);
    HalvesTyped(n, s);
  }

  lemma HalvesLinked(cfg: Config, n: Node, f: Fence, s: PageId, fs: Fences, fs': Fences)
    requires CellsOk(cfg, n, f) && LinksOk(n, f, fs) && |n.cells| >= 2 && s < MAX_ID
    requires LeftHalf(n, s).Typed() && RightHalf(n).Typed()
    requires s in fs' && fs'[s] == UpperFence(f, SplitKey(n))
    requires forall q :: q in fs && fs[q].level < f.level ==> q in fs' && fs'[q] == fs[q]
    requires forall q :: q in fs ==> q in fs' && fs'[q].level == fs[q].level && fs'[q].lo == fs[q].lo
    ensures LinksOk(LeftHalf(n, s), LowerFence(f, SplitKey(n)), fs')
    ensures LinksOk(RightHalf(n), UpperFence(f, SplitKey(n)), fs')
  {
    if !n.leaf {
      var k := SplitPoint(n);
      var l, lf := LeftHalf(n, s), LowerFence(f, SplitKey(n));
      var r, rf := RightHalf(n), UpperFence(f, SplitKey(n));
      forall i: nat | i < Arity(l, lf) ensures ChildOk(l, lf, fs', i) {
        assert ChildOk(n, f, fs, i);
      }
      forall i: nat | i < Arity(r, rf) ensures ChildOk(r, rf, fs', i) {
        assert ChildOk(n, f, fs, k + i);
      }
    }
  }

  lemma SortedInsertAt(cells: seq<Cell>, i: nat, c: Cell)
    requires Sorted(cells) && i <= |cells|
    requires i > 0 ==> cells[i - 1].key < c.key
    requires i < |cells| ==> c.key < cells[i].key
    ensures Sorted(InsertAt(cells, i, c))
  {
    var r := InsertAt(cells, i, c);
    forall a, b | 0 <= a < b < |r| ensures r[a].key < r[b].key {
      assert r[a] == if a < i then cells[a] else if a == i then c else cells[a - 1];
      assert r[b] == if b < i then cells[b] else if b == i then c else cells[b - 1];
    }
  }

  lemma ParentCellsOk(cfg: Config, n: Node, f: Fence, i: nat, key: nat, s: PageId)
    requires CellsOk(cfg, n, f) && !n.leaf && i < Arity(n, f) && s < MAX_ID
    requires Within(ChildFence(n, f, i), key) && InWindow(cfg.base, key) && key < U64
    requires i < |n.cells| ==> key < n.cells[i].key
    ensures CellsOk(cfg, InsertSep(n, i, key, s), f)
  {
    assert i < |n.cells| ==> n.cells[i] in n.cells;
    hide Sorted, InsertSep, Node.Typed;
    InsertSepTyped(n, i, key, s);
    InsertSepSorted(n, i, key, s);
    InsertSepKeys(n, i, key, s);
    var r := InsertSep(n, i, key, s);
    KeysStayIn(cfg, n.cells, r.cells, f.lo, i, key);
  }

  lemma KeysStayIn(cfg: Config, a: seq<Cell>, r: seq<Cell>, lo: int, i: nat, key: nat)
    requires i <= |a| && |r| == |a| + 1
    requires forall j :: 0 <= j < |a| ==> lo < a[j].key && InWindow(cfg.base, a[j].key)
    requires lo < key && InWindow(cfg.base, key)
    requires r[i].key == key
    requires forall j :: 0 <= j < i ==> r[j].key == a[j].key
    requires forall j :: i < j < |r| ==> r[j].key == a[j - 1].key
    ensures forall j :: 0 <= j < |r| ==> lo < r[j].key && InWindow(cfg.base, r[j].key)
  {
    forall j | 0 <= j < |r| ensures lo < r[j].key && InWindow(cfg.base, r[j].key) {
      if j < i {
        assert r[j].key == a[j].key;
      } else if j > i {
        assert r[j].key == a[j - 1].key;
      }
    }
  }

  lemma InsertSepKeys(n: Node, i: nat, key: nat, s: PageId)
    requires i <= |n.cells| && (i < |n.cells| ==> n.cells[i].Sep?)
    ensures var r := InsertSep(n, i, key, s);
            && |r.cells| == |n.cells| + 1 && r.leaf == n.leaf
            && r.cells[i].key == key
            && (forall j :: 0 <= j < i ==> r.cells[j].key == n.cells[j].key)
            && (forall j :: i < j < |r.cells| ==> r.cells[j].key == n.cells[j - 1].key)
  {
  }

  lemma InsertSepSorted(n: Node, i: nat, key: nat, s: PageId)
    requires Sorted(n.cells) && !n.leaf && n.Typed() && i <= |n.cells|
    requires i > 0 ==> n.cells[i - 1].key < key
    requires i < |n.cells| ==> key < n.cells[i].key
    ensures Sorted(InsertSep(n, i, key, s).cells)
  {
    SortedInsertAt(n.cells, i, Sep(key, ChildId(n, i)));
    SameKeysSorted(InsertAt(n.cells, i, Sep(key, ChildId(n, i))), InsertSep(n, i, key, s).cells);
  }

  lemma SameKeysSorted(a: seq<Cell>, b: seq<Cell>)
    requires Sorted(a) && |a| == |b| && forall j :: 0 <= j < |a| ==> a[j].key == b[j].key
    ensures Sorted(b)
  {
  }

  lemma InsertSepTyped(n: Node, i: nat, key: nat, s: PageId)
    requires n.Typed() && !n.leaf && i <= |n.cells| && key < U64 && s < MAX_ID
    ensures InsertSep(n, i, key, s).Typed() && !InsertSep(n, i, key, s).leaf
  {
    var r := InsertSep(n, i, key, s);
    assert i < |n.cells| ==> n.cells[i] in n.cells;
    forall c | c in r.cells ensures c.Fits() && c.Sep? {
      var j :| 0 <= j < |r.cells| && r.cells[j] == c;
      if j < i {
        assert n.cells[j] in n.cells;
      } else if j > i + 1 {
        assert n.cells[j - 1] in n.cells;
      }
    }
  }

  lemma ParentSpaceOk(cfg: Config, n: Node, i: nat, key: nat, s: PageId)
    requires SpaceOk(cfg, n) && !n.leaf && i <= |n.cells| && key < U64 && s < MAX_ID
    requires Takes(cfg.space, n, Sep(key, s)) && InsertSep(n, i, key, s).Typed()
    ensures SpaceOk(cfg, InsertSep(n, i, key, s))
  {
    hide Size;
    var child := ChildId(n, i);
    assert i < |n.cells| ==> n.cells[i] in n.cells;
    SamePayload(key, child, s);
    SizeInsertAt(n.cells, i, Sep(key, child));
    if i < |n.cells| {
      ReplaceChild(InsertAt(n.cells, i, Sep(key, child)), i + 1, s);
    }
  }

  /** A page id always takes four bytes. */
  lemma SamePayload(key: nat, a: PageId, b: PageId)
    requires key < U64 && a < MAX_ID && b < MAX_ID
    ensures |Payload(Sep(key, a))| == |Payload(Sep(key, b))|
  {
  }

  lemma ReplaceChild(cells: seq<Cell>, i: nat, s: PageId)
    requires i < |cells| && cells[i].Sep? && s < MAX_ID && forall c :: c in cells ==> c.Fits()
    ensures forall c :: c in cells[i := Sep(cells[i].key, s)] ==> c.Fits()
    ensures Size(cells[i := Sep(cells[i].key, s)]) == Size(cells)
  {
    var c, d := cells[i], Sep(cells[i].key, s);
    assert c in cells;
    assert cells == InsertAt(cells[..i] + cells[i + 1..], i, c);
    assert cells[i := d] == InsertAt(cells[..i] + cells[i + 1..], i, d);
    SizeInsertAt(cells[..i] + cells[i + 1..], i, c);
    SizeInsertAt(cells[..i] + cells[i + 1..], i, d);
  }

  lemma ParentLinked(cfg: Config, n: Node, f: Fence, i: nat, key: nat, s: PageId, fs: Fences, fs': Fences)
    requires CellsOk(cfg, n, f) && LinksOk(n, f, fs) && !n.leaf && i < Arity(n, f)
    requires InsertSep(n, i, key, s).Typed()
    requires var c := ChildId(n, i); var cf := ChildFence(n, f, i);
             && s in fs' && fs'[s] == UpperFence(cf, key) && c in fs' && fs'[c] == LowerFence(cf, key)
             && forall q :: q in fs && q != c ==> q in fs' && fs'[q] == fs[q]
    requires forall j: nat :: j < Arity(n, f) && j != i ==> ChildId(n, j) != ChildId(n, i)
    requires f.hi.Some? ==> n.right != ChildId(n, i)
    ensures LinksOk(InsertSep(n, i, key, s), f, fs')
  {
    var r := InsertSep(n, i, key, s);
    forall j: nat | j < Arity(r, f) ensures ChildOk(r, f, fs', j) {
      var was := if j <= i then j else j - 1;
      assert ChildOk(n, f, fs, was);
    }
  }

  /** No other page links to c as a child, so its narrower fence disturbs nobody. */
  lemma OthersLinked(n: Node, f: Fence, c: PageId, fs: Fences, fs': Fences)
    requires n.Typed() && n.leaf == (f.level == 0) && LinksOk(n, f, fs)
    requires forall q :: q in fs && q != c ==> q in fs' && fs'[q] == fs[q]
    requires c in fs' && c in fs && fs'[c].level == fs[c].level && fs'[c].lo == fs[c].lo
    requires !n.leaf ==> forall j: nat :: j < Arity(n, f) ==> ChildId(n, j) != c
    ensures LinksOk(n, f, fs')
  {
    if !n.leaf {
      forall j: nat | j < Arity(n, f) ensures ChildOk(n, f, fs', j) {
        assert ChildOk(n, f, fs, j);
      }
    }
  }

  lemma SplitDisjoint(fs: Fences, c: PageId, key: nat, s: PageId)
    requires Disjoint(fs) && c in fs && s !in fs && Within(fs[c], key)
    ensures Disjoint(SplitFences(fs, c, key, s))
  {
  }

  /** Splitting the child at position i keeps the tree. */
  lemma SplitKeepsTree(cfg: Config, pages: Pages, fs: Fences, root: PageId, p: PageId, i: nat, s: PageId)
    requires CanSplit(cfg, pages, fs, root, p, i, s)
    requires i < |pages[p].cells| ==> pages[p].cells[i].Sep?
    ensures var c := ChildId(pages[p], i);
            TreeOk(cfg, SplitPages(pages, p, i, c, s), SplitFences(fs, c, SplitKey(pages[c]), s), root)
  {
    hide PageOk, Disjoint, RootOk, InsertSep, LeftHalf, RightHalf, SplitKey, Node.Typed;
    var c := ChildId(pages[p], i);
    var pages', fs' := SplitPages(pages, p, i, c, s), SplitFences(fs, c, SplitKey(pages[c]), s);
    ChildFacts(cfg, pages, fs, root, p, i);
    SplitGlobal(cfg, pages, fs, root, p, i, s);
    SplitHalvesOk(cfg, pages, fs, root, p, i, s);
    SplitParentOk(cfg, pages, fs, root, p, i, s);
    forall q | q in pages' ensures PageOk(cfg, pages'[q], fs'[q], fs') {
      if q != c && q != s && q != p {
        SplitOtherOk(cfg, pages, fs, root, p, i, q, fs');
      }
    }
  }

  lemma SplitGlobal(cfg: Config, pages: Pages, fs: Fences, root: PageId, p: PageId, i: nat, s: PageId)
    requires CanSplit(cfg, pages, fs, root, p, i, s)
    requires i < |pages[p].cells| ==> pages[p].cells[i].Sep?
    ensures var c := ChildId(pages[p], i); var fs' := SplitFences(fs, c, SplitKey(pages[c]), s);
            IdsOk(SplitPages(pages, p, i, c, s), fs') && RootOk(fs', root) && Disjoint(fs')
  {
    hide CellsOk, SpaceOk, LinksOk, Used, Size, Payload, InsertSep, Disjoint;
    var c := ChildId(pages[p], i);
    assert PageOk(cfg, pages[c], fs[c], fs);
    ChildFacts(cfg, pages, fs, root, p, i);
    SplitKeyOk(cfg, pages[c], fs[c]);
    SplitDisjoint(fs, c, SplitKey(pages[c]), s);
  }

  lemma SplitHalvesOk(cfg: Config, pages: Pages, fs: Fences, root: PageId, p: PageId, i: nat, s: PageId)
    requires CanSplit(cfg, pages, fs, root, p, i, s)
    ensures var c := ChildId(pages[p], i); var fs' := SplitFences(fs, c, SplitKey(pages[c]), s);
            && PageOk(cfg, LeftHalf(pages[c], s), fs'[c], fs') && PageOk(cfg, RightHalf(pages[c]), fs'[s], fs')
  {
    hide CellsOk, SpaceOk, LinksOk, Disjoint, Used, Size, Payload;
    var c := ChildId(pages[p], i);
    assert PageOk(cfg, pages[c], fs[c], fs);
    HalvesOk(cfg, pages[c], fs[c], s);
    HalvesTyped(pages[c], s);
    HalvesLinked(cfg, pages[c], fs[c], s, fs, SplitFences(fs, c, SplitKey(pages[c]), s));
  }

  lemma SplitOtherOk(cfg: Config, pages: Pages, fs: Fences, root: PageId, p: PageId, i: nat, q: PageId, fs': Fences)
    requires TreeOk(cfg, pages, fs, root)
    requires p in pages && !pages[p].leaf && pages[p].Typed() && i < Arity(pages[p], fs[p])
    requires q in pages && q != p
    requires var c := ChildId(pages[p], i);
             && c in fs && c in fs' && fs'[c].level == fs[c].level && fs'[c].lo == fs[c].lo
             && forall o :: o in fs && o != c ==> o in fs' && fs'[o] == fs[o]
    ensures PageOk(cfg, pages[q], fs[q], fs')
  {
    hide CellsOk, SpaceOk, LinksOk, Disjoint;
    assert PageOk(cfg, pages[q], fs[q], fs);
    CellsOkTyped(cfg, pages[q], fs[q]);
    NotItsChild(cfg, pages, fs, root, p, i, q);
    OthersLinked(pages[q], fs[q], ChildId(pages[p], i), fs, fs');
  }

  lemma HalvesTyped(n: Node, s: PageId)
    requires n.Typed() && s < MAX_ID
    ensures LeftHalf(n, s).Typed() && RightHalf(n).Typed()
  {
  }

  lemma ChildFacts(cfg: Config, pages: Pages, fs: Fences, root: PageId, p: PageId, i: nat)
    requires TreeOk(cfg, pages, fs, root)
    requires p in pages && !pages[p].leaf && pages[p].Typed() && i < Arity(pages[p], fs[p])
    ensures fs[p].level > 0 && ChildId(pages[p], i) in pages
    ensures ChildId(pages[p], i) != p && ChildId(pages[p], i) != root
    ensures fs[ChildId(pages[p], i)] == ChildFence(pages[p], fs[p], i)
    ensures CellsOk(cfg, pages[p], fs[p])
  {
    hide Disjoint, SpaceOk;
    assert PageOk(cfg, pages[p], fs[p], fs);
    assert ChildOk(pages[p], fs[p], fs, i);
  }

  lemma NotItsChild(cfg: Config, pages: Pages, fs: Fences, root: PageId, p: PageId, i: nat, q: PageId)
    requires TreeOk(cfg, pages, fs, root)
    requires p in pages && !pages[p].leaf && pages[p].Typed() && i < Arity(pages[p], fs[p])
    requires q in pages && q != p && pages[q].Typed()
    ensures !pages[q].leaf ==> forall j: nat :: j < Arity(pages[q], fs[q]) ==>
              ChildId(pages[q], j) != ChildId(pages[p], i)
  {
    hide PageOk, RootOk, Disjoint;
    if !pages[q].leaf {
      forall j: nat | j < Arity(pages[q], fs[q]) && ChildId(pages[q], j) == ChildId(pages[p], i) ensures false {
        UniqueParent(cfg, pages, fs, root, p, i, q, j);
      }
    }
  }

  lemma SplitParentOk(cfg: Config, pages: Pages, fs: Fences, root: PageId, p: PageId, i: nat, s: PageId)
    requires CanSplit(cfg, pages, fs, root, p, i, s)
    requires i < |pages[p].cells| ==> pages[p].cells[i].Sep?
    ensures var c := ChildId(pages[p], i);
            PageOk(cfg, InsertSep(pages[p], i, SplitKey(pages[c]), s), fs[p], SplitFences(fs, c, SplitKey(pages[c]), s))
  {
    hide LinksOk, SpaceOk, Disjoint, Used, Size, Payload, InsertSep, CellsOk;
    var n, f, c := pages[p], fs[p], ChildId(pages[p], i);
    var key := SplitKey(pages[c]);
    assert PageOk(cfg, n, f, fs) && PageOk(cfg, pages[c], fs[c], fs);
    ChildFacts(cfg, pages, fs, root, p, i);
    HalvesOk(cfg, pages[c], fs[c], s);
    SplitKeyOk(cfg, pages[c], fs[c]);
    ParentCellsOk(cfg, n, f, i, key, s);
    CellsOkTyped(cfg, InsertSep(n, i, key, s), f);
    ParentSpaceOk(cfg, n, i, key, s);
    NotTwice(cfg, pages, fs, root, p, i);
    ParentLinked(cfg, n, f, i, key, s, fs, SplitFences(fs, c, key, s));
  }

  lemma CellsOkTyped(cfg: Config, n: Node, f: Fence)
    requires CellsOk(cfg, n, f)
    ensures n.Typed() && n.leaf == (f.level == 0)
  {
  }

  lemma SplitKeyOk(cfg: Config, n: Node, f: Fence)
    requires CellsOk(cfg, n, f) && |n.cells| >= 2
    ensures SplitKey(n) < U64 && InWindow(cfg.base, SplitKey(n))
    ensures Within(f, SplitKey(n)) && (f.hi.Some? ==> SplitKey(n) < f.hi.value)
  {
    assert n.cells[SplitPoint(n) - 1] in n.cells;
    KeyWithin(cfg, n, f, SplitPoint(n) - 1);
  }

  lemma NotTwice(cfg: Config, pages: Pages, fs: Fences, root: PageId, p: PageId, i: nat)
    requires TreeOk(cfg, pages, fs, root)
    requires p in pages && !pages[p].leaf && pages[p].Typed() && i < Arity(pages[p], fs[p])
    ensures forall j: nat :: j < Arity(pages[p], fs[p]) && j != i ==> ChildId(pages[p], j) != ChildId(pages[p], i)
    ensures fs[p].hi.Some? ==> pages[p].right != ChildId(pages[p], i)
  {
    hide Disjoint, SpaceOk;
    forall j: nat | j < Arity(pages[p], fs[p]) && ChildId(pages[p], j) == ChildId(pages[p], i) ensures j == i {
      UniqueParent(cfg, pages, fs, root, p, i, p, j);
    }
    assert PageOk(cfg, pages[p], fs[p], fs);
    assert ChildOk(pages[p], fs[p], fs, i);
  }

  /** A split moves entries between pages and loses none. */
  lemma SplitKeepsStored(pages: Pages, p: PageId, i: nat, c: PageId, s: PageId, m: map<nat, seq<Byte>>)
    requires p in pages && c in pages && p != c && s !in pages && |pages[c].cells| >= 2 && !pages[p].leaf
    requires i <= |pages[p].cells| && (i < |pages[p].cells| ==> pages[p].cells[i].Sep?)
    requires Represents(pages, m)
    ensures Represents(SplitPages(pages, p, i, c, s), m)
  {
    var pages' := SplitPages(pages, p, i, c, s);
    hide InsertSep;
    SepKeepsLeaf(pages[p], i, SplitKey(pages[c]), s);
    forall e: Cell ensures Stored(pages, e) <==> Stored(pages', e) {
      StoredAfterSplit(pages, pages', p, c, s, e);
    }
  }

  lemma SepKeepsLeaf(n: Node, i: nat, key: nat, s: PageId)
    requires i <= |n.cells| && (i < |n.cells| ==> n.cells[i].Sep?)
    ensures InsertSep(n, i, key, s).leaf == n.leaf
  {
  }

  lemma StoredAfterSplit(pages: Pages, pages': Pages, p: PageId, c: PageId, s: PageId, e: Cell)
    requires p in pages && c in pages && p != c && s !in pages && !pages[p].leaf
    requires pages'.Keys == pages.Keys + {s} && !pages'[p].leaf
    requires pages'[c] == LeftHalf(pages[c], s) && pages'[s] == RightHalf(pages[c])
    requires forall q :: q in pages && q != p && q != c ==> pages'[q] == pages[q]
    ensures Stored(pages, e) <==> Stored(pages', e)
  {
    var k := SplitPoint(pages[c]);
    assert pages[c].cells == pages[c].cells[..k] + pages[c].cells[k..];
    if Stored(pages, e) {
      var q :| q in pages && pages[q].leaf && e in pages[q].cells;
      var q' := if q == c && e in pages[c].cells[k..] then s else q;
      assert q' in pages' && pages'[q'].leaf && e in pages'[q'].cells;
    }
    if Stored(pages', e) {
      var q' :| q' in pages' && pages'[q'].leaf && e in pages'[q'].cells;
      var q := if q' == s then c else q';
      assert q in pages && pages[q].leaf && e in pages[q].cells;
    }
  }

  // -------------------------------------------------------------- grow a root

  /** A page above the root with the old root as its only child. */
  function BareRoot(root: PageId): Node {
    Node(false, [], root)
  }

  lemma BareRootKeepsTree(cfg: Config, pages: Pages, fs: Fences, root: PageId, t: PageId)
    requires TreeOk(cfg, pages, fs, root) && t !in pages && 0 < t < MAX_ID
    ensures TreeOk(cfg, pages[t := BareRoot(root)], fs[t := Fence(fs[root].level + 1, -1, None)], t)
  {
    hide CellsOk, SpaceOk, LinksOk;
    var n, f := BareRoot(root), Fence(fs[root].level + 1, -1, None);
    var fs' := fs[t := f];
    BareRootOk(cfg, fs', root, f);
    forall q | q in pages ensures PageOk(cfg, pages[q], fs[q], fs') {
      assert PageOk(cfg, pages[q], fs[q], fs);
      CellsOkTyped(cfg, pages[q], fs[q]);
      MoreFences(pages[q], fs[q], fs, fs');
    }
  }

  lemma BareRootOk(cfg: Config, fs: Fences, root: PageId, f: Fence)
    requires root in fs && f.level > 0 && fs[root] == Fence(f.level - 1, f.lo, f.hi) && f.hi.None?
    requires f.lo == -1 && root < MAX_ID
    ensures PageOk(cfg, BareRoot(root), f, fs)
  {
    var n := BareRoot(root);
    forall i: nat | i < Arity(n, f) ensures ChildOk(n, f, fs, i) {
    }
  }

  lemma MoreFences(n: Node, f: Fence, fs: Fences, fs': Fences)
    requires n.Typed() && n.leaf == (f.level == 0) && LinksOk(n, f, fs)
    requires forall q :: q in fs ==> q in fs' && fs'[q] == fs[q]
    ensures LinksOk(n, f, fs')
  {
    if !n.leaf {
      forall j: nat | j < Arity(n, f) ensures ChildOk(n, f, fs', j) {
        assert ChildOk(n, f, fs, j);
      }
    }
  }

  lemma BareRootKeepsStored(pages: Pages, root: PageId, t: PageId, m: map<nat, seq<Byte>>)
    requires Represents(pages, m) && t !in pages
    ensures Represents(pages[t := BareRoot(root)], m)
  {
    var pages' := pages[t := BareRoot(root)];
    forall e: Cell ensures Stored(pages, e) <==> Stored(pages', e) {
      if Stored(pages, e) {
        var q :| q in pages && pages[q].leaf && e in pages[q].cells;
        assert q in pages' && pages'[q].leaf && e in pages'[q].cells;
      }
    }
  }

  /** The root is split, and its new sibling s hangs nowhere yet. */
  function TornPages(pages: Pages, root: PageId, s: PageId): Pages
    requires root in pages
  {
    pages[root := LeftHalf(pages[root], s)][s := RightHalf(pages[root])]
  }

  /** The root is split under a new root t. */
  function GrownPages(pages: Pages, root: PageId, t: PageId, s: PageId): Pages
    requires root in pages && |pages[root].cells| >= 2
  {
    TornPages(pages, root, s)[t := Node(false, [Sep(SplitKey(pages[root]), root)], s)]
  }

  function NewRootFence(fs: Fences, root: PageId): Fence
    requires root in fs
  {
    Fence(fs[root].level + 1, -1, None)
  }

  function GrownFences(fs: Fences, root: PageId, t: PageId, s: PageId, splitKey: nat): Fences
    requires root in fs
  {
    SplitFences(fs[t := NewRootFence(fs, root)], root, splitKey, s)
  }

  predicate NewIds(pages: Pages, t: PageId, s: PageId) {
    t !in pages && s !in pages && s != t && 0 < t < MAX_ID && 0 < s < MAX_ID
  }

  /** A page with two cells has room for either of its keys as the only separator. */
  lemma RootSepFits(space: nat, n: Node, child: PageId)
    requires n.Typed() && |n.cells| >= 2 && Used(n.cells) <= space && child < MAX_ID
    ensures SplitKey(n) < U64 && Takes(space, BareRoot(child), Sep(SplitKey(n), child))
    ensures Cost(Sep(SplitKey(n), child)) <= space
  {
    hide Payload;
    var k := SplitPoint(n) - 1;
    var a, b := n.cells[k], n.cells[|n.cells| - 1];
    TwoCells(n.cells, k);
    UsedTwo(n.cells);
    SepAgainst(a, b, child);
    assert BareRoot(child).cells == [];
  }

  lemma UsedTwo(cells: seq<Cell>)
    requires |cells| >= 2 && forall c :: c in cells ==> c.Fits()
    ensures Used(cells) >= Size(cells) + 2 * SLOT_SIZE
  {
  }

  lemma SepAgainst(a: Cell, b: Cell, child: PageId)
    requires a.Fits() && b.Fits() && child < MAX_ID && a.Entry? == b.Entry?
    ensures Sep(a.key, child).Fits()
              && |Payload(Sep(a.key, child))| + SLOT_SIZE <= |Payload(a)| + |Payload(b)| + 2 * SLOT_SIZE
  {
  }

  lemma TwoCells(cells: seq<Cell>, k: nat)
    requires k < |cells| - 1 && forall c :: c in cells ==> c.Fits()
    ensures cells[k] in cells && cells[|cells| - 1] in cells
    ensures Size(cells) >= |Payload(cells[k])| + |Payload(cells[|cells| - 1])|
  {
    hide Payload;
    var last := |cells| - 1;
    var front := cells[..last];
    assert front == front[..k] + [front[k]] + front[k + 1..];
    SizeConcat(front[..k] + [front[k]], front[k + 1..]);
    SizeConcat(front[..k], [front[k]]);
  }

  // ----------------------------------------------------------- add an entry

  function EntryPages(pages: Pages, l: PageId, key: nat, blob: seq<Byte>): Pages
    requires l in pages
  {
    pages[l := pages[l].(cells := InsertAt(pages[l].cells, Find(pages[l].cells, key), Entry(key, blob)))]
  }

  lemma FindMiss(cells: seq<Cell>, key: nat)
    requires !HasKey(cells, key)
    ensures Find(cells, key) < |cells| ==> key < cells[Find(cells, key)].key
  {
  }

  lemma EntryTyped(n: Node, i: nat, e: Cell)
    requires n.Typed() && n.leaf && i <= |n.cells| && e.Entry? && e.Fits()
    ensures n.(cells := InsertAt(n.cells, i, e)).Typed()
  {
    forall c: Cell | c in InsertAt(n.cells, i, e) ensures c.Fits() && c.Entry? {
      if c != e {
        assert c in n.cells;
      }
    }
  }

  lemma EntryCellsOk(cfg: Config, n: Node, f: Fence, key: nat, blob: seq<Byte>)
    requires CellsOk(cfg, n, f) && n.leaf && Within(f, key) && InWindow(cfg.base, key)
    requires Entry(key, blob).Fits() && !HasKey(n.cells, key)
    ensures CellsOk(cfg, n.(cells := InsertAt(n.cells, Find(n.cells, key), Entry(key, blob))), f)
  {
    hide Find, Sorted, HasKey, InsertAt, Node.Typed;
    var i := Find(n.cells, key);
    FindMiss(n.cells, key);
    SortedInsertAt(n.cells, i, Entry(key, blob));
    EntryTyped(n, i, Entry(key, blob));
    var r := InsertAt(n.cells, i, Entry(key, blob));
    forall j | 0 <= j < |r| ensures f.lo < r[j].key && InWindow(cfg.base, r[j].key) {
      assert r[j] == if j < i then n.cells[j] else if j == i then Entry(key, blob) else n.cells[j - 1];
    }
  }

  lemma EntrySpaceOk(cfg: Config, n: Node, i: nat, e: Cell)
    requires SpaceOk(cfg, n) && n.leaf && e.Entry? && e.Fits() && i <= |n.cells|
    requires Takes(cfg.space, n, e)
    ensures SpaceOk(cfg, n.(cells := InsertAt(n.cells, i, e)))
  {
    hide Size, Payload;
    SizeInsertAt(n.cells, i, e);
    EntryTyped(n, i, e);
  }

  /** Adding a fresh key to the leaf responsible for it keeps the tree ... */
  lemma EntryKeepsTree(cfg: Config, pages: Pages, fs: Fences, root: PageId, l: PageId, key: nat, blob: seq<Byte>)
    requires TreeOk(cfg, pages, fs, root) && l in pages && pages[l].leaf
    requires Within(fs[l], key) && InWindow(cfg.base, key) && !HasKey(pages[l].cells, key)
    requires Entry(key, blob).Fits() && pages[l].Typed() && Takes(cfg.space, pages[l], Entry(key, blob))
    ensures TreeOk(cfg, EntryPages(pages, l, key, blob), fs, root)
  {
    hide CellsOk, SpaceOk, LinksOk, Disjoint, Takes, Find, HasKey;
    var pages' := EntryPages(pages, l, key, blob);
    assert PageOk(cfg, pages[l], fs[l], fs);
    EntryCellsOk(cfg, pages[l], fs[l], key, blob);
    CellsOkTyped(cfg, pages[l], fs[l]);
    CellsOkTyped(cfg, pages'[l], fs[l]);
    EntrySpaceOk(cfg, pages[l], Find(pages[l].cells, key), Entry(key, blob));
    LeafLinks(pages[l], pages'[l], fs[l], fs);
    forall q | q in pages' ensures PageOk(cfg, pages'[q], fs[q], fs) {
      if q != l {
        assert PageOk(cfg, pages[q], fs[q], fs);
      }
    }
  }

  lemma LeafLinks(n: Node, n': Node, f: Fence, fs: Fences)
    requires n.Typed() && n'.Typed() && n.leaf && n'.leaf && f.level == 0 && n.right == n'.right && LinksOk(n, f, fs)
    ensures LinksOk(n', f, fs)
  {
  }

  /** ... and adds that binding to what the heap stands for. */
  lemma EntryAddsBinding(pages: Pages, l: PageId, key: nat, blob: seq<Byte>, m: map<nat, seq<Byte>>)
    requires Represents(pages, m) && l in pages && pages[l].leaf && key !in m
    ensures Represents(EntryPages(pages, l, key, blob), m[key := blob])
  {
    hide Find;
    var pages' := EntryPages(pages, l, key, blob);
    var added := Entry(key, blob);
    forall e: Cell ensures Stored(pages', e) <==> Stored(pages, e) || e == added {
      StoredAfterEntry(pages, pages', l, Find(pages[l].cells, key), added, e);
    }
  }

  lemma StoredAfterEntry(pages: Pages, pages': Pages, l: PageId, i: nat, added: Cell, e: Cell)
    requires l in pages && pages[l].leaf && i <= |pages[l].cells|
    requires pages' == pages[l := pages[l].(cells := InsertAt(pages[l].cells, i, added))]
    ensures Stored(pages', e) <==> Stored(pages, e) || e == added
  {
    var cells := pages[l].cells;
    assert cells == cells[..i] + cells[i..];
    if Stored(pages, e) {
      var q :| q in pages && pages[q].leaf && e in pages[q].cells;
      assert q in pages' && pages'[q].leaf && e in pages'[q].cells;
    }
    if e == added {
      assert l in pages' && pages'[l].leaf && e in pages'[l].cells;
    }
    if Stored(pages', e) && e != added {
      var q :| q in pages' && pages'[q].leaf && e in pages'[q].cells;
      assert q in pages && pages[q].leaf && e in pages[q].cells;
    }
  }
}
