/**
  How many pages a tree has for the rows that it holds: at most two a row and one, and
  no more levels than rows, if no inner page but the root has fewer than two cells.
*/
module PageCount {
  import opened Common
  import opened Varint
  import Blob
  import opened Cells
  import opened TreeInvariant
  import opened TreeSteps
  import opened TreeWalk
  import opened TreeFate

  /** Space from which on every full inner page has the cells for two such halves. */
  const MIN_SPACE: nat := 90

  ghost predicate Bushy(pages: Pages, root: PageId) {
    forall p :: p in pages && !pages[p].leaf ==> |pages[p].cells| >= if p == root then 1 else 2
  }

  /** A page whose halves are as many-celled as that. */
  predicate Halves(n: Node) {
    n.leaf || |n.cells| >= 4
  }

  lemma FullHalves(space: nat, fix: Repairs, n: Node, e: Cell)
    requires n.Typed() && e.Entry? && e.Fits() && Full(space, fix, n, e) && space >= MIN_SPACE
    ensures Halves(n)
  {
    hide Used, Payload, Blob.Encode, Varint.Encode;
    if !n.leaf {
      InnerCosts(n);
      UsedBounds(n.cells, INNER_COSTS);
    }
  }

  lemma SplitKeepsBushy(cfg: Config, pages: Pages, fs: Fences, root: PageId, p: PageId, i: nat, s: PageId)
    requires CanSplit(cfg, pages, fs, root, p, i, s) && (i < |pages[p].cells| ==> pages[p].cells[i].Sep?)
    requires Bushy(pages, root) && Halves(pages[ChildId(pages[p], i)])
    ensures Bushy(SplitPages(pages, p, i, ChildId(pages[p], i), s), root)
    ensures |SplitPages(pages, p, i, ChildId(pages[p], i), s)| == |pages| + 1
  {
    hide PageOk, RootOk, Disjoint, Takes, Node.Typed;
    var c: PageId := ChildId(pages[p], i);
    ChildFacts(cfg, pages, fs, root, p, i);
    assert SplitPages(pages, p, i, c, s).Keys == pages.Keys + {s};
  }

  lemma GrowKeepsBushy(pages: Pages, root: PageId, t: PageId, s: PageId)
    requires root in pages && |pages[root].cells| >= 2 && NewIds(pages, t, s)
    ensures |GrownPages(pages, root, t, s)| == |pages| + 2
    ensures Bushy(pages, root) && Halves(pages[root]) ==> Bushy(GrownPages(pages, root, t, s), t)
  {
    assert GrownPages(pages, root, t, s).Keys == pages.Keys + {s, t};
  }

  lemma EntryKeepsBushy(pages: Pages, root: PageId, l: PageId, key: nat, blob: seq<Byte>)
    requires l in pages && pages[l].leaf
    ensures |EntryPages(pages, l, key, blob)| == |pages|
    ensures Bushy(pages, root) ==> Bushy(EntryPages(pages, l, key, blob), root)
  {
    assert EntryPages(pages, l, key, blob).Keys == pages.Keys;
  }

  // ------------------------------------------------------------------ counting

  /** Disjoint images of r elements or more, all in b. */
  lemma {:induction false} Fan(a: set<PageId>, r: nat, image: map<PageId, set<nat>>, b: set<nat>)
    requires forall x :: x in a ==> x in image && |image[x]| >= r && image[x] <= b
    requires forall x, y :: x in a && y in a && x != y ==> image[x] !! image[y]
    ensures r * |a| <= |b|
  {
    if a != {} {
      var x :| x in a;
      Fan(a - {x}, r, image, b - image[x]);
      MulStep(r, |a - {x}|);
    }
  }

  function Leaves(pages: Pages): set<PageId> {
    set p | p in pages && pages[p].leaf
  }

  function Inners(pages: Pages): set<PageId> {
    set p | p in pages && !pages[p].leaf
  }

  ghost function OffSpine(fs: Fences): set<PageId> {
    set p | p in fs && fs[p].hi.Some?
  }

  /** Leaves off the right spine end with stored keys that differ. */
  lemma LeafCount(cfg: Config, pages: Pages, fs: Fences, root: PageId, m: map<nat, seq<Byte>>)
    requires TreeOk(cfg, pages, fs, root) && Represents(pages, m)
    ensures |Leaves(pages) * OffSpine(fs)| <= |m|
    ensures |Leaves(pages)| <= |Leaves(pages) * OffSpine(fs)| + 1
  {
    hide PageOk, RootOk, Disjoint, Represents;
    var off := Leaves(pages) * OffSpine(fs);
    var image := map p | p in off :: {fs[p].hi.value};
    forall p | p in off ensures image[p] <= m.Keys {
      LastKeyStored(cfg, pages, fs, root, m, p);
    }
    forall p, q | p in off && q in off && p != q ensures image[p] !! image[q] {
      NodeSorted(cfg, pages, fs, root, p);
      NodeSorted(cfg, pages, fs, root, q);
      BoundsDiffer(cfg, pages, fs, root, p, q);
    }
    Fan(off, 1, image, m.Keys);
    OneLastLeaf(cfg, pages, fs, root);
  }

  lemma LastKeyStored(cfg: Config, pages: Pages, fs: Fences, root: PageId, m: map<nat, seq<Byte>>, p: PageId)
    requires TreeOk(cfg, pages, fs, root) && Represents(pages, m) && p in pages && pages[p].leaf && p in fs
    requires fs[p].hi.Some?
    ensures fs[p].hi.value in m
  {
    hide RootOk, Disjoint, Represents, SpaceOk, LinksOk;
    assert PageOk(cfg, pages[p], fs[p], fs);
    LastIsStored(pages, m, p);
  }

  lemma BoundsDiffer(cfg: Config, pages: Pages, fs: Fences, root: PageId, p: PageId, q: PageId)
    requires TreeOk(cfg, pages, fs, root) && p in pages && q in pages && p != q && fs[p].level == fs[q].level
    requires fs[p].hi.Some? && fs[q].hi.Some?
    ensures fs[p].hi.value != fs[q].hi.value
  {
    hide RootOk, SpaceOk, LinksOk;
    assert PageOk(cfg, pages[p], fs[p], fs) && PageOk(cfg, pages[q], fs[q], fs);
  }

  lemma OneLastLeaf(cfg: Config, pages: Pages, fs: Fences, root: PageId)
    requires TreeOk(cfg, pages, fs, root)
    ensures |Leaves(pages)| <= |Leaves(pages) * OffSpine(fs)| + 1
  {
    hide PageOk, RootOk, Disjoint;
    var all, off := Leaves(pages), Leaves(pages) * OffSpine(fs);
    assert off <= all;
    if p :| p in all && p !in off {
      forall q | q in all ensures q in off + {p} {
        if q !in off && q != p {
          LastsMeet(cfg, pages, fs, root, p, q);
        }
      }
      assert all == off + {p};
    } else {
      assert all == off;
    }
  }

  lemma LastsMeet(cfg: Config, pages: Pages, fs: Fences, root: PageId, p: PageId, q: PageId)
    requires TreeOk(cfg, pages, fs, root) && p in pages && q in pages && pages[p].leaf && pages[q].leaf
    requires fs[p].hi.None? && fs[q].hi.None?
    ensures p == q
  {
    hide RootOk, Disjoint, Represents, SpaceOk, LinksOk;
    assert PageOk(cfg, pages[p], fs[p], fs) && PageOk(cfg, pages[q], fs[q], fs);
    var key := if fs[p].lo > fs[q].lo then fs[p].lo + 1 else fs[q].lo + 1;
    SameLeaf(cfg, pages, fs, root, p, q, key);
  }

  /** The children of an inner page at its cells. */
  ghost function Children(n: Node): (r: set<nat>)
    requires !n.leaf && n.Typed()
  {
    set i | 0 <= i < |n.cells| :: ChildId(n, i)
  }

  lemma ChildrenAt(n: Node, c: nat)
    requires !n.leaf && n.Typed()
    ensures c in Children(n) <==> exists i :: ChildAt(n, i, c)
  {
    if c in Children(n) {
      var i :| 0 <= i < |n.cells| && ChildId(n, i) == c;
      assert ChildAt(n, i, c);
    }
  }

  predicate ChildAt(n: Node, i: nat, c: PageId)
    requires !n.leaf && n.Typed()
  {
    i < |n.cells| && ChildId(n, i) == c
  }

  lemma {:induction false} ChildrenCount(n: Node, k: nat)
    requires !n.leaf && n.Typed() && k <= |n.cells|
    requires forall i: nat, j: nat :: i < j < |n.cells| ==> ChildId(n, i) != ChildId(n, j)
    ensures |set i | 0 <= i < k :: ChildId(n, i)| == k
  {
    if k > 0 {
      ChildrenCount(n, k - 1);
      assert (set i | 0 <= i < k :: ChildId(n, i)) == (set i | 0 <= i < k - 1 :: ChildId(n, i)) + {ChildId(n, k - 1)};
    }
  }

  lemma ChildrenFacts(cfg: Config, pages: Pages, fs: Fences, root: PageId, p: PageId)
    requires TreeOk(cfg, pages, fs, root) && p in pages && p in fs && !pages[p].leaf
    ensures pages[p].Typed() && |Children(pages[p])| == |pages[p].cells| && Children(pages[p]) <= OffSpine(fs)
  {
    hide PageOk, RootOk, Disjoint, Node.Typed;
    NodeSorted(cfg, pages, fs, root, p);
    forall i: nat, j: nat | i < j < |pages[p].cells| ensures ChildId(pages[p], i) != ChildId(pages[p], j) {
      if ChildId(pages[p], i) == ChildId(pages[p], j) {
        UniqueParent(cfg, pages, fs, root, p, i, p, j);
      }
    }
    ChildrenCount(pages[p], |pages[p].cells|);
    forall c | c in Children(pages[p]) ensures c in OffSpine(fs) {
      ChildrenAt(pages[p], c);
      var i :| ChildAt(pages[p], i, c);
      ChildFacts(cfg, pages, fs, root, p, i);
    }
  }

  lemma ChildrenApart(cfg: Config, pages: Pages, fs: Fences, root: PageId, p: PageId, q: PageId)
    requires TreeOk(cfg, pages, fs, root) && p in pages && q in pages && p != q && !pages[p].leaf && !pages[q].leaf
    ensures pages[p].Typed() && pages[q].Typed() && Children(pages[p]) !! Children(pages[q])
  {
    hide PageOk, RootOk, Disjoint, Node.Typed;
    NodeSorted(cfg, pages, fs, root, p);
    NodeSorted(cfg, pages, fs, root, q);
    forall c | c in Children(pages[p]) ensures c !in Children(pages[q]) {
      ChildrenAt(pages[p], c);
      ChildrenAt(pages[q], c);
      var i :| ChildAt(pages[p], i, c);
      if c in Children(pages[q]) {
        var j :| ChildAt(pages[q], j, c);
        UniqueParent(cfg, pages, fs, root, p, i, q, j);
      }
    }
  }

  /** Off the right spine there are the children of the root at its cells, and two more
      pages for every other inner page. */
  lemma SpineFan(cfg: Config, pages: Pages, fs: Fences, root: PageId)
    requires TreeOk(cfg, pages, fs, root) && Bushy(pages, root) && root in pages && !pages[root].leaf
    ensures pages[root].Typed() && |Children(pages[root])| == |pages[root].cells|
    ensures 2 * |Inners(pages) - {root}| + |Children(pages[root])| <= |OffSpine(fs)|
  {
    hide PageOk, RootOk, Disjoint, Node.Typed, Children;
    RootAbove(cfg, pages, fs, root);
    AllTyped(cfg, pages, fs, root);
    ChildrenFacts(cfg, pages, fs, root, root);
    var rest, off := Inners(pages) - {root}, OffSpine(fs);
    var image := map p | p in rest :: Children(pages[p]);
    forall p | p in rest ensures |image[p]| >= 2 && image[p] <= off - Children(pages[root]) {
      ChildrenFacts(cfg, pages, fs, root, p);
      ChildrenApart(cfg, pages, fs, root, p, root);
    }
    forall p, q | p in rest && q in rest && p != q ensures image[p] !! image[q] {
      ChildrenApart(cfg, pages, fs, root, p, q);
    }
    Fan(rest, 2, image, off - Children(pages[root]));
  }

  /** There are no more inner pages than leaves off the right spine. */
  lemma InnerCount(cfg: Config, pages: Pages, fs: Fences, root: PageId)
    requires TreeOk(cfg, pages, fs, root) && Bushy(pages, root)
    ensures |Inners(pages)| <= |Leaves(pages) * OffSpine(fs)|
  {
    hide PageOk, RootOk, Disjoint, Node.Typed, Children;
    RootAbove(cfg, pages, fs, root);
    if pages[root].leaf {
      forall p | p in pages ensures pages[p].leaf {
        NodeSorted(cfg, pages, fs, root, root);
        NodeSorted(cfg, pages, fs, root, p);
      }
      assert Inners(pages) == {};
    } else {
      SpineFan(cfg, pages, fs, root);
      var leaves, rest := Leaves(pages) * OffSpine(fs), Inners(pages) - {root};
      assert OffSpine(fs) <= leaves + rest;
      SubsetSize(OffSpine(fs), leaves + rest);
      assert |leaves + rest| <= |leaves| + |rest|;
      assert Inners(pages) == rest + {root};
    }
  }

  lemma RootAbove(cfg: Config, pages: Pages, fs: Fences, root: PageId)
    requires TreeOk(cfg, pages, fs, root)
    ensures root in pages && fs.Keys == pages.Keys && fs[root].hi.None?
    ensures forall p :: p in pages ==> fs[p].level <= fs[root].level
  {
  }

  lemma AllTyped(cfg: Config, pages: Pages, fs: Fences, root: PageId)
    requires TreeOk(cfg, pages, fs, root)
    ensures forall p :: p in pages ==> pages[p].Typed()
  {
    hide RootOk, Disjoint, SpaceOk, LinksOk;
    forall p | p in pages ensures pages[p].Typed() {
      assert PageOk(cfg, pages[p], fs[p], fs);
    }
  }

  function InnersUpTo(pages: Pages, fs: Fences, level: nat): set<PageId> {
    set p | p in pages && p in fs && 0 < fs[p].level <= level
  }

  /** Every level has a page. */
  lemma {:induction false} LevelCount(cfg: Config, pages: Pages, fs: Fences, root: PageId, level: nat)
    requires TreeOk(cfg, pages, fs, root) && root in fs && level <= fs[root].level
    ensures |InnersUpTo(pages, fs, level)| >= level
  {
    hide TreeOk, PageFor;
    if level > 0 {
      LevelCount(cfg, pages, fs, root, level - 1);
      RootRange(cfg, pages, fs, root);
      RootAbove(cfg, pages, fs, root);
      var p := PageFor(cfg, pages, fs, root, root, 0, level);
      assert InnersUpTo(pages, fs, level - 1) + {p} <= InnersUpTo(pages, fs, level);
      SubsetSize(InnersUpTo(pages, fs, level - 1) + {p}, InnersUpTo(pages, fs, level));
    }
  }

  lemma RootRange(cfg: Config, pages: Pages, fs: Fences, root: PageId)
    requires TreeOk(cfg, pages, fs, root)
    ensures root in pages && root in fs && Within(fs[root], 0)
  {
  }

  /** At most two pages a row and one, and no more levels than rows. */
  lemma PagesForRows(cfg: Config, pages: Pages, fs: Fences, root: PageId, m: map<nat, seq<Byte>>)
    requires TreeOk(cfg, pages, fs, root) && Represents(pages, m) && Bushy(pages, root)
    ensures |pages| <= 2 * |m| + 1
    ensures root in fs && fs[root].level <= |m|
  {
    hide TreeOk, Represents, Bushy;
    RootAbove(cfg, pages, fs, root);
    LeafCount(cfg, pages, fs, root, m);
    InnerCount(cfg, pages, fs, root);
    assert pages.Keys == Leaves(pages) + Inners(pages);
    assert |pages.Keys| == |Leaves(pages)| + |Inners(pages)|;
    LevelCount(cfg, pages, fs, root, fs[root].level);
    LevelsAreInner(cfg, pages, fs, root);
    SubsetSize(InnersUpTo(pages, fs, fs[root].level), Inners(pages));
  }

  lemma LevelsAreInner(cfg: Config, pages: Pages, fs: Fences, root: PageId)
    requires TreeOk(cfg, pages, fs, root) && root in fs
    ensures InnersUpTo(pages, fs, fs[root].level) <= Inners(pages)
  {
    hide PageOk, RootOk, Disjoint;
    forall p | p in InnersUpTo(pages, fs, fs[root].level) ensures p in Inners(pages) {
      NodeSorted(cfg, pages, fs, root, p);
    }
  }
}
