/**
  When a heap of pages is a B+-tree.

  Every page carries a fence (only in the proofs): its height above the leaves and
  the half-open range (lo, hi] of keys that it is responsible for, hi being absent
  on the right spine. The invariant is local to a page and its links, plus one global
  fact: two pages of one level have disjoint ranges. It follows that the heap is a
  tree of uniform height in which no page is shared.
*/
module TreeInvariant {
  import opened Common
  import opened Varint
  import opened Cells

  datatype Fence = Fence(level: nat, lo: int, hi: Option<nat>)

  type Pages = map<PageId, Node>
  type Fences = map<PageId, Fence>

  /** Page space for slots and payloads, and the lowest key. */
  datatype Config = Config(space: nat, base: nat)

  predicate Within(f: Fence, key: int) {
    f.lo < key && (f.hi.Some? ==> key <= f.hi.value)
  }

  predicate Apart(a: Fence, b: Fence) {
    || (a.hi.Some? && a.hi.value <= b.lo)
    || (b.hi.Some? && b.hi.value <= a.lo)
  }

  // --------------------------------------------------------- the invariant

  ghost predicate CellsOk(cfg: Config, n: Node, f: Fence) {
    && n.Typed() && Sorted(n.cells)
    && n.leaf == (f.level == 0) && f.lo >= -1
    && (forall i :: 0 <= i < |n.cells| ==> f.lo < n.cells[i].key && InWindow(cfg.base, n.cells[i].key))
    && (f.hi.Some? ==> n.cells != [] && n.cells[|n.cells| - 1].key == f.hi.value)
  }

  ghost predicate SpaceOk(cfg: Config, n: Node) {
    n.Typed() && Used(n.cells) <= cfg.space
  }

  /** The page below position i of an inner page; the last position is `right`. */
  function ChildId(n: Node, i: nat): PageId
    requires !n.leaf && n.Typed() && i <= |n.cells|
  {
    if i == |n.cells| then n.right else n.cells[i].child
  }

  function ChildFence(n: Node, f: Fence, i: nat): Fence
    requires f.level > 0 && i <= |n.cells|
  {
    Fence(f.level - 1,
          if i == 0 then f.lo else n.cells[i - 1].key,
          if i < |n.cells| then Some(n.cells[i].key) else f.hi)
  }

  /** How many positions have a child: off the right spine `right` is not one. */
  function Arity(n: Node, f: Fence): nat {
    if f.hi.None? then |n.cells| + 1 else |n.cells|
  }

  ghost predicate ChildOk(n: Node, f: Fence, fs: Fences, i: nat)
    requires f.level > 0 && !n.leaf && n.Typed() && i <= |n.cells|
  {
    ChildId(n, i) in fs && fs[ChildId(n, i)] == ChildFence(n, f, i)
  }

  /** Off the right spine `right` is the next page of the level, on it the last
      child of an inner page, and 0 in the last leaf. */
  ghost predicate RightOk(n: Node, f: Fence, fs: Fences) {
    && (f.hi.Some? ==> n.right in fs && fs[n.right].level == f.level && fs[n.right].lo == f.hi.value)
    && (f.hi.None? && n.leaf ==> n.right == 0)
  }

  ghost predicate LinksOk(n: Node, f: Fence, fs: Fences)
    requires n.Typed() && n.leaf == (f.level == 0)
  {
    && RightOk(n, f, fs)
    && (!n.leaf ==> forall i: nat :: i < Arity(n, f) ==> ChildOk(n, f, fs, i))
  }

  ghost predicate PageOk(cfg: Config, n: Node, f: Fence, fs: Fences) {
    CellsOk(cfg, n, f) && SpaceOk(cfg, n) && LinksOk(n, f, fs)
  }

  ghost predicate Disjoint(fs: Fences) {
    forall p, q :: p in fs && q in fs && p != q && fs[p].level == fs[q].level ==> Apart(fs[p], fs[q])
  }

  ghost predicate RootOk(fs: Fences, root: PageId) {
    && root in fs && fs[root].lo == -1 && fs[root].hi == None
    && forall p :: p in fs ==> fs[p].level <= fs[root].level
  }

  ghost predicate IdsOk(pages: Pages, fs: Fences) {
    && fs.Keys == pages.Keys
    && forall p :: p in pages ==> 0 < p < MAX_ID
  }

  ghost predicate TreeOk(cfg: Config, pages: Pages, fs: Fences, root: PageId) {
    && IdsOk(pages, fs) && RootOk(fs, root) && Disjoint(fs)
    && forall p :: p in pages ==> PageOk(cfg, pages[p], fs[p], fs)
  }

  // ----------------------------------------------------------- what it means

  /** The cell is in some leaf. */
  ghost predicate Stored(pages: Pages, e: Cell) {
    exists p :: p in pages && pages[p].leaf && e in pages[p].cells
  }

  /** The leaves hold exactly the bindings of m. */
  ghost predicate Represents(pages: Pages, m: map<nat, seq<Byte>>) {
    forall e: Cell :: Stored(pages, e) <==> e.Entry? && e.key in m && m[e.key] == e.blob
  }

  lemma SameLeaf(cfg: Config, pages: Pages, fs: Fences, root: PageId, p: PageId, q: PageId, key: int)
    requires TreeOk(cfg, pages, fs, root) && p in pages && q in pages
    requires fs[p].level == fs[q].level && Within(fs[p], key) && Within(fs[q], key)
    ensures p == q
  {
    hide PageOk;
  }

  lemma KeyWithin(cfg: Config, n: Node, f: Fence, i: nat)
    requires CellsOk(cfg, n, f) && i < |n.cells|
    ensures Within(f, n.cells[i].key)
  {
    assert i < |n.cells| - 1 ==> n.cells[i].key < n.cells[|n.cells| - 1].key;
  }

  /** A key is stored exactly if the leaf responsible for it holds it. */
  lemma LeafDecides(cfg: Config, pages: Pages, fs: Fences, root: PageId, m: map<nat, seq<Byte>>, p: PageId, key: nat)
    requires TreeOk(cfg, pages, fs, root) && Represents(pages, m)
    requires p in pages && pages[p].leaf && Within(fs[p], key)
    ensures key in m <==> HasKey(pages[p].cells, key)
    ensures key in m ==> Entry(key, m[key]) in pages[p].cells
  {
    hide SpaceOk, LinksOk, Disjoint;
    assert PageOk(cfg, pages[p], fs[p], fs);
    if key in m {
      var e := Entry(key, m[key]);
      assert Stored(pages, e);
      var q :| q in pages && pages[q].leaf && e in pages[q].cells;
      assert PageOk(cfg, pages[q], fs[q], fs);
      var i :| 0 <= i < |pages[q].cells| && pages[q].cells[i] == e;
      KeyWithin(cfg, pages[q], fs[q], i);
      SameLeaf(cfg, pages, fs, root, p, q, key);
    }
    if HasKey(pages[p].cells, key) {
      var i :| 0 <= i < |pages[p].cells| && pages[p].cells[i].key == key;
      assert pages[p].cells[i] in pages[p].cells;
      assert Stored(pages, pages[p].cells[i]);
    }
  }

  /** Every upper bound, hence every separator, is the largest key of some leaf. */
  lemma {:induction false} BoundIsStored(cfg: Config, pages: Pages, fs: Fences, root: PageId, p: PageId)
    requires TreeOk(cfg, pages, fs, root) && p in pages && fs[p].hi.Some?
    ensures exists q :: q in pages && pages[q].leaf && pages[q].cells != []
                        && pages[q].cells[|pages[q].cells| - 1].key == fs[p].hi.value
    decreases fs[p].level
  {
    hide SpaceOk, Disjoint;
    assert PageOk(cfg, pages[p], fs[p], fs);
    var n := pages[p];
    if !n.leaf {
      var last := |n.cells| - 1;
      assert ChildOk(n, fs[p], fs, last);
      BoundIsStored(cfg, pages, fs, root, ChildId(n, last));
    }
  }

  lemma SeparatorIsStored(cfg: Config, pages: Pages, fs: Fences, root: PageId, m: map<nat, seq<Byte>>, p: PageId,
                          i: nat)
    requires TreeOk(cfg, pages, fs, root) && Represents(pages, m)
    requires p in pages && !pages[p].leaf && i < |pages[p].cells|
    ensures pages[p].cells[i].key in m
    ensures exists q :: q in pages && pages[q].leaf && pages[q].cells != []
                        && pages[q].cells[|pages[q].cells| - 1].key == pages[p].cells[i].key
  {
    hide SpaceOk, Disjoint, Represents;
    assert PageOk(cfg, pages[p], fs[p], fs);
    var n := pages[p];
    assert ChildOk(n, fs[p], fs, i);
    BoundIsStored(cfg, pages, fs, root, ChildId(n, i));
    var q :| q in pages && pages[q].leaf && pages[q].cells != []
             && pages[q].cells[|pages[q].cells| - 1].key == n.cells[i].key;
    LastIsStored(pages, m, q);
  }

  lemma LastIsStored(pages: Pages, m: map<nat, seq<Byte>>, q: PageId)
    requires Represents(pages, m) && q in pages && pages[q].leaf && pages[q].cells != []
    ensures pages[q].cells[|pages[q].cells| - 1].key in m
  {
    var e := pages[q].cells[|pages[q].cells| - 1];
    assert e in pages[q].cells;
    assert Stored(pages, e);
  }

  /** A page has at most one parent position: no page is shared. */
  lemma UniqueParent(cfg: Config, pages: Pages, fs: Fences, root: PageId, p: PageId, i: nat, q: PageId, j: nat)
    requires TreeOk(cfg, pages, fs, root)
    requires p in pages && !pages[p].leaf && i < Arity(pages[p], fs[p])
    requires q in pages && !pages[q].leaf && j < Arity(pages[q], fs[q])
    requires pages[p].Typed() && pages[q].Typed()
    requires ChildId(pages[p], i) == ChildId(pages[q], j)
    ensures p == q && i == j
  {
    hide SpaceOk, Disjoint;
    assert PageOk(cfg, pages[p], fs[p], fs) && PageOk(cfg, pages[q], fs[q], fs);
    assert ChildOk(pages[p], fs[p], fs, i) && ChildOk(pages[q], fs[q], fs, j);
    var key := fs[ChildId(pages[p], i)].lo + 1;
    PositionWithin(cfg, pages[p], fs[p], i);
    PositionWithin(cfg, pages[q], fs[q], j);
    SameLeaf(cfg, pages, fs, root, p, q, key);
  }

  lemma PositionWithin(cfg: Config, n: Node, f: Fence, i: nat)
    requires CellsOk(cfg, n, f) && f.level > 0 && i < Arity(n, f)
    ensures Within(f, ChildFence(n, f, i).lo + 1)
    ensures i > 0 ==> ChildFence(n, f, i).lo == n.cells[i - 1].key
  {
    if i < |n.cells| {
      KeyWithin(cfg, n, f, i);
    }
  }
}
