/**
  Walking the tree: down from a page to the leaf for a key, and along the leaves.
*/
module TreeWalk {
  import opened Common
  import opened Varint
  import opened Cells
  import opened TreeInvariant
  import opened TreeSteps

  // ----------------------------------------------------------------- descent

  /** The page that `btree_lookup` and `btree_insert_walk` go to next. */
  function Next(n: Node, key: nat): PageId
    requires !n.leaf && n.Typed()
  {
    ChildId(n, Find(n.cells, key))
  }

  /** A hop goes to a child, one level down, that is responsible for the key. Off the
      right spine it never follows `right`, which is the id of a sibling there. */
  lemma Descend(cfg: Config, pages: Pages, fs: Fences, root: PageId, p: PageId, key: nat)
    requires TreeOk(cfg, pages, fs, root) && p in pages && !pages[p].leaf && Within(fs[p], key)
    ensures pages[p].Typed() && fs[p].level > 0
    ensures Find(pages[p].cells, key) < Arity(pages[p], fs[p])
    ensures fs[p].hi.Some? ==> Find(pages[p].cells, key) < |pages[p].cells|
    ensures var c := Next(pages[p], key);
            && c in pages && c != 0 && fs[c].level == fs[p].level - 1 && Within(fs[c], key)
            && fs[c] == ChildFence(pages[p], fs[p], Find(pages[p].cells, key))
  {
    hide Disjoint, SpaceOk;
    var n := pages[p];
    assert PageOk(cfg, n, fs[p], fs);
    var i := Find(n.cells, key);
    assert ChildOk(n, fs[p], fs, i);
  }

  /** The same for a key that equals the open lower end of a range: it goes to the
      first child, again to its lower end. */
  lemma DescendAtLowEnd(cfg: Config, pages: Pages, fs: Fences, root: PageId, p: PageId, key: nat)
    requires TreeOk(cfg, pages, fs, root) && p in pages && !pages[p].leaf && key == fs[p].lo
    ensures pages[p].Typed() && fs[p].level > 0 && !HasKey(pages[p].cells, key)
    ensures Find(pages[p].cells, key) == 0 < Arity(pages[p], fs[p])
    ensures var c := Next(pages[p], key);
            && c in pages && c != 0 && fs[c].level == fs[p].level - 1 && fs[c].lo == key
            && fs[c] == ChildFence(pages[p], fs[p], 0)
  {
    hide Disjoint, SpaceOk;
    var n := pages[p];
    assert PageOk(cfg, n, fs[p], fs);
    assert ChildOk(n, fs[p], fs, 0);
  }

  /** The page of a given level that is responsible for a key. */
  ghost function PageFor(cfg: Config, pages: Pages, fs: Fences, root: PageId, p: PageId, key: nat,
                         level: nat): (q: PageId)
    requires TreeOk(cfg, pages, fs, root) && p in pages && Within(fs[p], key) && level <= fs[p].level
    ensures q in pages && fs[q].level == level && Within(fs[q], key)
    decreases fs[p].level
  {
    assert PageOk(cfg, pages[p], fs[p], fs);
    if fs[p].level == level then p
    else
      Descend(cfg, pages, fs, root, p, key);
      PageFor(cfg, pages, fs, root, Next(pages[p], key), key, level)
  }

  /** Every page is reached from the root by child links: the heap has no other pages. */
  lemma EveryPageReached(cfg: Config, pages: Pages, fs: Fences, root: PageId, q: PageId)
    requires TreeOk(cfg, pages, fs, root) && q in pages
    ensures fs[q].lo >= -1 && Within(fs[q], fs[q].lo + 1)
    ensures PageFor(cfg, pages, fs, root, root, fs[q].lo + 1, fs[q].level) == q
  {
    hide SpaceOk, LinksOk, Disjoint, PageFor;
    assert PageOk(cfg, pages[q], fs[q], fs);
    SameLeaf(cfg, pages, fs, root, q, PageFor(cfg, pages, fs, root, root, fs[q].lo + 1, fs[q].level), fs[q].lo + 1);
  }

  // -------------------------------------------------------------- leaf chain

  /** Leaves met from leaf p on by following `right` until it is 0. */
  ghost function Chain(cfg: Config, pages: Pages, fs: Fences, root: PageId, p: PageId): (ids: seq<PageId>)
    requires TreeOk(cfg, pages, fs, root) && p in pages && pages[p].leaf
    ensures |ids| >= 1 && ids[0] == p
    decreases After(fs, p)
  {
    NextLeaf(cfg, pages, fs, root, p);
    if pages[p].right == 0 then [p]
    else [p] + Chain(cfg, pages, fs, root, pages[p].right)
  }

  lemma NextLeaf(cfg: Config, pages: Pages, fs: Fences, root: PageId, p: PageId)
    requires TreeOk(cfg, pages, fs, root) && p in pages && pages[p].leaf
    ensures pages[p].right == 0 <==> fs[p].hi.None?
    ensures pages[p].right != 0 ==>
              && pages[p].right in pages && pages[pages[p].right].leaf
              && fs[pages[p].right].lo == fs[p].hi.value > fs[p].lo
              && After(fs, pages[p].right) < After(fs, p)
  {
    hide SpaceOk, Disjoint;
    assert PageOk(cfg, pages[p], fs[p], fs);
    if fs[p].hi.Some? {
      assert PageOk(cfg, pages[pages[p].right], fs[pages[p].right], fs);
      AfterShrinks(fs, p, pages[p].right);
    }
  }

  /** Pages whose range starts after that of p. */
  ghost function After(fs: Fences, p: PageId): set<PageId>
    requires p in fs
  {
    set q | q in fs && fs[q].lo > fs[p].lo
  }

  lemma AfterShrinks(fs: Fences, p: PageId, q: PageId)
    requires p in fs && q in fs && fs[q].lo > fs[p].lo
    ensures After(fs, q) < After(fs, p)
  {
    assert q in After(fs, p) && q !in After(fs, q);
  }

  /** Consecutive leaves have adjacent ranges and link to each other; the last links
      to none. */
  lemma {:induction false} ChainLinks(cfg: Config, pages: Pages, fs: Fences, root: PageId, p: PageId)
    requires TreeOk(cfg, pages, fs, root) && p in pages && pages[p].leaf
    ensures var ids := Chain(cfg, pages, fs, root, p);
            && (forall j :: 0 <= j < |ids| ==> ids[j] in pages && pages[ids[j]].leaf && fs[ids[j]].lo >= fs[p].lo)
            && (forall j :: 0 <= j < |ids| - 1 ==> pages[ids[j]].right == ids[j + 1])
            && pages[ids[|ids| - 1]].right == 0
            && (forall j, k :: 0 <= j < k < |ids| ==> ids[j] != ids[k])
    decreases After(fs, p)
  {
    hide PageOk, RootOk, Disjoint, After;
    NextLeaf(cfg, pages, fs, root, p);
    if pages[p].right != 0 {
      var r := pages[p].right;
      ChainLinks(cfg, pages, fs, root, r);
    }
  }

  lemma {:induction false} ChainCovers(cfg: Config, pages: Pages, fs: Fences, root: PageId, p: PageId, q: PageId)
    requires TreeOk(cfg, pages, fs, root) && p in pages && pages[p].leaf
    requires q in pages && pages[q].leaf && fs[q].lo >= fs[p].lo
    ensures q in Chain(cfg, pages, fs, root, p)
    decreases After(fs, p)
  {
    hide PageOk, RootOk, Disjoint, After;
    NextLeaf(cfg, pages, fs, root, p);
    if p != q {
      LeavesApart(cfg, pages, fs, root, p, q);
      var r := pages[p].right;
      ChainCovers(cfg, pages, fs, root, r, q);
    }
  }

  lemma LeavesApart(cfg: Config, pages: Pages, fs: Fences, root: PageId, p: PageId, q: PageId)
    requires TreeOk(cfg, pages, fs, root) && p in pages && pages[p].leaf
    requires q in pages && pages[q].leaf && fs[q].lo >= fs[p].lo && p != q
    ensures fs[p].hi.Some? && fs[p].hi.value <= fs[q].lo
  {
    hide SpaceOk, LinksOk;
    assert PageOk(cfg, pages[p], fs[p], fs) && PageOk(cfg, pages[q], fs[q], fs);
  }

  function Keys(cells: seq<Cell>): (ks: seq<nat>)
    ensures |ks| == |cells| && forall j :: 0 <= j < |ks| ==> ks[j] == cells[j].key
  {
    seq(|cells|, j requires 0 <= j < |cells| => cells[j].key)
  }

  function KeysOf(pages: Pages, ids: seq<PageId>): seq<nat>
    requires forall id :: id in ids ==> id in pages
  {
    if ids == [] then [] else Keys(pages[ids[0]].cells) + KeysOf(pages, ids[1..])
  }

  predicate Increasing(ks: seq<nat>) {
    forall i, j :: 0 <= i < j < |ks| ==> ks[i] < ks[j]
  }

  lemma {:induction false} ChainKeys(cfg: Config, pages: Pages, fs: Fences, root: PageId, p: PageId)
    requires TreeOk(cfg, pages, fs, root) && p in pages && pages[p].leaf
    ensures var ids := Chain(cfg, pages, fs, root, p);
            && (forall id :: id in ids ==> id in pages)
            && Increasing(KeysOf(pages, ids)) && forall k :: k in KeysOf(pages, ids) ==> k > fs[p].lo
    decreases After(fs, p)
  {
    hide SpaceOk, LinksOk, Disjoint, Increasing, After;
    ChainLinks(cfg, pages, fs, root, p);
    NextLeaf(cfg, pages, fs, root, p);
    assert PageOk(cfg, pages[p], fs[p], fs);
    LeafKeys(cfg, pages[p], fs[p]);
    var ids := Chain(cfg, pages, fs, root, p);
    if pages[p].right != 0 {
      var r := pages[p].right;
      ChainKeys(cfg, pages, fs, root, r);
      assert ids[1..] == Chain(cfg, pages, fs, root, r);
      IncreasingConcat(Keys(pages[p].cells), KeysOf(pages, ids[1..]), fs[r].lo);
    } else {
      assert ids[1..] == [];
      assert KeysOf(pages, ids) == Keys(pages[p].cells);
    }
  }

  lemma LeafKeys(cfg: Config, n: Node, f: Fence)
    requires CellsOk(cfg, n, f)
    ensures Increasing(Keys(n.cells)) && forall k :: k in Keys(n.cells) ==> Within(f, k)
  {
    forall k | k in Keys(n.cells) ensures Within(f, k) {
      var j :| 0 <= j < |n.cells| && Keys(n.cells)[j] == k;
      KeyWithin(cfg, n, f, j);
    }
  }

  lemma IncreasingConcat(a: seq<nat>, b: seq<nat>, mid: int)
    requires Increasing(a) && Increasing(b)
    requires (forall k :: k in a ==> k <= mid) && (forall k :: k in b ==> mid < k)
    ensures Increasing(a + b)
  {
    var s := a + b;
    forall i, j | 0 <= i < j < |s| ensures s[i] < s[j] {
      if i < |a| <= j {
        assert s[i] in a && s[j] in b;
      }
    }
  }

  ghost function Leftmost(cfg: Config, pages: Pages, fs: Fences, root: PageId, p: PageId): (q: PageId)
    requires TreeOk(cfg, pages, fs, root) && p in pages
    ensures q in pages && pages[q].leaf && fs[q].lo == fs[p].lo
    decreases fs[p].level
  {
    assert PageOk(cfg, pages[p], fs[p], fs);
    if pages[p].leaf then p
    else
      assert ChildOk(pages[p], fs[p], fs, 0);
      Leftmost(cfg, pages, fs, root, ChildId(pages[p], 0))
  }

  /** From the leftmost leaf, `right` visits every leaf exactly once, ends at 0, and
      yields the stored keys in strictly increasing order. */
  lemma LeafChain(cfg: Config, pages: Pages, fs: Fences, root: PageId, m: map<nat, seq<Byte>>)
    requires TreeOk(cfg, pages, fs, root) && Represents(pages, m)
    ensures var ids := Chain(cfg, pages, fs, root, Leftmost(cfg, pages, fs, root, root));
            && (forall q :: q in ids <==> q in pages && pages[q].leaf)
            && (forall j, k :: 0 <= j < k < |ids| ==> ids[j] != ids[k])
            && (forall j :: 0 <= j < |ids| - 1 ==> pages[ids[j]].right == ids[j + 1])
            && pages[ids[|ids| - 1]].right == 0
            && Increasing(KeysOf(pages, ids)) && forall k :: k in KeysOf(pages, ids) <==> k in m
  {
    hide Chain, Leftmost, Represents, PageOk, Disjoint, Increasing, KeysOf;
    var l := Leftmost(cfg, pages, fs, root, root);
    var ids := Chain(cfg, pages, fs, root, l);
    ChainLinks(cfg, pages, fs, root, l);
    ChainKeys(cfg, pages, fs, root, l);
    forall q | q in pages && pages[q].leaf ensures q in ids {
      LowEnd(cfg, pages, fs, root, q);
      ChainCovers(cfg, pages, fs, root, l, q);
    }
    forall k: nat ensures k in KeysOf(pages, ids) <==> k in m {
      KeysAreStored(pages, ids, m, k);
    }
  }

  lemma LowEnd(cfg: Config, pages: Pages, fs: Fences, root: PageId, q: PageId)
    requires TreeOk(cfg, pages, fs, root) && q in pages
    ensures fs[q].lo >= -1
  {
    assert PageOk(cfg, pages[q], fs[q], fs);
  }

  lemma KeysAreStored(pages: Pages, ids: seq<PageId>, m: map<nat, seq<Byte>>, k: nat)
    requires forall q :: q in ids <==> q in pages && pages[q].leaf
    requires Represents(pages, m)
    ensures k in KeysOf(pages, ids) <==> k in m
  {
    KeyInSome(pages, ids, k);
    if k in m {
      var e := Entry(k, m[k]);
      assert Stored(pages, e);
      var q :| q in pages && pages[q].leaf && e in pages[q].cells;
      var j :| 0 <= j < |pages[q].cells| && pages[q].cells[j] == e;
      assert q in ids && Keys(pages[q].cells)[j] == k;
    }
    if k in KeysOf(pages, ids) {
      var q :| q in ids && k in Keys(pages[q].cells);
      var j :| 0 <= j < |pages[q].cells| && Keys(pages[q].cells)[j] == k;
      assert pages[q].cells[j] in pages[q].cells;
      assert Stored(pages, pages[q].cells[j]);
    }
  }

  lemma {:induction false} KeyInSome(pages: Pages, ids: seq<PageId>, k: nat)
    requires forall q :: q in ids ==> q in pages
    ensures k in KeysOf(pages, ids) <==> exists q :: q in ids && k in Keys(pages[q].cells)
  {
    if ids != [] {
      KeyInSome(pages, ids[1..], k);
      assert ids == [ids[0]] + ids[1..];
    }
  }

  // ------------------------------------------------------------------ halves

  lemma NodeSorted(cfg: Config, pages: Pages, fs: Fences, root: PageId, p: PageId)
    requires TreeOk(cfg, pages, fs, root) && p in pages
    ensures pages[p].Typed() && Sorted(pages[p].cells) && pages[p].leaf == (fs[p].level == 0)
    ensures CellsOk(cfg, pages[p], fs[p]) && SpaceOk(cfg, pages[p])
  {
    hide LinksOk, Disjoint, RootOk;
    assert PageOk(cfg, pages[p], fs[p], fs);
  }

  lemma HasKeyAt(cells: seq<Cell>, k: nat)
    requires k < |cells|
    ensures HasKey(cells, cells[k].key)
  {
  }

  /** Looking for another key than the split key in the half responsible for it is
      looking in the whole page. */
  lemma HalfFinds(n: Node, key: nat, s: PageId)
    requires Sorted(n.cells) && |n.cells| >= 2 && key != SplitKey(n)
    ensures key < SplitKey(n) ==> Find(LeftHalf(n, s).cells, key) == Find(n.cells, key) < SplitPoint(n)
    ensures key > SplitKey(n) ==> Find(RightHalf(n).cells, key) == Find(n.cells, key) - SplitPoint(n)
  {
    var k, i := SplitPoint(n), Find(n.cells, key);
    if key < SplitKey(n) {
      FindUnique(n.cells[..k], key, i);
    } else {
      FindUnique(n.cells[k..], key, i - k);
    }
  }

  lemma HalfWalks(n: Node, key: nat, s: PageId)
    requires n.Typed() && Sorted(n.cells) && |n.cells| >= 2 && key != SplitKey(n) && s < MAX_ID
    ensures var h := if key <= SplitKey(n) then LeftHalf(n, s) else RightHalf(n);
            && h.Typed()
            && (HasKey(h.cells, key) <==> HasKey(n.cells, key))
            && (!n.leaf ==> Next(h, key) == Next(n, key))
  {
    hide Find;
    HalfFinds(n, key, s);
    var h := if key <= SplitKey(n) then LeftHalf(n, s) else RightHalf(n);
    HalvesTyped(n, s);
    FindHit(n.cells, key);
    FindHit(h.cells, key);
  }

  lemma HalfLeaf(n: Node, s: PageId)
    ensures LeftHalf(n, s).leaf == n.leaf && RightHalf(n).leaf == n.leaf
  {
  }

  /** The split key of any page is a stored key. */
  lemma SplitKeyStored(cfg: Config, pages: Pages, fs: Fences, root: PageId, m: map<nat, seq<Byte>>, c: PageId)
    requires TreeOk(cfg, pages, fs, root) && Represents(pages, m) && c in pages && |pages[c].cells| >= 2
    ensures SplitKey(pages[c]) in m
  {
    hide PageOk, RootOk, Disjoint, Represents, HasKey;
    var n, k := pages[c], SplitPoint(pages[c]) - 1;
    if n.leaf {
      NodeSorted(cfg, pages, fs, root, c);
      KeyWithin(cfg, n, fs[c], k);
      LeafDecides(cfg, pages, fs, root, m, c, n.cells[k].key);
      HasKeyAt(n.cells, k);
    } else {
      SeparatorIsStored(cfg, pages, fs, root, m, c, k);
    }
  }
}
