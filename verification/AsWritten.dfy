/**
  Inputs for which the text of src/btree.c does less than it means to. What it does for
  all inputs is `TreeFate.Ahead` and the contract of `BTree.Insert`.
*/
module AsWritten {
  import opened Common
  import opened Varint
  import Blob
  import opened Cells
  import opened TreeInvariant
  import opened TreeSteps
  import opened TreeWalk
  import opened TreeFate

  /** A tree of one leaf. */
  function OneLeaf(cells: seq<Cell>): Pages {
    map[1 := Node(true, cells, 0)]
  }

  const LEAF_FENCES: Fences := map[1 := Fence(0, -1, None)]

  lemma OneLeafOk(cfg: Config, cells: seq<Cell>)
    requires Sorted(cells) && (forall c :: c in cells ==> c.Fits() && c.Entry? && InWindow(cfg.base, c.key))
    requires Used(cells) <= cfg.space
    ensures TreeOk(cfg, OneLeaf(cells), LEAF_FENCES, 1)
  {
    hide Used;
    var n := Node(true, cells, 0);
    assert forall i :: 0 <= i < |cells| ==> cells[i] in cells;
    assert CellsOk(cfg, n, Fence(0, -1, None)) && SpaceOk(cfg, n);
    assert PageOk(cfg, n, LEAF_FENCES[1], LEAF_FENCES);
  }

  /** Rows of equal cost with ids from `low` on, all with the same blob. */
  function RowsFrom(low: nat, count: nat, blob: seq<Byte>): (cells: seq<Cell>)
    ensures |cells| == count
  {
    seq(count, i requires 0 <= i < count => Entry(low + i, blob))
  }

  lemma RowsFromUse(low: nat, count: nat, blob: seq<Byte>)
    requires low + count <= 128 && |blob| < 128
    ensures var cells := RowsFrom(low, count, blob);
            && Sorted(cells)
            && (forall c :: c in cells ==> c.Fits() && c.Entry? && c.key < 128 && Cost(c) == |blob| + 4)
            && Used(cells) == (|blob| + 4) * count
  {
    hide Used, Payload;
    var cells := RowsFrom(low, count, blob);
    forall c | c in cells ensures c.Fits() && c.Entry? && c.key < 128 && Cost(c) == |blob| + 4 {
      SmallCost(c.key, blob);
    }
    UsedBounds(cells, Costs(|blob| + 4, |blob| + 4));
  }

  lemma SmallCost(key: nat, blob: seq<Byte>)
    requires key < 128 && |blob| < 128
    ensures Entry(key, blob).Fits() && Cost(Entry(key, blob)) == |blob| + 4
    ensures |Varint.Encode(key)| == 1 && |Blob.Encode(blob)| == |blob| + 1
  {
  }

  // -------------------------------------------- the guards, lines 362 and 398

  /** Pages of 1024 bytes and rows of 22 bytes with one-byte ids: after 38 rows the guard
      lets the 39th in, and line 240 fails. With the guard as meant the leaf is split and
      the row added. */
  lemma RowThirtyNine(routing: bool, cleanup: bool)
    ensures var blob: seq<Byte> := seq(22, i => 0);
            var cfg, rows, e := Config(1024 - HEADER_SIZE, 0), RowsFrom(0, 38, blob), Entry(38, blob);
            && TreeOk(cfg, OneLeaf(rows), LEAF_FENCES, 1) && OneLeaf(rows)[1].Typed() && e.Fits()
            && Roomy(cfg.space, Costs(26, 26)) && Cost(e) == 26
            && FromRoot(cfg.space, Repairs(routing, false, cleanup), OneLeaf(rows), 1, 0, e) == Fate(Trips, 0)
            && FromRoot(cfg.space, Repairs(routing, true, cleanup), OneLeaf(rows), 1, 0, e) == Fate(Fresh, 2)
  {
    hide Used, Payload, TreeOk;
    var blob: seq<Byte> := seq(22, i => 0);
    var cfg, rows, e := Config(1024 - HEADER_SIZE, 0), RowsFrom(0, 38, blob), Entry(38, blob);
    RowsFromUse(0, 38, blob);
    OneLeafOk(cfg, rows);
    SmallCost(38, blob);
    assert !HasKey(rows, 38);
    var n := OneLeaf(rows)[1];
    assert SplitPoint(n) == 19 && SplitKey(n) == 18;
    assert rows[19..] == RowsFrom(19, 19, blob);
    RowsFromUse(19, 19, blob);
    assert !HasKey(RowsFrom(19, 19, blob), 38);
  }

  // ---------------------------------------------- the assertion on line 339

  const B: nat := 0x1000_0000

  lemma FiveBytes(v: nat)
    requires B <= v < 0x8000_0000
    ensures |Varint.Encode(v)| == 5
  {
    var v1, v2, v3, v4 := v / 128, v / 128 / 128, v / 128 / 128 / 128, v / 128 / 128 / 128 / 128;
    Weights();
    assert Weight(4) == 0x1000_0000;
    assert |EncodeFrom(v4, 4)| == 1;
    assert |EncodeFrom(v3, 3)| == 2;
    assert |EncodeFrom(v2, 2)| == 3;
    assert |EncodeFrom(v1, 1)| == 4;
  }

  /** A root that is as full as it can be, over four leaves with one row each. */
  function FullRoot(): Pages {
    map[1 := Node(false, [Sep(1, 2), Sep(B, 3), Sep(B + 1, 4)], 5),
        2 := Node(true, [Entry(1, [])], 3),
        3 := Node(true, [Entry(B, [])], 4),
        4 := Node(true, [Entry(B + 1, [])], 5),
        5 := Node(true, [Entry(B + 3, [])], 0)]
  }

  function FullRootFences(): Fences {
    map[1 := Fence(1, -1, None), 2 := Fence(0, -1, Some(1)), 3 := Fence(0, 1, Some(B)),
        4 := Fence(0, B, Some(B + 1)), 5 := Fence(0, B + 1, None)]
  }

  lemma FullRootUse()
    ensures var n := FullRoot()[1]; n.Typed() && Used(n.cells) == 29 && Used(n.cells[1..]) == 22
    ensures forall p :: p in FullRoot() ==> FullRoot()[p].Typed() && Used(FullRoot()[p].cells) <= 29
  {
    hide Payload, Varint.Encode;
    var n := FullRoot()[1];
    SepSizes();
    var a, b, c := Sep(1, 2), Sep(B, 3), Sep(B + 1, 4);
    assert n.cells == [a] + [b, c] && n.cells[1..] == [b, c];
    OneCellUse(a);
    TwoCellUse(b, c);
    SizeConcat([a], [b, c]);
    forall p | p in FullRoot() && p != 1 ensures FullRoot()[p].Typed() && Used(FullRoot()[p].cells) <= 29 {
      OneCellUse(FullRoot()[p].cells[0]);
    }
  }

  lemma SepSizes()
    ensures |Payload(Sep(1, 2))| == 5 && |Payload(Sep(B, 3))| == 9 && |Payload(Sep(B + 1, 4))| == 9
    ensures forall k :: 0 <= k < 0x8000_0000 ==> Entry(k, []).Fits() && |Payload(Entry(k, []))| <= 6
  {
    FiveBytes(B);
    FiveBytes(B + 1);
    forall k | 0 <= k < 0x8000_0000 ensures |Varint.Encode(k)| <= 5 {
      AtMostFive(k);
    }
  }

  lemma AtMostFive(v: nat)
    requires v < 0x8000_0000
    ensures |Varint.Encode(v)| <= 5
  {
    var v1, v2, v3, v4 := v / 128, v / 128 / 128, v / 128 / 128 / 128, v / 128 / 128 / 128 / 128;
    Weights();
    assert Weight(4) == 0x1000_0000;
    assert |EncodeFrom(v4, 4)| == 1;
    assert |EncodeFrom(v3, 3)| <= 2;
    assert |EncodeFrom(v2, 2)| <= 3;
    assert |EncodeFrom(v1, 1)| <= 4;
  }

  lemma OneCellUse(c: Cell)
    requires c.Fits()
    ensures Size([c]) == |Payload(c)| && Used([c]) == |Payload(c)| + SLOT_SIZE
  {
    assert [c][..0] == [];
  }

  lemma TwoCellUse(c: Cell, d: Cell)
    requires c.Fits() && d.Fits()
    ensures Size([c, d]) == |Payload(c)| + |Payload(d)| && Used([c, d]) == |Payload(c)| + |Payload(d)| + 2 * SLOT_SIZE
  {
    assert [c, d] == [c] + [d];
    OneCellUse(c);
    OneCellUse(d);
    SizeConcat([c], [d]);
  }

  lemma FullRootPage()
    ensures PageOk(Config(29, 0), FullRoot()[1], FullRootFences()[1], FullRootFences())
  {
    hide Used, Payload;
    FullRootUse();
    var n, f, fs := FullRoot()[1], FullRootFences()[1], FullRootFences();
    forall i: nat | i < Arity(n, f) ensures ChildOk(n, f, fs, i) {
    }
  }

  lemma FullRootLeaf(p: PageId)
    requires p in FullRoot() && p != 1
    ensures PageOk(Config(29, 0), FullRoot()[p], FullRootFences()[p], FullRootFences())
  {
    hide Used, Payload;
    FullRootUse();
  }

  lemma FullRootOk()
    ensures TreeOk(Config(29, 0), FullRoot(), FullRootFences(), 1)
  {
    hide PageOk;
    var pages, fs := FullRoot(), FullRootFences();
    forall p | p in pages ensures PageOk(Config(29, 0), pages[p], fs[p], fs) {
      if p == 1 {
        FullRootPage();
      } else {
        FullRootLeaf(p);
      }
    }
  }

  /** On a page of 41 bytes, with any of the repairs: the root is split, its right half has
      7 bytes free, and line 339 asks for the 9 of the key that goes on through it. */
  lemma HalfWithoutRoom(fix: Repairs)
    ensures var cfg, e := Config(29, 0), Entry(B + 2, []);
            && TreeOk(cfg, FullRoot(), FullRootFences(), 1) && FullRoot()[1].Typed() && e.Fits()
            && FromRoot(cfg.space, fix, FullRoot(), 1, 1, e) == Fate(Trips, 2)
  {
    hide Used, Payload, TreeOk, Varint.Encode;
    FullRootOk();
    FullRootUse();
    FiveBytes(B + 2);
    var n := FullRoot()[1];
    assert SplitPoint(n) == 1 && SplitKey(n) == 1;
    assert RightHalf(n).cells == n.cells[1..];
  }

  // ------------------------------------------------ the routing, lines 371 and 427

  /** In a tree of one full leaf exactly the split key is added twice. */
  lemma FullLeafTwice(cfg: Config, fix: Repairs, pages: Pages, fs: Fences, root: PageId, e: Cell)
    requires TreeOk(cfg, pages, fs, root) && root in pages && pages[root].leaf && |pages[root].cells| >= 2
    requires e.Entry? && e.Fits() && pages[root].Typed() && Full(cfg.space, fix, pages[root], e)
    requires RightHalf(pages[root]).Typed() && Takes(cfg.space, RightHalf(pages[root]), e)
    ensures root in fs
    ensures FromRoot(cfg.space, fix, pages, root, fs[root].level, e).end == Twice
            <==> !fix.routing && e.key == SplitKey(pages[root])
  {
    hide PageOk, Disjoint, Full, Takes, Node.Typed;
    NodeSorted(cfg, pages, fs, root, root);
    AtSplitKey(pages[root], 0);
    HalfLeaf(pages[root], 0);
  }

  /** Such a tree, with keys 1 and 2 on a page of 102 bytes. */
  lemma RepeatedKeyIsLost(fix: Repairs)
    ensures var blob: seq<Byte> := seq(41, i => 0);
            var cfg, rows, e := Config(90, 0), RowsFrom(1, 2, blob), Entry(1, blob);
            && TreeOk(cfg, OneLeaf(rows), LEAF_FENCES, 1) && OneLeaf(rows)[1].Typed() && e.Fits()
            && FromRoot(cfg.space, fix, OneLeaf(rows), 1, 0, e) == Fate(if fix.routing then Found else Twice, 2)
  {
    hide Used, Payload, TreeOk;
    var blob: seq<Byte> := seq(41, i => 0);
    var cfg, rows, e := Config(90, 0), RowsFrom(1, 2, blob), Entry(1, blob);
    RowsFromUse(1, 2, blob);
    OneLeafOk(cfg, rows);
    SmallCost(1, blob);
    var n := OneLeaf(rows)[1];
    assert SplitPoint(n) == 1 && SplitKey(n) == 1;
    assert rows[1..] == RowsFrom(2, 1, blob);
    RowsFromUse(2, 1, blob);
    assert RowsFrom(2, 1, blob)[0].key == 2;
    assert !HasKey(RowsFrom(2, 1, blob), 1);
    assert rows[..1][0].key == 1;
    HasKeyAt(rows[..1], 0);
  }

  // ------------------------------------------------------------ the cleanup

  /** The same id twice, on a page of 1024 bytes: the second insert finds the key in the
      root, which lines 436 and 395 then both unfix. */
  lemma RepeatedId(fix: Repairs)
    ensures var cfg, rows, e := Config(1024 - HEADER_SIZE, 0), RowsFrom(1, 1, [7]), Entry(1, [8]);
            && TreeOk(cfg, OneLeaf(rows), LEAF_FENCES, 1) && OneLeaf(rows)[1].Typed() && e.Fits()
            && FromRoot(cfg.space, fix, OneLeaf(rows), 1, 0, e) == Fate(Found, 0)
  {
    hide Used, Payload, TreeOk;
    var cfg, rows := Config(1024 - HEADER_SIZE, 0), RowsFrom(1, 1, [7]);
    RowsFromUse(1, 1, [7]);
    OneLeafOk(cfg, rows);
    SmallCost(1, [8]);
    HasKeyAt(rows, 0);
  }

  // ------------------------------------------- a split root with no page to spare

  /** A leaf root that is left half split has lost exactly the keys above the split key. */
  lemma TornLeafRoot(pages: Pages, root: PageId, s: PageId, key: nat)
    requires root in pages && s !in pages && pages[root].leaf
    requires |pages[root].cells| >= 2 && Sorted(pages[root].cells)
    ensures HasKey(TornPages(pages, root, s)[root].cells, key)
            <==> HasKey(pages[root].cells, key) && key <= SplitKey(pages[root])
  {
    var n := pages[root];
    if HasKey(n.cells, key) && key <= SplitKey(n) {
      var i :| 0 <= i < |n.cells| && n.cells[i].key == key;
      assert n.cells[..SplitPoint(n)][i].key == key;
    }
  }
}
