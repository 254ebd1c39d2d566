/**
  What is ahead of an insertion, told from the tree as it is before: which pages it
  will split, where it ends, and how. Nothing here changes a page; that the insertion
  really fares so is the contract of `BTree.Insert`.
*/
module TreeFate {
  import opened Common
  import opened Varint
  import Blob
  import opened Cells
  import opened TreeInvariant
  import opened TreeSteps
  import opened TreeWalk

  /** The places of src/btree.c that are taken as meant, and not as written: lines 371
      and 427, lines 362 and 398, and the cleanup of errors. */
  datatype Repairs = Repairs(routing: bool, guard: bool, cleanup: bool)

  /** `payload_put_len`, in 16 bits. */
  function PutLen(leaf: bool, keySize: nat, valueSize: nat): nat {
    if leaf then (keySize % 0x1_0000 + valueSize % 0x1_0000) % 0x1_0000
    else keySize % 0x1_0000 + ID_SIZE
  }

  /** The free space below which a page is split before it is entered. As meant: the
      entry with its slot in a leaf, a separator of any length with its slot in an
      inner page. */
  function Need(fix: Repairs, leaf: bool, keySize: nat, valueSize: nat): nat {
    if !fix.guard then PutLen(leaf, keySize, valueSize)
    else if leaf then keySize + valueSize + SLOT_SIZE
    else INNER_COSTS.max
  }

  predicate Full(space: nat, fix: Repairs, n: Node, e: Cell)
    requires n.Typed() && e.Entry? && e.Fits()
  {
    space < Used(n.cells) + Need(fix, n.leaf, |Varint.Encode(e.key)|, |Blob.Encode(e.blob)|)
  }

  /** When a page with f bytes free is split before row e is entered. As written: a leaf
      exactly if the payload, in 16 bits, is longer than f, so the slot of 2 bytes is
      forgotten; an inner page exactly if the key and a page id are. As meant: a leaf
      exactly if payload and slot are longer, an inner page exactly below the 15 bytes of
      the longest separator. And when lines 240 and 339 hold. */
  lemma GuardDecides(space: nat, fix: Repairs, n: Node, e: Cell)
    requires n.Typed() && e.Entry? && e.Fits() && Used(n.cells) <= space
    ensures var f := space - Used(n.cells);
            && (!fix.guard && n.leaf ==> (Full(space, fix, n, e) <==> f < |Payload(e)| % 0x1_0000))
            && (!fix.guard && n.leaf && |Payload(e)| < 0x1_0000 ==> (Full(space, fix, n, e) <==> f < |Payload(e)|))
            && (!fix.guard && !n.leaf ==> (Full(space, fix, n, e) <==> f < |Varint.Encode(e.key)| + 4))
            && (fix.guard && n.leaf ==> (Full(space, fix, n, e) <==> f < |Payload(e)| + 2))
            && (fix.guard && !n.leaf ==> (Full(space, fix, n, e) <==> f < 15))
            && (Takes(space, n, e) <==> f >= |Payload(e)| + 2)
            && (Admits(space, n, e) <==> f >= |Varint.Encode(e.key)| + 4)
            && forall k: nat, p: PageId :: k < U64 && p < MAX_ID ==>
                 (Takes(space, n, Sep(k, p)) <==> f >= |Varint.Encode(k)| + 6)
  {
    hide Used, Varint.Encode, Blob.Encode;
    KeyLength(e.key);
  }

  lemma KeyLength(key: nat)
    requires key < U64
    ensures |Varint.Encode(key)| < 0x1_0000
  {
  }

  /** A leaf that is entered whole and does not have the key fails line 240 exactly if
      the payload fits and its slot does not; as meant it never does. */
  lemma WholeLeafTrips(space: nat, fix: Repairs, pages: Pages, n: Node, level: nat, e: Cell, lost: bool)
    requires n.Typed() && n.leaf && e.Entry? && e.Fits() && Used(n.cells) <= space
    requires !HasKey(n.cells, e.key) && !Full(space, fix, n, e)
    ensures var f := space - Used(n.cells);
            && (!fix.guard && |Payload(e)| < 0x1_0000 ==>
                  (Ahead(space, fix, pages, n, level, e, lost).end == Trips <==> |Payload(e)| <= f < |Payload(e)| + 2))
            && (fix.guard ==> Ahead(space, fix, pages, n, level, e, lost).end != Trips)
  {
    hide Used, HasKey, Full, Takes;
    GuardDecides(space, fix, n, e);
  }

  /** Whether the key goes on in the left half of a page that is split at splitKey. */
  predicate Left(fix: Repairs, key: nat, splitKey: nat) {
    key < splitKey || (fix.routing && key == splitKey)
  }

  function HalfFor(fix: Repairs, n: Node, key: nat, s: PageId): Node
    requires |n.cells| >= 2
  {
    if Left(fix, key, SplitKey(n)) then LeftHalf(n, s) else RightHalf(n)
  }

  /** A key that equals the split key and is sent to the right has missed its place. */
  predicate GetsLost(fix: Repairs, lost: bool, key: nat, splitKey: nat) {
    lost || (!fix.routing && key == splitKey)
  }

  // ------------------------------------------------------------------- the fate

  /** The assertion on line 339, on an inner page that the walk is at. */
  predicate Admits(space: nat, n: Node, e: Cell)
    requires n.Typed() && e.Entry? && e.Fits()
  {
    Used(n.cells) + PutLen(false, |Varint.Encode(e.key)|, |Blob.Encode(e.blob)|) <= space
  }

  /** The key is added where it belongs, found, or added a second time; line 240 or line
      339 fails; or a page with fewer than two cells is split, and lines 367 and 404 read
      slot -1. */
  datatype End = Fresh | Found | Twice | Trips | Outside

  /** How it ends, and how many new pages are asked for until then. */
  datatype Fate = Fate(end: End, pages: nat)

  function More(k: nat, f: Fate): Fate {
    f.(pages := f.pages + k)
  }

  /** Ahead of a walk that enters node n, a page or a half of one, at this level. */
  function Ahead(space: nat, fix: Repairs, pages: Pages, n: Node, level: nat, e: Cell, lost: bool): Fate
    requires n.Typed() && e.Entry? && e.Fits()
    decreases level, 0
  {
    if !n.leaf && !Admits(space, n, e) then Fate(Trips, 0)
    else if HasKey(n.cells, e.key) then Fate(Found, 0)
    else if n.leaf then
      Fate(if !Takes(space, n, e) then Trips else if lost then Twice else Fresh, 0)
    else
      var c := Next(n, e.key);
      if level == 0 || c !in pages || !pages[c].Typed() then Fate(Outside, 0)
      else if !Full(space, fix, pages[c], e) then Ahead(space, fix, pages, pages[c], level - 1, e, lost)
      else if |pages[c].cells| < 2 then Fate(Outside, 1)
      else if !Takes(space, n, Sep(SplitKey(pages[c]), c)) then Fate(Trips, 1)
      else More(1, AheadInHalf(space, fix, pages, pages[c], level - 1, e, lost))
  }

  function AheadInHalf(space: nat, fix: Repairs, pages: Pages, n: Node, level: nat, e: Cell, lost: bool): Fate
    requires n.Typed() && e.Entry? && e.Fits() && |n.cells| >= 2
    decreases level, 1
  {
    HalvesTyped(n, 0);
    Ahead(space, fix, pages, HalfFor(fix, n, e.key, 0), level, e, GetsLost(fix, lost, e.key, SplitKey(n)))
  }

  /** Ahead of the whole insertion. A full root takes two new pages. */
  function FromRoot(space: nat, fix: Repairs, pages: Pages, root: PageId, level: nat, e: Cell): Fate
    requires root in pages && pages[root].Typed() && e.Entry? && e.Fits()
  {
    var n := pages[root];
    if !Full(space, fix, n, e) then Ahead(space, fix, pages, n, level, e, false)
    else if |n.cells| < 2 then Fate(Outside, 1)
    else More(2, AheadInHalf(space, fix, pages, n, level, e, false))
  }

  // ---------------------------------------------------------- where a walk stands

  /** The key is in the range, or, if it got lost, at its open lower end. */
  predicate Stands(f: Fence, key: nat, lost: bool) {
    if lost then key == f.lo else Within(f, key)
  }

  /** What a walk that enters n can count on. */
  ghost predicate Leads(pages: Pages, fs: Fences, m: map<nat, seq<Byte>>, n: Node, level: nat, key: nat, lost: bool) {
    && n.Typed() && n.leaf == (level == 0) && (lost ==> key in m)
    && (HasKey(n.cells, key) ==> !lost && key in m)
    && (n.leaf && !lost && key in m ==> HasKey(n.cells, key))
    && (!n.leaf && !HasKey(n.cells, key) ==>
          var c := Next(n, key); c in pages && c in fs && fs[c].level == level - 1 && Stands(fs[c], key, lost))
  }

  lemma PageLeads(cfg: Config, pages: Pages, fs: Fences, root: PageId, m: map<nat, seq<Byte>>, p: PageId, key: nat,
                  lost: bool)
    requires TreeOk(cfg, pages, fs, root) && Represents(pages, m) && p in pages && p in fs
    requires Stands(fs[p], key, lost) && (lost ==> key in m)
    ensures Leads(pages, fs, m, pages[p], fs[p].level, key, lost)
  {
    hide PageOk, RootOk, Disjoint, Represents;
    NodeSorted(cfg, pages, fs, root, p);
    if pages[p].leaf {
      if lost {
      } else {
        LeafDecides(cfg, pages, fs, root, m, p, key);
      }
    } else if lost {
      DescendAtLowEnd(cfg, pages, fs, root, p, key);
    } else {
      Descend(cfg, pages, fs, root, p, key);
      if HasKey(pages[p].cells, key) {
        var i :| 0 <= i < |pages[p].cells| && pages[p].cells[i].key == key;
        SeparatorIsStored(cfg, pages, fs, root, m, p, i);
      }
    }
  }

  /** A walk that stood at page c goes on in its half as it should. */
  lemma HalfLeads(cfg: Config, pages: Pages, fs: Fences, root: PageId, m: map<nat, seq<Byte>>, fix: Repairs,
                  c: PageId, key: nat, lost: bool, s: PageId)
    requires TreeOk(cfg, pages, fs, root) && Represents(pages, m) && c in pages && c in fs && |pages[c].cells| >= 2
    requires Stands(fs[c], key, lost) && (lost ==> key in m) && s < MAX_ID
    ensures var sk := SplitKey(pages[c]); var lost' := GetsLost(fix, lost, key, sk);
            && Leads(pages, fs, m, HalfFor(fix, pages[c], key, s), fs[c].level, key, lost')
            && Stands(if Left(fix, key, sk) then LowerFence(fs[c], sk) else UpperFence(fs[c], sk), key, lost')
  {
    hide PageOk, RootOk, Disjoint, Represents, SplitKey, Node.Typed, LeftHalf, RightHalf;
    var n, sk := pages[c], SplitKey(pages[c]);
    NodeSorted(cfg, pages, fs, root, c);
    PageLeads(cfg, pages, fs, root, m, c, key, lost);
    SplitKeyOk(cfg, n, fs[c]);
    SplitKeyStored(cfg, pages, fs, root, m, c);
    HalvesTyped(n, s);
    HalfLeaf(n, s);
    if key != sk {
      HalfWalks(n, key, s);
    } else {
      AtSplitKey(n, s);
      if !n.leaf {
        ChildFacts(cfg, pages, fs, root, c, SplitPoint(n));
        SplitPointChild(n, fs[c]);
      }
    }
  }

  /** The split key is the last of the left half, and comes before all of the right. */
  lemma AtSplitKey(n: Node, s: PageId)
    requires n.Typed() && Sorted(n.cells) && |n.cells| >= 2 && s < MAX_ID
    ensures HasKey(LeftHalf(n, s).cells, SplitKey(n)) && !HasKey(RightHalf(n).cells, SplitKey(n))
    ensures RightHalf(n).Typed()
    ensures !n.leaf ==> Next(RightHalf(n), SplitKey(n)) == ChildId(n, SplitPoint(n))
  {
    var k := SplitPoint(n);
    HalvesTyped(n, s);
    HasKeyAt(n.cells[..k], k - 1);
    FindUnique(n.cells[k..], SplitKey(n), 0);
  }

  lemma SplitPointChild(n: Node, f: Fence)
    requires |n.cells| >= 2 && f.level > 0
    ensures SplitPoint(n) < |n.cells| && SplitPoint(n) < Arity(n, f)
    ensures ChildFence(n, f, SplitPoint(n)).lo == SplitKey(n)
  {
  }

  // ------------------------------------------------------------- the fate stays

  /** The fate depends on the node that is entered only through its cells and the way
      on ... */
  lemma AheadSame(space: nat, fix: Repairs, pages: Pages, n: Node, n': Node, level: nat, e: Cell, lost: bool)
    requires n.Typed() && n'.Typed() && e.Entry? && e.Fits() && n.leaf == n'.leaf && n.cells == n'.cells
    requires !n.leaf && !HasKey(n.cells, e.key) ==> Next(n, e.key) == Next(n', e.key)
    ensures Ahead(space, fix, pages, n, level, e, lost) == Ahead(space, fix, pages, n', level, e, lost)
  {
    hide Node.Typed, Next, HasKey, Used, Payload, Full, Admits;
    AdmitsSame(space, n, n', e);
  }

  lemma AdmitsSame(space: nat, n: Node, n': Node, e: Cell)
    requires n.Typed() && n'.Typed() && e.Entry? && e.Fits() && n.cells == n'.cells
    ensures Admits(space, n, e) == Admits(space, n', e)
  {
  }

  /** ... and on the pages below. */
  lemma {:induction false} AheadFrame(cfg: Config, pages: Pages, fs: Fences, root: PageId, m: map<nat, seq<Byte>>,
                                      fix: Repairs, n: Node, level: nat, e: Cell, lost: bool, pages': Pages)
    requires TreeOk(cfg, pages, fs, root) && Represents(pages, m) && e.Entry? && e.Fits()
    requires Leads(pages, fs, m, n, level, e.key, lost)
    requires forall q :: q in pages && q in fs && fs[q].level < level ==> q in pages' && pages'[q] == pages[q]
    ensures Ahead(cfg.space, fix, pages, n, level, e, lost) == Ahead(cfg.space, fix, pages', n, level, e, lost)
    decreases level
  {
    hide TreeOk, Represents, Node.Typed, HasKey, Full, Takes, Admits, SplitKey, HalfFor, GetsLost, Next;
    if !n.leaf && !HasKey(n.cells, e.key) {
      var c := Next(n, e.key);
      PageLeads(cfg, pages, fs, root, m, c, e.key, lost);
      if |pages[c].cells| >= 2 {
        HalfLeads(cfg, pages, fs, root, m, fix, c, e.key, lost, 0);
        AheadFrame(cfg, pages, fs, root, m, fix, HalfFor(fix, pages[c], e.key, 0), level - 1, e,
                   GetsLost(fix, lost, e.key, SplitKey(pages[c])), pages');
      }
      AheadFrame(cfg, pages, fs, root, m, fix, pages[c], level - 1, e, lost, pages');
    }
  }

  lemma SameHalf(fix: Repairs, n: Node, key: nat, s: PageId)
    requires n.Typed() && |n.cells| >= 2 && s < MAX_ID
    ensures var a, b := HalfFor(fix, n, key, 0), HalfFor(fix, n, key, s);
            && a.Typed() && b.Typed() && a.leaf == b.leaf && a.cells == b.cells
            && (!n.leaf && !HasKey(a.cells, key) ==> Next(a, key) == Next(b, key))
  {
    hide Find;
    HalvesTyped(n, 0);
    HalvesTyped(n, s);
    if key < SplitKey(n) {
      assert n.cells[..SplitPoint(n)][SplitPoint(n) - 1].key == SplitKey(n);
    } else if Left(fix, key, SplitKey(n)) {
      HasKeyAt(n.cells[..SplitPoint(n)], SplitPoint(n) - 1);
    }
  }

  /** Entering the half of a page in a heap that is the same below is what was ahead. */
  lemma HalfFate(cfg: Config, pages: Pages, fs: Fences, root: PageId, m: map<nat, seq<Byte>>, fix: Repairs,
                 c: PageId, e: Cell, lost: bool, s: PageId, pages': Pages, h: PageId)
    requires TreeOk(cfg, pages, fs, root) && Represents(pages, m) && e.Entry? && e.Fits()
    requires c in pages && c in fs && |pages[c].cells| >= 2 && pages[c].Typed()
    requires Stands(fs[c], e.key, lost) && (lost ==> e.key in m) && s < MAX_ID
    requires forall q :: q in pages && q in fs && fs[q].level < fs[c].level ==> q in pages' && pages'[q] == pages[q]
    requires h in pages' && pages'[h] == HalfFor(fix, pages[c], e.key, s)
    ensures pages'[h].Typed()
    ensures Ahead(cfg.space, fix, pages', pages'[h], fs[c].level, e, GetsLost(fix, lost, e.key, SplitKey(pages[c])))
            == AheadInHalf(cfg.space, fix, pages, pages[c], fs[c].level, e, lost)
  {
    hide TreeOk, Represents, Node.Typed, HalfFor, Next, HasKey, SplitKey, Ahead, GetsLost;
    SameHalf(fix, pages[c], e.key, s);
    HalfLeads(cfg, pages, fs, root, m, fix, c, e.key, lost, s);
    var lost' := GetsLost(fix, lost, e.key, SplitKey(pages[c]));
    AheadFrame(cfg, pages, fs, root, m, fix, pages'[h], fs[c].level, e, lost', pages');
    HalfLeafFor(fix, pages[c], e.key, s);
    AheadSame(cfg.space, fix, pages, HalfFor(fix, pages[c], e.key, 0), pages'[h], fs[c].level, e, lost');
  }

  lemma HalfLeafFor(fix: Repairs, n: Node, key: nat, s: PageId)
    requires |n.cells| >= 2
    ensures HalfFor(fix, n, key, s).leaf == n.leaf
  {
  }

  // ---------------------------------------------------------- what the fate can be

  /** A key that is not stored is never found or doubled, a stored one never added as
      fresh; and with the routing as meant none is doubled. */
  lemma {:induction false} EndOfKey(cfg: Config, pages: Pages, fs: Fences, root: PageId, m: map<nat, seq<Byte>>,
                                    fix: Repairs, n: Node, level: nat, e: Cell, lost: bool)
    requires TreeOk(cfg, pages, fs, root) && Represents(pages, m) && e.Entry? && e.Fits()
    requires Leads(pages, fs, m, n, level, e.key, lost)
    ensures var end := Ahead(cfg.space, fix, pages, n, level, e, lost).end;
            && (end == Found || end == Twice ==> e.key in m)
            && (end == Fresh ==> e.key !in m)
            && (end == Twice && !lost ==> !fix.routing)
            && (lost ==> end != Found)
    ensures Ahead(cfg.space, fix, pages, n, level, e, lost).pages <= level
    decreases level
  {
    hide TreeOk, Represents, Node.Typed, HasKey, Full, Takes, Admits, SplitKey, HalfFor, Next;
    if !n.leaf && !HasKey(n.cells, e.key) {
      var c := Next(n, e.key);
      PageLeads(cfg, pages, fs, root, m, c, e.key, lost);
      if |pages[c].cells| >= 2 {
        HalfLeads(cfg, pages, fs, root, m, fix, c, e.key, lost, 0);
        EndOfKey(cfg, pages, fs, root, m, fix, HalfFor(fix, pages[c], e.key, 0), level - 1, e,
                 GetsLost(fix, lost, e.key, SplitKey(pages[c])));
      }
      EndOfKey(cfg, pages, fs, root, m, fix, pages[c], level - 1, e, lost);
    }
  }

  /** The same for the whole insertion. */
  lemma EndFromRoot(cfg: Config, pages: Pages, fs: Fences, root: PageId, m: map<nat, seq<Byte>>, fix: Repairs, e: Cell)
    requires TreeOk(cfg, pages, fs, root) && Represents(pages, m) && e.Entry? && e.Fits()
    ensures root in pages && root in fs && pages[root].Typed()
    ensures var f := FromRoot(cfg.space, fix, pages, root, fs[root].level, e);
            && (f.end == Found || f.end == Twice ==> e.key in m)
            && (f.end == Fresh ==> e.key !in m)
            && (f.end == Twice ==> !fix.routing)
            && f.pages <= fs[root].level + 2
  {
    hide PageOk, Disjoint, Represents, Node.Typed, Full, SplitKey, HalfFor, Ahead;
    PageLeads(cfg, pages, fs, root, m, root, e.key, false);
    EndOfKey(cfg, pages, fs, root, m, fix, pages[root], fs[root].level, e, false);
    if |pages[root].cells| >= 2 {
      HalfLeads(cfg, pages, fs, root, m, fix, root, e.key, false, 0);
      EndOfKey(cfg, pages, fs, root, m, fix, HalfFor(fix, pages[root], e.key, 0), fs[root].level, e,
               GetsLost(fix, false, e.key, SplitKey(pages[root])));
    }
  }

  // ------------------------------------------------- rows that always have room

  /** The rows in the leaves have costs within these bounds. */
  ghost predicate RowsWithin(pages: Pages, b: Costs) {
    forall p :: p in pages && pages[p].leaf ==> CostsWithin(pages[p].cells, b)
  }

  lemma IdInRange(cfg: Config, pages: Pages, fs: Fences, root: PageId, p: PageId)
    requires TreeOk(cfg, pages, fs, root) && p in pages
    ensures 0 < p < MAX_ID
  {
  }

  lemma InnerCosts(n: Node)
    requires n.Typed() && !n.leaf
    ensures CostsWithin(n.cells, INNER_COSTS)
  {
    forall c: Cell | c in n.cells ensures c.Fits() && INNER_COSTS.min <= Cost(c) <= INNER_COSTS.max {
      SepCosts(c.key, c.child);
    }
  }

  /** With the guards as meant, a page that is left whole takes what may come. */
  lemma RoomLeft(space: nat, fix: Repairs, n: Node, e: Cell)
    requires n.Typed() && e.Entry? && e.Fits() && fix.guard && !Full(space, fix, n, e)
    ensures n.leaf ==> Takes(space, n, e)
    ensures !n.leaf ==> Admits(space, n, e) && forall k, p :: Sep(k, p).Fits() ==> Takes(space, n, Sep(k, p))
  {
    hide Used;
    forall k, p | Sep(k, p).Fits() ensures Cost(Sep(k, p)) <= INNER_COSTS.max {
      SepCosts(k, p);
    }
  }

  /** Rows whose costs differ little for the size of the page: a full page has cells to
      split, and either half has room. */
  lemma SplitLeavesRoom(space: nat, fix: Repairs, n: Node, e: Cell, b: Costs)
    requires n.Typed() && Used(n.cells) <= space && e.Entry? && e.Fits() && Cost(e) <= b.max
    requires fix.guard && Roomy(space, b) && Roomy(space, INNER_COSTS) && (n.leaf ==> CostsWithin(n.cells, b))
    requires Full(space, fix, n, e)
    ensures |n.cells| >= 2 && HalfFor(fix, n, e.key, 0).Typed() && !Full(space, fix, HalfFor(fix, n, e.key, 0), e)
  {
    hide Used, Roomy, CostsWithin;
    if !n.leaf {
      InnerCosts(n);
    }
    SplitMakesRoom(n, space, if n.leaf then b else INNER_COSTS);
    HalvesTyped(n, 0);
  }

  /** Line 339 with any of the guards and any rows: an inner page that is entered whole
      passes it, and from 102 bytes a page on so does the half of one that was split. For
      smaller pages see `AsWritten.HalfWithoutRoom`. */
  lemma InnerAdmits(space: nat, fix: Repairs, n: Node, e: Cell)
    requires n.Typed() && !n.leaf && Used(n.cells) <= space && e.Entry? && e.Fits()
    ensures !Full(space, fix, n, e) ==> Admits(space, n, e)
    ensures Full(space, fix, n, e) && Roomy(space, INNER_COSTS) ==>
              |n.cells| >= 2 && HalfFor(fix, n, e.key, 0).Typed() && Admits(space, HalfFor(fix, n, e.key, 0), e)
  {
    hide Used, Roomy, CostsWithin;
    if Full(space, fix, n, e) && Roomy(space, INNER_COSTS) {
      InnerCosts(n);
      SplitMakesRoom(n, space, INNER_COSTS);
      HalvesTyped(n, 0);
    }
  }

  /** Such rows, on pages of 102 bytes or more and with the guards as meant, fail no
      assertion anywhere on the way. */
  lemma {:induction false} NeverTrips(cfg: Config, pages: Pages, fs: Fences, root: PageId, m: map<nat, seq<Byte>>,
                                      fix: Repairs, n: Node, level: nat, e: Cell, lost: bool, b: Costs)
    requires TreeOk(cfg, pages, fs, root) && Represents(pages, m) && e.Entry? && e.Fits()
    requires Leads(pages, fs, m, n, level, e.key, lost)
    requires fix.guard && Roomy(cfg.space, b) && Roomy(cfg.space, INNER_COSTS) && Cost(e) <= b.max
              && RowsWithin(pages, b)
    requires !Full(cfg.space, fix, n, e)
    ensures var end := Ahead(cfg.space, fix, pages, n, level, e, lost).end; end != Trips && end != Outside
    decreases level
  {
    hide TreeOk, Represents, Node.Typed, HasKey, Full, Takes, Admits, SplitKey, HalfFor, Next, Roomy, CostsWithin;
    RoomLeft(cfg.space, fix, n, e);
    if !n.leaf && !HasKey(n.cells, e.key) {
      var c := Next(n, e.key);
      NodeSorted(cfg, pages, fs, root, c);
      PageLeads(cfg, pages, fs, root, m, c, e.key, lost);
      if Full(cfg.space, fix, pages[c], e) {
        SplitLeavesRoom(cfg.space, fix, pages[c], e, b);
        SplitKeyOk(cfg, pages[c], fs[c]);
        IdInRange(cfg, pages, fs, root, c);
        assert Takes(cfg.space, n, Sep(SplitKey(pages[c]), c));
        HalfLeads(cfg, pages, fs, root, m, fix, c, e.key, lost, 0);
        NeverTrips(cfg, pages, fs, root, m, fix, HalfFor(fix, pages[c], e.key, 0), level - 1, e,
                   GetsLost(fix, lost, e.key, SplitKey(pages[c])), b);
      } else {
        NeverTrips(cfg, pages, fs, root, m, fix, pages[c], level - 1, e, lost, b);
      }
    }
  }

  lemma NeverTripsFromRoot(cfg: Config, pages: Pages, fs: Fences, root: PageId, m: map<nat, seq<Byte>>,
                           fix: Repairs, e: Cell, b: Costs)
    requires TreeOk(cfg, pages, fs, root) && Represents(pages, m) && e.Entry? && e.Fits()
    requires fix.guard && Roomy(cfg.space, b) && Roomy(cfg.space, INNER_COSTS) && Cost(e) <= b.max
              && RowsWithin(pages, b)
    ensures root in pages && root in fs && pages[root].Typed()
    ensures var end := FromRoot(cfg.space, fix, pages, root, fs[root].level, e).end; end != Trips && end != Outside
  {
    hide PageOk, Disjoint, Represents, Node.Typed, Full, SplitKey, HalfFor, Ahead, Roomy, CostsWithin, Used, Payload;
    NodeSorted(cfg, pages, fs, root, root);
    PageLeads(cfg, pages, fs, root, m, root, e.key, false);
    if Full(cfg.space, fix, pages[root], e) {
      SplitLeavesRoom(cfg.space, fix, pages[root], e, b);
      HalfLeads(cfg, pages, fs, root, m, fix, root, e.key, false, 0);
      NeverTrips(cfg, pages, fs, root, m, fix, HalfFor(fix, pages[root], e.key, 0), fs[root].level, e,
                 GetsLost(fix, false, e.key, SplitKey(pages[root])), b);
    } else {
      NeverTrips(cfg, pages, fs, root, m, fix, pages[root], fs[root].level, e, false, b);
    }
  }
}
