/**
  What lookups answer, told from the pages alone: in a tree, after a key was added
  twice, and after a root split that ended half-way.
*/
module TreeSearch {
  import opened Common
  import opened Varint
  import opened Cells
  import opened TreeInvariant
  import opened TreeSteps
  import opened TreeWalk

  datatype Answer = Hit(blob: seq<Byte>) | Miss | Waits | Astray

  /** What a lookup from page p down answers, while the pages in `latched` stay so: the
      fix of a latched page waits for ever, and so does that of the page that the lookup
      still has. It is astray if it comes to no page, or to no leaf in this many hops. */
  function Search(pages: Pages, latched: set<PageId>, p: PageId, key: nat, hops: nat): Answer
    decreases hops
  {
    if p in latched then Waits
    else if p !in pages || !pages[p].Typed() then Astray
    else
      var n := pages[p];
      if n.leaf then InLeaf(n.cells, key)
      else if hops == 0 then Astray
      else if Next(n, key) == p then Waits
      else Search(pages, latched, Next(n, key), key, hops - 1)
  }

  function InLeaf(cells: seq<Cell>, key: nat): Answer {
    var i := Find(cells, key);
    if i < |cells| && cells[i].key == key && cells[i].Entry? then Hit(cells[i].blob) else Miss
  }

  function AnswerOf(m: map<nat, seq<Byte>>, key: nat): Answer {
    if key in m then Hit(m[key]) else Miss
  }

  predicate Answered(a: Answer) {
    a.Hit? || a.Miss?
  }

  /** One hop of a search that has an answer. */
  lemma SearchHop(pages: Pages, latched: set<PageId>, p: PageId, key: nat, hops: nat)
    requires Answered(Search(pages, latched, p, key, hops))
    ensures p in pages && p !in latched && pages[p].Typed()
    ensures var n, a := pages[p], Search(pages, latched, p, key, hops);
            if n.leaf then a == InLeaf(n.cells, key)
            else hops > 0 && Next(n, key) != p && a == Search(pages, latched, Next(n, key), key, hops - 1)
  {
  }

  /** Every page can be searched. */
  ghost predicate Searchable(cfg: Config, pages: Pages) {
    && 0 !in pages
    && forall p :: p in pages ==> CellsSearchable(cfg, pages[p])
  }

  ghost predicate CellsSearchable(cfg: Config, n: Node) {
    n.Typed() && Sorted(n.cells) && forall i :: 0 <= i < |n.cells| ==> InWindow(cfg.base, n.cells[i].key)
  }

  lemma TreeSearchable(cfg: Config, pages: Pages, fs: Fences, root: PageId)
    requires TreeOk(cfg, pages, fs, root)
    ensures Searchable(cfg, pages)
  {
    hide RootOk, Disjoint, SpaceOk, LinksOk;
    forall p | p in pages ensures CellsSearchable(cfg, pages[p]) {
      assert PageOk(cfg, pages[p], fs[p], fs);
    }
  }

  /** With no page latched, a lookup answers as the map does. */
  lemma {:induction false} SearchAnswers(cfg: Config, pages: Pages, fs: Fences, root: PageId, m: map<nat, seq<Byte>>,
                                         p: PageId, key: nat, hops: nat)
    requires TreeOk(cfg, pages, fs, root) && Represents(pages, m) && p in pages && p in fs && Within(fs[p], key)
    requires hops >= fs[p].level
    ensures Search(pages, {}, p, key, hops) == AnswerOf(m, key)
    decreases fs[p].level
  {
    hide PageOk, RootOk, Disjoint, Represents, Find, Node.Typed, InLeaf;
    NodeSorted(cfg, pages, fs, root, p);
    if pages[p].leaf {
      LeafAnswers(cfg, pages, fs, root, m, p, key);
    } else {
      Descend(cfg, pages, fs, root, p, key);
      SearchAnswers(cfg, pages, fs, root, m, Next(pages[p], key), key, hops - 1);
    }
  }

  lemma LeafAnswers(cfg: Config, pages: Pages, fs: Fences, root: PageId, m: map<nat, seq<Byte>>, p: PageId, key: nat)
    requires TreeOk(cfg, pages, fs, root) && Represents(pages, m) && p in pages && p in fs && Within(fs[p], key)
    requires pages[p].leaf
    ensures InLeaf(pages[p].cells, key) == AnswerOf(m, key)
  {
    hide PageOk, RootOk, Disjoint, Represents, Find;
    NodeSorted(cfg, pages, fs, root, p);
    LeafDecides(cfg, pages, fs, root, m, p, key);
    var cells := pages[p].cells;
    FindHit(cells, key);
    if key in m {
      var j :| 0 <= j < |cells| && cells[j] == Entry(key, m[key]);
      FindUnique(cells, key, j);
    } else {
      assert forall j :: 0 <= j < |cells| ==> cells[j].key != key;
    }
  }

  /** A lookup meets pages below only; those that have not changed and are not latched
      give the same answer. */
  lemma {:induction false} SearchFrame(cfg: Config, pages: Pages, fs: Fences, root: PageId,
                                       p: PageId, key: nat, pages': Pages, latched: set<PageId>, hops: nat)
    requires TreeOk(cfg, pages, fs, root) && p in pages && p in fs && Within(fs[p], key) && hops >= fs[p].level
    requires forall q :: q in pages && q in fs && fs[q].level <= fs[p].level && Within(fs[q], key) ==>
                         q in pages' && pages'[q] == pages[q] && q !in latched
    ensures Search(pages', latched, p, key, hops) == Search(pages, {}, p, key, hops)
    decreases fs[p].level
  {
    hide PageOk, RootOk, Disjoint, Find, Node.Typed, InLeaf;
    NodeSorted(cfg, pages, fs, root, p);
    if !pages[p].leaf {
      Descend(cfg, pages, fs, root, p, key);
      SearchFrame(cfg, pages, fs, root, Next(pages[p], key), key, pages', latched, hops - 1);
    }
  }

  // ------------------------------------------------------- a key added twice

  /** Two leaves hold the same key. */
  ghost predicate Duplicated(pages: Pages, key: nat) {
    exists p, q :: p in pages && q in pages && p != q && pages[p].leaf && pages[q].leaf
                   && HasKey(pages[p].cells, key) && HasKey(pages[q].cells, key)
  }

  /** A stored key that is added to the leaf after its own is there twice. */
  lemma LostEntry(cfg: Config, pages: Pages, fs: Fences, root: PageId, m: map<nat, seq<Byte>>, l: PageId, key: nat,
                  blob: seq<Byte>)
    requires TreeOk(cfg, pages, fs, root) && Represents(pages, m)
    requires l in pages && pages[l].leaf && key == fs[l].lo && key in m
    ensures !HasKey(pages[l].cells, key)
    ensures Duplicated(EntryPages(pages, l, key, blob), key)
  {
    hide TreeOk, Find;
    NodeSorted(cfg, pages, fs, root, l);
    var e := Entry(key, m[key]);
    assert Stored(pages, e);
    var q :| q in pages && pages[q].leaf && e in pages[q].cells;
    var j :| 0 <= j < |pages[q].cells| && pages[q].cells[j] == e;
    HasKeyAt(pages[q].cells, j);
    var pages' := EntryPages(pages, l, key, blob);
    HasKeyAt(pages'[l].cells, Find(pages[l].cells, key));
    assert q in pages' && l in pages' && q != l && pages'[q] == pages[q];
  }

  /** An insertion that lost its way answers OK, and nobody will see its row: every
      lookup answers as before. */
  lemma TwiceIsUnseen(cfg: Config, pages: Pages, fs: Fences, root: PageId, m: map<nat, seq<Byte>>,
                      l: PageId, key: nat, blob: seq<Byte>, k: nat, hops: nat)
    requires TreeOk(cfg, pages, fs, root) && Represents(pages, m) && l in pages && l in fs && pages[l].leaf
    requires key == fs[l].lo && Entry(key, blob).Fits()
    requires root in fs && hops >= fs[root].level
    ensures Search(EntryPages(pages, l, key, blob), {}, root, k, hops) == AnswerOf(m, k)
  {
    hide PageOk, Disjoint, Represents, Find;
    SearchAnswers(cfg, pages, fs, root, m, root, k, hops);
    SearchPastDouble(cfg, pages, fs, root, l, key, blob, root, k, hops);
  }

  lemma {:induction false} SearchPastDouble(cfg: Config, pages: Pages, fs: Fences, root: PageId,
                                            l: PageId, key: nat, blob: seq<Byte>, p: PageId, k: nat, hops: nat)
    requires TreeOk(cfg, pages, fs, root) && l in pages && l in fs && pages[l].leaf
    requires key == fs[l].lo && Entry(key, blob).Fits() && p in pages && p in fs && Within(fs[p], k)
    requires hops >= fs[p].level
    ensures Search(EntryPages(pages, l, key, blob), {}, p, k, hops) == Search(pages, {}, p, k, hops)
    decreases fs[p].level
  {
    hide PageOk, RootOk, Disjoint, Find, Node.Typed, InLeaf, InsertAt;
    NodeSorted(cfg, pages, fs, root, p);
    if !pages[p].leaf {
      Descend(cfg, pages, fs, root, p, k);
      SearchPastDouble(cfg, pages, fs, root, l, key, blob, Next(pages[p], k), k, hops - 1);
    } else if p == l {
      EntryTyped(pages[l], Find(pages[l].cells, key), Entry(key, blob));
      FindPastDouble(pages[l].cells, key, blob, k);
    }
  }

  lemma FindPastDouble(cells: seq<Cell>, key: nat, blob: seq<Byte>, k: nat)
    requires Sorted(cells) && (forall j :: 0 <= j < |cells| ==> key < cells[j].key) && key < k
    ensures Find(cells, key) == 0
    ensures var r := InsertAt(cells, 0, Entry(key, blob));
            Find(r, k) == Find(cells, k) + 1 && InLeaf(r, k) == InLeaf(cells, k)
  {
    hide Find;
    FindUnique(cells, key, 0);
    var r, i := InsertAt(cells, 0, Entry(key, blob)), Find(cells, k);
    forall j | 0 <= j < i + 1 ensures r[j].key < k {
      if j > 0 {
        assert r[j] == cells[j - 1];
      }
    }
    assert i < |cells| ==> r[i + 1] == cells[i];
    FindUnique(r, k, i + 1);
  }

  /** Such a page can still be searched. */
  lemma DoubleSearchable(cfg: Config, pages: Pages, fs: Fences, root: PageId, l: PageId, key: nat, blob: seq<Byte>)
    requires TreeOk(cfg, pages, fs, root) && l in pages && l in fs && pages[l].leaf && key == fs[l].lo
    requires InWindow(cfg.base, key) && Entry(key, blob).Fits()
    ensures Searchable(cfg, EntryPages(pages, l, key, blob))
  {
    hide PageOk, RootOk, Disjoint, Find, Sorted, InsertAt, Node.Typed;
    TreeSearchable(cfg, pages, fs, root);
    NodeSorted(cfg, pages, fs, root, l);
    var cells, e := pages[l].cells, Entry(key, blob);
    FindUnique(cells, key, 0);
    EntryTyped(pages[l], 0, e);
    SortedInsertAt(cells, 0, e);
    var r := InsertAt(cells, 0, e);
    forall i | 0 <= i < |r| ensures InWindow(cfg.base, r[i].key) {
      assert i > 0 ==> r[i] == cells[i - 1];
    }
  }

  // ------------------------------------------------------------- a torn root

  /** What a lookup answers after a root split that found no page for the new root, with
      the new sibling s latched or not: as before up to the split key. Above it, a leaf
      root has lost the rows; an inner root, whose `right` is the sibling now, makes the
      lookup wait for ever if s is latched, and leads there otherwise. */
  function TornAnswer(pages: Pages, root: PageId, m: map<nat, seq<Byte>>, latched: bool, key: nat): Answer
    requires root in pages && |pages[root].cells| >= 2
  {
    if key <= SplitKey(pages[root]) then AnswerOf(m, key)
    else if pages[root].leaf then Miss
    else if latched then Waits
    else AnswerOf(m, key)
  }

  lemma TornRoot(cfg: Config, pages: Pages, fs: Fences, root: PageId, m: map<nat, seq<Byte>>, s: PageId,
                 latched: bool, key: nat, hops: nat)
    requires TreeOk(cfg, pages, fs, root) && Represents(pages, m)
    requires root in pages && |pages[root].cells| >= 2 && s !in pages && 0 < s < MAX_ID
    requires root in fs && hops > fs[root].level
    ensures Search(TornPages(pages, root, s), if latched then {s} else {}, root, key, hops)
            == TornAnswer(pages, root, m, latched, key)
  {
    hide PageOk, Disjoint, Represents, Search, SplitKey;
    SearchAnswers(cfg, pages, fs, root, m, root, key, hops);
    var held := if latched then {s} else {};
    if pages[root].leaf {
      TornLeaf(cfg, pages, fs, root, s, held, key, hops);
    } else if key <= SplitKey(pages[root]) {
      TornInnerLow(cfg, pages, fs, root, s, held, key, hops);
    } else {
      SearchAnswers(cfg, pages, fs, root, m, root, key, hops - 1);
      TornInnerHigh(cfg, pages, fs, root, s, held, key, hops);
    }
  }

  lemma TornLeaf(cfg: Config, pages: Pages, fs: Fences, root: PageId, s: PageId, held: set<PageId>, key: nat,
                 hops: nat)
    requires TreeOk(cfg, pages, fs, root) && root in pages && root in fs && pages[root].leaf
    requires |pages[root].cells| >= 2 && s !in pages && s < MAX_ID && held <= {s}
    ensures Search(TornPages(pages, root, s), held, root, key, hops)
            == if key <= SplitKey(pages[root]) then Search(pages, {}, root, key, hops) else Miss
  {
    hide TreeOk, InLeaf, SplitKey, Node.Typed;
    NodeSorted(cfg, pages, fs, root, root);
    HalvesTyped(pages[root], s);
    HalfInLeaf(pages[root], s, key);
    HalfLeaf(pages[root], s);
  }

  lemma SearchDown(pages: Pages, latched: set<PageId>, p: PageId, key: nat, hops: nat)
    requires p !in latched && p in pages && pages[p].Typed() && !pages[p].leaf && hops > 0 && Next(pages[p], key) != p
    ensures Search(pages, latched, p, key, hops) == Search(pages, latched, Next(pages[p], key), key, hops - 1)
  {
  }

  /** Below the root nothing has changed. */
  lemma TornBelow(cfg: Config, pages: Pages, fs: Fences, root: PageId, s: PageId, held: set<PageId>, key: nat,
                  hops: nat)
    requires TreeOk(cfg, pages, fs, root) && root in pages && root in fs && !pages[root].leaf
    requires |pages[root].cells| >= 2 && s !in pages && s < MAX_ID && held <= {s} && hops + 1 >= fs[root].level
    ensures pages[root].Typed() && Sorted(pages[root].cells) && fs[root].level > 0
    ensures var c := Next(pages[root], key);
            && c in pages && c != root
            && Search(TornPages(pages, root, s), held, c, key, hops) == Search(pages, {}, c, key, hops)
  {
    hide PageOk, Disjoint, SplitKey, Node.Typed, Find, Search, Next, LeftHalf, RightHalf;
    NodeSorted(cfg, pages, fs, root, root);
    Descend(cfg, pages, fs, root, root, key);
    SearchFrame(cfg, pages, fs, root, Next(pages[root], key), key, TornPages(pages, root, s), held, hops);
  }

  lemma TornInnerLow(cfg: Config, pages: Pages, fs: Fences, root: PageId, s: PageId, held: set<PageId>, key: nat,
                     hops: nat)
    requires TreeOk(cfg, pages, fs, root) && root in pages && root in fs && !pages[root].leaf
    requires |pages[root].cells| >= 2 && s !in pages && s < MAX_ID && held <= {s}
    requires key <= SplitKey(pages[root]) && hops >= fs[root].level
    ensures Search(TornPages(pages, root, s), held, root, key, hops) == Search(pages, {}, root, key, hops)
  {
    hide TreeOk, SplitKey, Node.Typed, Find, Search, Next, LeftHalf, RightHalf;
    NodeSorted(cfg, pages, fs, root, root);
    TornBelow(cfg, pages, fs, root, s, held, key, hops - 1);
    HalfNext(pages[root], s, key);
    SearchDown(pages, {}, root, key, hops);
    SearchDown(TornPages(pages, root, s), held, root, key, hops);
  }

  lemma TornInnerHigh(cfg: Config, pages: Pages, fs: Fences, root: PageId, s: PageId, held: set<PageId>, key: nat,
                      hops: nat)
    requires TreeOk(cfg, pages, fs, root) && root in pages && root in fs && !pages[root].leaf
    requires |pages[root].cells| >= 2 && s !in pages && s < MAX_ID && held <= {s}
    requires key > SplitKey(pages[root]) && hops > fs[root].level
    ensures Search(TornPages(pages, root, s), held, root, key, hops)
            == if s in held then Waits else Search(pages, {}, root, key, hops - 1)
  {
    hide TreeOk, SplitKey, Node.Typed, Find, Next, LeftHalf, RightHalf, Search;
    NodeSorted(cfg, pages, fs, root, root);
    TornBelow(cfg, pages, fs, root, s, held, key, hops - 2);
    HalfNext(pages[root], s, key);
    SearchDown(TornPages(pages, root, s), held, root, key, hops);
    if s in held {
      LatchedWaits(TornPages(pages, root, s), held, s, key, hops - 1);
    } else {
      SearchDown(pages, {}, root, key, hops - 1);
      SearchDown(TornPages(pages, root, s), held, s, key, hops - 1);
    }
  }

  lemma LatchedWaits(pages: Pages, latched: set<PageId>, p: PageId, key: nat, hops: nat)
    requires p in latched
    ensures Search(pages, latched, p, key, hops) == Waits
  {
  }

  /** Where the halves of an inner page lead. */
  lemma HalfNext(n: Node, s: PageId, key: nat)
    requires |n.cells| >= 2 && Sorted(n.cells) && n.Typed() && !n.leaf && s < MAX_ID
    ensures LeftHalf(n, s).Typed() && RightHalf(n).Typed() && !LeftHalf(n, s).leaf && !RightHalf(n).leaf
    ensures if key <= SplitKey(n) then Next(LeftHalf(n, s), key) == Next(n, key)
            else Next(LeftHalf(n, s), key) == s && Next(RightHalf(n), key) == Next(n, key)
  {
    hide Find;
    HalvesTyped(n, s);
    HalfPositions(n, s, key);
  }

  lemma TornSearchable(cfg: Config, pages: Pages, fs: Fences, root: PageId, s: PageId)
    requires TreeOk(cfg, pages, fs, root) && root in pages && s !in pages && 0 < s < MAX_ID
    ensures Searchable(cfg, TornPages(pages, root, s))
  {
    hide TreeOk, Node.Typed;
    TreeSearchable(cfg, pages, fs, root);
    HalvesTyped(pages[root], s);
  }

  lemma HalfInLeaf(n: Node, s: PageId, key: nat)
    requires |n.cells| >= 2 && Sorted(n.cells)
    ensures InLeaf(LeftHalf(n, s).cells, key) == if key <= SplitKey(n) then InLeaf(n.cells, key) else Miss
  {
    hide Find;
    HalfPositions(n, s, key);
  }

  lemma HalfPositions(n: Node, s: PageId, key: nat)
    requires |n.cells| >= 2 && Sorted(n.cells)
    ensures if key <= SplitKey(n) then Find(LeftHalf(n, s).cells, key) == Find(n.cells, key) < SplitPoint(n)
            else Find(LeftHalf(n, s).cells, key) == SplitPoint(n) <= Find(n.cells, key)
                 && Find(RightHalf(n).cells, key) == Find(n.cells, key) - SplitPoint(n)
  {
    hide Find;
    var k, i := SplitPoint(n), Find(n.cells, key);
    if key > SplitKey(n) {
      FindUnique(n.cells[..k], key, k);
      FindUnique(n.cells[k..], key, i - k);
    } else {
      FindUnique(n.cells[..k], key, i);
    }
  }
}
