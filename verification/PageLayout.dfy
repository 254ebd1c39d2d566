/**
  How a page lies in memory: a 12-byte header, two-byte slots growing up from it and
  cell payloads growing down from the end of the page (src/btree.c:38-44, 125-144).
*/
module PageLayout {
  import opened Varint
  import opened Cells

  // Offsets of the header fields.
  const COUNT_AT: nat := 0
  const DATA_START_AT: nat := 2
  const FREE_SPACE_AT: nat := 4
  const FLAGS_AT: nat := 6
  const RIGHT_AT: nat := 8

  const FLAG_LEAF: nat := 1
  const FLAG_TABLE: nat := 2

  const MAX_PAGE: nat := 0xffff

  function U16(s: seq<Byte>, at: nat): (v: nat)
    requires at + 2 <= |s|
    ensures v <= 0xffff
  {
    var lo: nat, hi: nat := s[at], s[at + 1];
    lo + 256 * hi
  }

  function SetU16(s: seq<Byte>, at: nat, v: nat): (r: seq<Byte>)
    requires at + 2 <= |s| && v <= 0xffff
    ensures |r| == |s| && U16(r, at) == v
    ensures forall k :: 0 <= k < |s| && k != at && k != at + 1 ==> r[k] == s[k]
  {
    s[at := v % 256][at + 1 := v / 256]
  }

  function SlotAt(i: nat): nat {
    HEADER_SIZE + SLOT_SIZE * i
  }

  function Slot(s: seq<Byte>, i: nat): nat
    requires SlotAt(i + 1) <= |s|
  {
    U16(s, SlotAt(i))
  }

  function FlagsOf(leaf: bool): nat {
    (if leaf then FLAG_LEAF else 0) + FLAG_TABLE
  }

  // ------------------------------------------------------------------ layout

  /** The payload of c is where slot i points, at or after `from`. */
  ghost predicate CellStored(s: seq<Byte>, i: nat, c: Cell, from: nat)
    requires SlotAt(i + 1) <= |s| && c.Fits()
  {
    && from <= Slot(s, i) && Slot(s, i) + |Payload(c)| <= |s|
    && s[Slot(s, i)..Slot(s, i) + |Payload(c)|] == Payload(c)
  }

  ghost predicate CellsStored(s: seq<Byte>, cells: seq<Cell>, from: nat)
    requires SlotAt(|cells|) <= |s| && forall c :: c in cells ==> c.Fits()
  {
    forall i :: 0 <= i < |cells| ==> CellStored(s, i, cells[i], from)
  }

  ghost predicate CellsApart(s: seq<Byte>, cells: seq<Cell>)
    requires SlotAt(|cells|) <= |s| && forall c :: c in cells ==> c.Fits()
  {
    forall i, j :: 0 <= i < |cells| && 0 <= j < |cells| && i != j ==>
      Slot(s, i) + |Payload(cells[i])| <= Slot(s, j) || Slot(s, j) + |Payload(cells[j])| <= Slot(s, i)
  }

  /** What every edit keeps, and what compaction needs: the cells can be read and do
      not reach into the slots. */
  ghost predicate Loose(s: seq<Byte>, n: Node) {
    && HEADER_SIZE <= |s| <= MAX_PAGE && n.Typed()
    && U16(s, COUNT_AT) == |n.cells| && U16(s, FLAGS_AT) == FlagsOf(n.leaf) && IdAt(s, RIGHT_AT) == n.right
    && SlotAt(|n.cells|) + Size(n.cells) <= |s|
    && CellsStored(s, n.cells, SlotAt(|n.cells|))
  }

  /** The bytes of a page stand for node n: slots end before the data, cells lie in
      the data, pairwise apart, and `free_space` is all the space that is not theirs. */
  ghost predicate Layout(s: seq<Byte>, n: Node) {
    && HEADER_SIZE <= |s| <= MAX_PAGE && n.Typed()
    && U16(s, COUNT_AT) == |n.cells| && U16(s, FLAGS_AT) == FlagsOf(n.leaf) && IdAt(s, RIGHT_AT) == n.right
    && SlotAt(|n.cells|) <= U16(s, DATA_START_AT) <= |s|
    && Size(n.cells) <= |s| - U16(s, DATA_START_AT)
    && U16(s, FREE_SPACE_AT) == |s| - SlotAt(|n.cells|) - Size(n.cells)
    && CellsStored(s, n.cells, U16(s, DATA_START_AT))
    && CellsApart(s, n.cells)
  }

  /** No holes: the space between slots and data is all the free space there is. */
  ghost predicate Tight(s: seq<Byte>, n: Node)
    requires Layout(s, n)
  {
    U16(s, DATA_START_AT) == |s| - Size(n.cells)
  }

  /** `page_get_space`. */
  function Space(s: seq<Byte>): int
    requires |s| >= HEADER_SIZE
  {
    U16(s, DATA_START_AT) - SlotAt(U16(s, COUNT_AT))
  }

  /** The header in memory, as the struct has its fields: count, start of the data, free
      space, flags with bit 0 for a leaf and bit 1 for a table, and `right`; then the
      slots, two bytes each, low byte first. */
  lemma HeaderBytes(s: seq<Byte>, n: Node)
    requires Layout(s, n)
    ensures |s| >= 12 + 2 * |n.cells| && n.Typed()
    ensures U16(s, 0) == |n.cells| && U16(s, 2) >= 12 + 2 * |n.cells| && U16(s, 4) == |s| - 12 - Used(n.cells)
    ensures U16(s, 6) == (if n.leaf then 3 else 2) && IdAt(s, 8) == n.right
    ensures forall i :: 0 <= i < |n.cells| ==> Slot(s, i) == U16(s, 12 + 2 * i) >= U16(s, 2)
  {
    hide CellsApart, Size, Payload;
    forall i | 0 <= i < |n.cells| ensures Slot(s, i) >= U16(s, 2) {
      assert n.cells[i] in n.cells && CellStored(s, i, n.cells[i], U16(s, DATA_START_AT));
    }
  }

  lemma TightIff(s: seq<Byte>, n: Node)
    requires Layout(s, n)
    ensures Tight(s, n) <==> Space(s) == U16(s, FREE_SPACE_AT)
    ensures U16(s, FREE_SPACE_AT) == |s| - HEADER_SIZE - Used(n.cells)
  {
  }

  lemma LayoutIsLoose(s: seq<Byte>, n: Node)
    requires Layout(s, n)
    ensures Loose(s, n)
  {
    hide Payload, Size, IdAt, CellStored;
    forall i | 0 <= i < |n.cells| ensures CellStored(s, i, n.cells[i], SlotAt(|n.cells|)) {
      assert n.cells[i] in n.cells;
      MoreRoom(s, i, n.cells[i], U16(s, DATA_START_AT), SlotAt(|n.cells|));
    }
  }

  lemma MoreRoom(s: seq<Byte>, i: nat, c: Cell, from: nat, lower: nat)
    requires SlotAt(i + 1) <= |s| && c.Fits() && CellStored(s, i, c, from) && lower <= from
    ensures CellStored(s, i, c, lower)
  {
  }

  /** The cell that slot i points to, read from the bytes. */
  lemma ReadCell(s: seq<Byte>, n: Node, i: nat)
    requires Loose(s, n) && i < |n.cells|
    ensures n.cells[i].Fits()
    ensures CellReadable(n.leaf, s, Slot(s, i)) && CellAt(n.leaf, s, Slot(s, i)) == n.cells[i]
    ensures CellLength(n.leaf, s, Slot(s, i)) == |Payload(n.cells[i])|
    ensures Reads(s, Slot(s, i) + KeyOffset(n.leaf), n.cells[i].key, |Varint.Encode(n.cells[i].key)|)
  {
    hide Payload, Size, IdAt, CellReadable, CellLength, CellAt, Reads;
    assert n.cells[i] in n.cells;
    assert CellStored(s, i, n.cells[i], SlotAt(|n.cells|));
    CellRoundTrip(n.cells[i], s, Slot(s, i));
  }

  /** The bytes of a page determine what it stands for. */
  lemma LayoutDetermines(s: seq<Byte>, n: Node, n': Node)
    requires Layout(s, n) && Layout(s, n')
    ensures n == n'
  {
    hide Payload, Size, CellAt, CellReadable, CellLength, Reads, CellsStored, CellsApart;
    LayoutIsLoose(s, n);
    LayoutIsLoose(s, n');
    assert n.leaf == n'.leaf;
    forall i | 0 <= i < |n.cells| ensures n.cells[i] == n'.cells[i] {
      ReadCell(s, n, i);
      ReadCell(s, n', i);
    }
  }

  // ------------------------------------------------------------------ insert

  /** From s to r a slot was opened at position i for `size` bytes below the data. */
  ghost predicate Opened(s: seq<Byte>, r: seq<Byte>, count: nat, i: nat, size: nat) {
    && |r| == |s| && i <= count && SlotAt(count + 1) <= |s|
    && SlotAt(count + 1) + size <= U16(s, DATA_START_AT) <= |s|
    && size + SLOT_SIZE <= U16(s, FREE_SPACE_AT)
    && U16(r, COUNT_AT) == count + 1
    && U16(r, DATA_START_AT) == U16(s, DATA_START_AT) - size
    && U16(r, FREE_SPACE_AT) == U16(s, FREE_SPACE_AT) - size - SLOT_SIZE
    && U16(r, FLAGS_AT) == U16(s, FLAGS_AT) && IdAt(r, RIGHT_AT) == IdAt(s, RIGHT_AT)
    && (forall j :: 0 <= j < i ==> Slot(r, j) == Slot(s, j))
    && Slot(r, i) == U16(r, DATA_START_AT)
    && (forall j :: i < j <= count ==> Slot(r, j) == Slot(s, j - 1))
    && (forall k :: U16(s, DATA_START_AT) <= k < |s| ==> r[k] == s[k])
  }

  lemma OpenedBy(s: seq<Byte>, m: seq<Byte>, count: nat, i: nat, size: nat)
    requires |m| == |s| && i <= count && SlotAt(count + 1) <= |s| <= MAX_PAGE
    requires SlotAt(count + 1) + size <= U16(s, DATA_START_AT) <= |s|
    requires size + SLOT_SIZE <= U16(s, FREE_SPACE_AT)
    requires forall k :: SlotAt(i + 1) <= k < SlotAt(count + 1) ==> m[k] == s[k - SLOT_SIZE]
    requires forall k :: 0 <= k < |s| && !(SlotAt(i + 1) <= k < SlotAt(count + 1)) ==> m[k] == s[k]
    ensures count + 1 <= 0xffff
    ensures var start := U16(s, DATA_START_AT) - size;
            var r0 := SetU16(m, SlotAt(i), start);
            var r1 := SetU16(r0, DATA_START_AT, start);
            var r2 := SetU16(r1, FREE_SPACE_AT, U16(s, FREE_SPACE_AT) - size - SLOT_SIZE);
            Opened(s, SetU16(r2, COUNT_AT, count + 1), count, i, size)
  {
    hide SetU16;
    var start := U16(s, DATA_START_AT) - size;
    var r0 := SetU16(m, SlotAt(i), start);
    var r1 := SetU16(r0, DATA_START_AT, start);
    var r2 := SetU16(r1, FREE_SPACE_AT, U16(s, FREE_SPACE_AT) - size - SLOT_SIZE);
    var r := SetU16(r2, COUNT_AT, count + 1);
    forall j | i < j <= count ensures Slot(r, j) == Slot(s, j - 1) {
      assert m[SlotAt(j)] == s[SlotAt(j) - SLOT_SIZE] && m[SlotAt(j) + 1] == s[SlotAt(j) + 1 - SLOT_SIZE];
    }
  }

  /** The opened place was filled, and nothing else touched. */
  ghost predicate Filled(r: seq<Byte>, t: seq<Byte>, at: nat, e: seq<Byte>) {
    at + |e| <= |r| && t == Splice(r, at, e)
  }

  lemma MovedCell(s: seq<Byte>, r: seq<Byte>, j: nat, k: nat, c: Cell, from: nat, lower: nat)
    requires |r| == |s| && SlotAt(j + 1) <= |s| && SlotAt(k + 1) <= |s| && c.Fits()
    requires CellStored(s, j, c, from) && Slot(r, k) == Slot(s, j) && lower <= from
    requires forall x :: from <= x < |s| ==> r[x] == s[x]
    ensures CellStored(r, k, c, lower)
  {
    hide Payload;
    var a := Slot(s, j);
    assert r[a..a + |Payload(c)|] == s[a..a + |Payload(c)|];
  }

  lemma InsertedStored(s: seq<Byte>, t: seq<Byte>, cells: seq<Cell>, i: nat, c: Cell, from: nat)
    requires |t| == |s| && i <= |cells| && SlotAt(|cells| + 1) <= |s|
    requires c.Fits() && forall d :: d in cells ==> d.Fits()
    requires CellsStored(s, cells, from) && from <= |s| && |Payload(c)| <= from
    requires (forall j :: 0 <= j < i ==> Slot(t, j) == Slot(s, j))
    requires Slot(t, i) == from - |Payload(c)|
    requires (forall j :: i < j <= |cells| ==> Slot(t, j) == Slot(s, j - 1))
    requires forall k :: from <= k < |s| ==> t[k] == s[k]
    requires t[from - |Payload(c)|..from] == Payload(c)
    ensures forall d :: d in InsertAt(cells, i, c) ==> d.Fits()
    ensures CellsStored(t, InsertAt(cells, i, c), from - |Payload(c)|)
    ensures CellsApart(s, cells) ==> CellsApart(t, InsertAt(cells, i, c))
  {
    hide Payload, Slot;
    var r := InsertAt(cells, i, c);
    forall d | d in r ensures d.Fits() {
      assert d == c || d in cells;
    }
    forall j | 0 <= j < |r| ensures CellStored(t, j, r[j], from - |Payload(c)|) {
      if j < i {
        assert CellStored(s, j, cells[j], from);
        MovedCell(s, t, j, j, cells[j], from, from - |Payload(c)|);
      } else if j > i {
        assert CellStored(s, j - 1, cells[j - 1], from);
        MovedCell(s, t, j - 1, j, cells[j - 1], from, from - |Payload(c)|);
      }
    }
    if CellsApart(s, cells) {
      InsertedApart(s, t, cells, i, c, from);
    }
  }

  lemma InsertedApart(s: seq<Byte>, t: seq<Byte>, cells: seq<Cell>, i: nat, c: Cell, from: nat)
    requires |t| == |s| && i <= |cells| && SlotAt(|cells| + 1) <= |s|
    requires c.Fits() && forall d :: d in cells ==> d.Fits()
    requires forall d :: d in InsertAt(cells, i, c) ==> d.Fits()
    requires CellsStored(s, cells, from) && from <= |s| && |Payload(c)| <= from
    requires (forall j :: 0 <= j < i ==> Slot(t, j) == Slot(s, j))
    requires Slot(t, i) == from - |Payload(c)|
    requires (forall j :: i < j <= |cells| ==> Slot(t, j) == Slot(s, j - 1))
    requires CellsApart(s, cells)
    ensures CellsApart(t, InsertAt(cells, i, c))
  {
    hide Payload, Slot;
    var r := InsertAt(cells, i, c);
    forall a, b | 0 <= a < |r| && 0 <= b < |r| && a != b
      ensures Slot(t, a) + |Payload(r[a])| <= Slot(t, b) || Slot(t, b) + |Payload(r[b])| <= Slot(t, a)
    {
      var oa, ob := if a < i then a else a - 1, if b < i then b else b - 1;
      if a != i {
        assert Slot(t, a) == Slot(s, oa) && r[a] == cells[oa];
        assert CellStored(s, oa, cells[oa], from);
      }
      if b != i {
        assert Slot(t, b) == Slot(s, ob) && r[b] == cells[ob];
        assert CellStored(s, ob, cells[ob], from);
      }
    }
  }

  /** Opening a place and filling it inserts the cell, and leaves every other cell. */
  lemma InsertLayout(s: seq<Byte>, r: seq<Byte>, t: seq<Byte>, n: Node, i: nat, c: Cell)
    requires Layout(s, n) && c.Fits() && c.Entry? == n.leaf && i <= |n.cells|
    requires Opened(s, r, |n.cells|, i, |Payload(c)|)
    requires Filled(r, t, U16(r, DATA_START_AT), Payload(c))
    ensures Layout(t, n.(cells := InsertAt(n.cells, i, c)))
    ensures Tight(s, n) ==> Tight(t, n.(cells := InsertAt(n.cells, i, c)))
  {
    hide Payload, Size, CellsStored, CellsApart;
    var from, at := U16(s, DATA_START_AT), U16(r, DATA_START_AT);
    HeaderKept(r, t, at);
    forall j: nat | j <= |n.cells| ensures Slot(t, j) == Slot(r, j) {
      U16Kept(r, t, SlotAt(j), at);
    }
    assert at + |Payload(c)| == from;
    assert t[at..from] == Payload(c);
    InsertedStored(s, t, n.cells, i, c, from);
    SizeInsertAt(n.cells, i, c);
    InsertTyped(n, i, c);
  }

  lemma InsertTyped(n: Node, i: nat, c: Cell)
    requires n.Typed() && i <= |n.cells| && c.Fits() && c.Entry? == n.leaf
    ensures n.(cells := InsertAt(n.cells, i, c)).Typed()
  {
    forall d: Cell | d in InsertAt(n.cells, i, c) ensures d.Fits() && d.Entry? == n.leaf {
      if d != c {
        assert d in n.cells;
      }
    }
  }

  lemma U16Kept(r: seq<Byte>, t: seq<Byte>, at: nat, from: nat)
    requires |r| == |t| && at + 2 <= from <= |r| && r[..from] == t[..from]
    ensures U16(r, at) == U16(t, at)
  {
    assert r[..from][at] == t[..from][at] && r[..from][at + 1] == t[..from][at + 1];
  }

  lemma HeaderKept(r: seq<Byte>, t: seq<Byte>, from: nat)
    requires |r| == |t| && HEADER_SIZE <= from <= |r| && r[..from] == t[..from]
    ensures U16(r, COUNT_AT) == U16(t, COUNT_AT) && U16(r, DATA_START_AT) == U16(t, DATA_START_AT)
    ensures U16(r, FREE_SPACE_AT) == U16(t, FREE_SPACE_AT) && U16(r, FLAGS_AT) == U16(t, FLAGS_AT)
    ensures IdAt(r, RIGHT_AT) == IdAt(t, RIGHT_AT)
  {
    U16Kept(r, t, COUNT_AT, from);
    U16Kept(r, t, DATA_START_AT, from);
    U16Kept(r, t, FREE_SPACE_AT, from);
    U16Kept(r, t, FLAGS_AT, from);
    assert r[RIGHT_AT..RIGHT_AT + ID_SIZE] == r[..from][RIGHT_AT..RIGHT_AT + ID_SIZE];
    assert t[RIGHT_AT..RIGHT_AT + ID_SIZE] == t[..from][RIGHT_AT..RIGHT_AT + ID_SIZE];
    SameId(r, RIGHT_AT, t, RIGHT_AT);
  }

  lemma SpliceTwice(r: seq<Byte>, at: nat, a: seq<Byte>, b: seq<Byte>)
    requires at + |a| + |b| <= |r|
    ensures Splice(Splice(r, at, a), at + |a|, b) == Splice(r, at, a + b)
  {
  }

  // ---------------------------------------------------------- redirect a child

  /** Writing the `right` field of the header. */
  lemma RightLayout(s: seq<Byte>, n: Node, id: PageId)
    requires Layout(s, n) && id < MAX_ID
    ensures var t := Splice(s, RIGHT_AT, IdBytes(id));
            Layout(t, n.(right := id)) && (Tight(s, n) ==> Tight(t, n.(right := id)))
  {
    hide Payload, Size, IdBytes, IdAt;
    var t := Splice(s, RIGHT_AT, IdBytes(id));
    SameId(t, RIGHT_AT, IdBytes(id), 0);
    forall i | 0 <= i < |n.cells| ensures Slot(t, i) == Slot(s, i) {
      assert t[SlotAt(i)] == s[SlotAt(i)] && t[SlotAt(i) + 1] == s[SlotAt(i) + 1];
    }
    hide Slot;
    forall i | 0 <= i < |n.cells| ensures CellStored(t, i, n.cells[i], U16(t, DATA_START_AT)) {
      assert n.cells[i] in n.cells && CellStored(s, i, n.cells[i], U16(s, DATA_START_AT));
      MovedCell(s, t, i, i, n.cells[i], U16(s, DATA_START_AT), U16(s, DATA_START_AT));
    }
  }

  /** Overwriting the four id bytes of cell i changes the child of that cell only,
      because payloads are apart. */
  lemma RedirectLayout(s: seq<Byte>, n: Node, i: nat, id: PageId)
    requires Layout(s, n) && !n.leaf && i < |n.cells| && id < MAX_ID
    requires Slot(s, i) + ID_SIZE <= |s|
    ensures var n' := n.(cells := n.cells[i := Sep(n.cells[i].key, id)]);
            var t := Splice(s, Slot(s, i), IdBytes(id));
            Layout(t, n') && (Tight(s, n) ==> Tight(t, n'))
  {
    hide Payload, Size, IdBytes, IdAt, CellsStored, CellsApart;
    var c, d := n.cells[i], Sep(n.cells[i].key, id);
    var n' := n.(cells := n.cells[i := d]);
    var t := Splice(s, Slot(s, i), IdBytes(id));
    assert c in n.cells;
    RedirectTyped(n, i, id);
    SlotInData(s, n, i);
    HeaderKept(s, t, Slot(s, i));
    ReplaceSize(n.cells, i, id);
    forall j: nat | j < |n.cells| ensures Slot(t, j) == Slot(s, j) {
      U16Kept(s, t, SlotAt(j), Slot(s, i));
    }
    RedirectStored(s, t, n.cells, i, id, U16(s, DATA_START_AT));
    RedirectApart(s, t, n.cells, i, id);
  }

  lemma SlotInData(s: seq<Byte>, n: Node, i: nat)
    requires Layout(s, n) && i < |n.cells|
    ensures U16(s, DATA_START_AT) <= Slot(s, i) && SlotAt(|n.cells|) <= Slot(s, i)
    ensures n.cells[i] in n.cells && Slot(s, i) + |Payload(n.cells[i])| <= |s|
  {
    hide Payload, Size, IdAt, CellsApart;
    assert CellStored(s, i, n.cells[i], U16(s, DATA_START_AT));
  }

  lemma RedirectTyped(n: Node, i: nat, id: PageId)
    requires n.Typed() && !n.leaf && i < |n.cells| && id < MAX_ID
    ensures n.(cells := n.cells[i := Sep(n.cells[i].key, id)]).Typed() && n.cells[i].Sep?
  {
    assert n.cells[i] in n.cells;
    var d := Sep(n.cells[i].key, id);
    forall c: Cell | c in n.cells[i := d] ensures c.Fits() && c.Sep? {
      if c != d {
        assert c in n.cells;
      }
    }
  }

  lemma ReplaceSize(cells: seq<Cell>, i: nat, id: PageId)
    requires i < |cells| && cells[i].Sep? && id < MAX_ID && forall c :: c in cells ==> c.Fits()
    ensures Sep(cells[i].key, id).Fits() && |Payload(Sep(cells[i].key, id))| == |Payload(cells[i])|
    ensures forall c :: c in cells[i := Sep(cells[i].key, id)] ==> c.Fits()
    ensures Size(cells[i := Sep(cells[i].key, id)]) == Size(cells)
  {
    var c, d := cells[i], Sep(cells[i].key, id);
    assert c in cells;
    SamePayloadSize(c.key, c.child, id);
    hide Payload;
    assert cells == InsertAt(cells[..i] + cells[i + 1..], i, c);
    assert cells[i := d] == InsertAt(cells[..i] + cells[i + 1..], i, d);
    SizeInsertAt(cells[..i] + cells[i + 1..], i, c);
    SizeInsertAt(cells[..i] + cells[i + 1..], i, d);
  }

  lemma SamePayloadSize(key: nat, a: PageId, b: PageId)
    requires key < U64 && a < MAX_ID && b < MAX_ID
    ensures |Payload(Sep(key, a))| == |Payload(Sep(key, b))|
    ensures Payload(Sep(key, b)) == IdBytes(b) + Payload(Sep(key, a))[ID_SIZE..]
  {
  }

  lemma RedirectStored(s: seq<Byte>, t: seq<Byte>, cells: seq<Cell>, i: nat, id: PageId, from: nat)
    requires SlotAt(|cells|) <= |s| && forall c :: c in cells ==> c.Fits()
    requires CellsStored(s, cells, from) && CellsApart(s, cells) && i < |cells| && cells[i].Sep? && id < MAX_ID
    requires Slot(s, i) + ID_SIZE <= |s| && t == Splice(s, Slot(s, i), IdBytes(id))
    requires forall j: nat :: j < |cells| ==> Slot(t, j) == Slot(s, j)
    ensures Sep(cells[i].key, id).Fits()
    ensures forall c :: c in cells[i := Sep(cells[i].key, id)] ==> c.Fits()
    ensures CellsStored(t, cells[i := Sep(cells[i].key, id)], from)
  {
    hide Payload, Slot, IdBytes, CellStored, CellsApart;
    var d := Sep(cells[i].key, id);
    ReplaceSize(cells, i, id);
    assert cells[i] in cells && CellStored(s, i, cells[i], from);
    RedirectedCell(s, t, i, cells[i], id, from);
    var r := cells[i := d];
    forall j | 0 <= j < |r| ensures CellStored(t, j, r[j], from) {
      if j != i {
        assert cells[j] in cells && CellStored(s, j, cells[j], from);
        ApartAt(s, cells, i, j);
        OtherCell(s, t, i, cells[i], j, cells[j], id, from);
      }
    }
  }

  lemma ApartAt(s: seq<Byte>, cells: seq<Cell>, i: nat, j: nat)
    requires SlotAt(|cells|) <= |s| && forall c :: c in cells ==> c.Fits()
    requires CellsApart(s, cells) && i < |cells| && j < |cells| && i != j
    ensures Slot(s, i) + |Payload(cells[i])| <= Slot(s, j) || Slot(s, j) + |Payload(cells[j])| <= Slot(s, i)
  {
  }

  lemma RedirectedCell(s: seq<Byte>, t: seq<Byte>, i: nat, c: Cell, id: PageId, from: nat)
    requires SlotAt(i + 1) <= |s| && c.Fits() && c.Sep? && id < MAX_ID && CellStored(s, i, c, from)
    requires Slot(s, i) + ID_SIZE <= |s| && t == Splice(s, Slot(s, i), IdBytes(id)) && Slot(t, i) == Slot(s, i)
    ensures CellStored(t, i, Sep(c.key, id), from)
  {
    hide Payload, Slot, IdBytes, Splice;
    RedirectedBytes(s, t, Slot(s, i), c, id);
  }

  lemma RedirectedBytes(s: seq<Byte>, t: seq<Byte>, at: nat, c: Cell, id: PageId)
    requires c.Fits() && c.Sep? && id < MAX_ID && at + |Payload(c)| <= |s| && at + ID_SIZE <= |s|
    requires s[at..at + |Payload(c)|] == Payload(c) && t == Splice(s, at, IdBytes(id))
    ensures |Payload(Sep(c.key, id))| == |Payload(c)| && |t| == |s|
    ensures t[at..at + |Payload(c)|] == Payload(Sep(c.key, id))
  {
    SamePayloadSize(c.key, c.child, id);
    hide Payload, IdBytes, Splice;
    SplicedHead(s, t, at, IdBytes(id), |Payload(c)|);
  }

  lemma SplicedHead(s: seq<Byte>, t: seq<Byte>, at: nat, e: seq<Byte>, size: nat)
    requires |e| <= size && at + size <= |s| && t == Splice(s, at, e)
    ensures t[at..at + size] == e + s[at..at + size][|e|..]
  {
  }

  lemma OtherCell(s: seq<Byte>, t: seq<Byte>, i: nat, c: Cell, j: nat, d: Cell, id: PageId, from: nat)
    requires SlotAt(i + 1) <= |s| && SlotAt(j + 1) <= |s| && c.Fits() && c.Sep? && d.Fits() && id < MAX_ID
    requires CellStored(s, j, d, from)
    requires Slot(s, i) + ID_SIZE <= |s| && t == Splice(s, Slot(s, i), IdBytes(id)) && Slot(t, j) == Slot(s, j)
    requires Slot(s, i) + |Payload(c)| <= Slot(s, j) || Slot(s, j) + |Payload(d)| <= Slot(s, i)
    ensures CellStored(t, j, d, from)
  {
    assert |Payload(c)| >= ID_SIZE;
    hide Payload, Slot, IdBytes;
    var b := Slot(s, j);
    assert t[b..b + |Payload(d)|] == s[b..b + |Payload(d)|];
  }

  lemma RedirectApart(s: seq<Byte>, t: seq<Byte>, cells: seq<Cell>, i: nat, id: PageId)
    requires SlotAt(|cells|) <= |s| == |t| && forall c :: c in cells ==> c.Fits()
    requires CellsApart(s, cells) && i < |cells| && cells[i].Sep? && id < MAX_ID
    requires forall j: nat :: j < |cells| ==> Slot(t, j) == Slot(s, j)
    ensures forall c :: c in cells[i := Sep(cells[i].key, id)] ==> c.Fits()
    ensures CellsApart(t, cells[i := Sep(cells[i].key, id)])
  {
    ReplaceSize(cells, i, id);
    hide Payload, Slot;
    var r := cells[i := Sep(cells[i].key, id)];
    forall a, b | 0 <= a < |r| && 0 <= b < |r| && a != b
      ensures Slot(t, a) + |Payload(r[a])| <= Slot(t, b) || Slot(t, b) + |Payload(r[b])| <= Slot(t, a)
    {
      assert |Payload(r[a])| == |Payload(cells[a])| && |Payload(r[b])| == |Payload(cells[b])|;
    }
  }

  // -------------------------------------------------------------------- pack

  /** The first k cells were packed downwards from the end of `bytes`, in order, and
      the slots in `slots` point to them. */
  ghost predicate Packed(slots: seq<Byte>, bytes: seq<Byte>, cells: seq<Cell>, k: nat)
    requires k <= |cells| && SlotAt(|cells|) <= |slots| && forall c :: c in cells ==> c.Fits()
  {
    forall j :: 0 <= j < k ==> PackedCell(slots, bytes, cells, j)
  }

  ghost predicate PackedCell(slots: seq<Byte>, bytes: seq<Byte>, cells: seq<Cell>, j: nat)
    requires j < |cells| && SlotAt(|cells|) <= |slots| && forall c :: c in cells ==> c.Fits()
  {
    && Size(cells[..j + 1]) <= |bytes| && Slot(slots, j) == |bytes| - Size(cells[..j + 1])
    && Slot(slots, j) + |Payload(cells[j])| <= |bytes|
    && bytes[Slot(slots, j)..Slot(slots, j) + |Payload(cells[j])|] == Payload(cells[j])
  }

  lemma PrefixSize(cells: seq<Cell>, j: nat)
    requires j < |cells| && forall c :: c in cells ==> c.Fits()
    ensures Size(cells[..j + 1]) == Size(cells[..j]) + |Payload(cells[j])|
  {
    assert cells[..j + 1][..j] == cells[..j];
  }

  lemma {:induction false} PrefixSizeMonotone(cells: seq<Cell>, i: nat, j: nat)
    requires i <= j <= |cells| && forall c :: c in cells ==> c.Fits()
    ensures Size(cells[..i]) <= Size(cells[..j])
    decreases j
  {
    hide Payload, Size;
    if i < j {
      PrefixSize(cells, j - 1);
      PrefixSizeMonotone(cells, i, j - 1);
    }
  }

  lemma PackStep(slots: seq<Byte>, bytes: seq<Byte>, cells: seq<Cell>, k: nat, top: nat)
    requires k < |cells| && SlotAt(|cells|) <= |slots| && forall c :: c in cells ==> c.Fits()
    requires Packed(slots, bytes, cells, k)
    requires Size(cells[..k + 1]) <= |bytes| <= MAX_PAGE && top == |bytes| - Size(cells[..k + 1])
    requires top + |Payload(cells[k])| <= |bytes|
    ensures Packed(SetU16(slots, SlotAt(k), top), Splice(bytes, top, Payload(cells[k])), cells, k + 1)
  {
    hide Payload, Size, SetU16;
    var slots', bytes' := SetU16(slots, SlotAt(k), top), Splice(bytes, top, Payload(cells[k]));
    PrefixSize(cells, k);
    forall j | 0 <= j < k ensures PackedCell(slots', bytes', cells, j) {
      assert PackedCell(slots, bytes, cells, j);
      PrefixSize(cells, j);
      PrefixSizeMonotone(cells, j + 1, k);
      assert Slot(slots', j) == Slot(slots, j);
      var a, b := Slot(slots, j), Slot(slots, j) + |Payload(cells[j])|;
      assert bytes'[a..b] == bytes[a..b];
    }
  }

  /** A packed page is laid out, without holes. */
  lemma PackedLayout(s: seq<Byte>, n: Node)
    requires HEADER_SIZE <= |s| <= MAX_PAGE && n.Typed()
    requires U16(s, COUNT_AT) == |n.cells| && U16(s, FLAGS_AT) == FlagsOf(n.leaf) && IdAt(s, RIGHT_AT) == n.right
    requires SlotAt(|n.cells|) + Size(n.cells) <= |s| && U16(s, DATA_START_AT) == |s| - Size(n.cells)
    requires U16(s, FREE_SPACE_AT) == U16(s, DATA_START_AT) - SlotAt(|n.cells|)
    requires Packed(s, s, n.cells, |n.cells|)
    ensures Layout(s, n) && Tight(s, n)
  {
    hide Payload, Size, IdAt;
    var cells := n.cells;
    assert cells[..|cells|] == cells;
    forall i | 0 <= i < |cells| ensures CellStored(s, i, cells[i], U16(s, DATA_START_AT)) {
      assert cells[i] in cells && PackedCell(s, s, cells, i);
      PrefixSizeMonotone(cells, i + 1, |cells|);
    }
    PackedApart(s, cells);
  }

  lemma PackedApart(s: seq<Byte>, cells: seq<Cell>)
    requires SlotAt(|cells|) <= |s| && (forall c :: c in cells ==> c.Fits()) && Packed(s, s, cells, |cells|)
    ensures CellsApart(s, cells)
  {
    hide Payload, Size, Slot;
    forall i, j | 0 <= i < j < |cells|
      ensures Slot(s, j) + |Payload(cells[j])| <= Slot(s, i)
    {
      assert PackedCell(s, s, cells, i) && PackedCell(s, s, cells, j);
      PrefixSize(cells, j);
      PrefixSizeMonotone(cells, i + 1, j);
    }
  }

  /** Packing is about the bytes of the slots and of the packed payloads only. */
  lemma PackedAgrees(slots: seq<Byte>, bytes: seq<Byte>, r: seq<Byte>, cells: seq<Cell>, k: nat)
    requires k <= |cells| && SlotAt(|cells|) <= |slots| && forall c :: c in cells ==> c.Fits()
    requires Packed(slots, bytes, cells, k)
    requires |r| == |bytes| && SlotAt(|cells|) <= |r| && Size(cells[..k]) <= |r|
    requires forall x :: HEADER_SIZE <= x < SlotAt(k) ==> r[x] == slots[x]
    requires forall x :: |r| - Size(cells[..k]) <= x < |r| ==> r[x] == bytes[x]
    ensures Packed(r, r, cells, k)
  {
    hide Payload, Size;
    forall j | 0 <= j < k ensures PackedCell(r, r, cells, j) {
      assert PackedCell(slots, bytes, cells, j);
      PrefixSize(cells, j);
      PrefixSizeMonotone(cells, j + 1, k);
      assert Slot(r, j) == Slot(slots, j);
      var a, b := Slot(slots, j), Slot(slots, j) + |Payload(cells[j])|;
      assert r[a..b] == bytes[a..b];
    }
  }

  // -------------------------------------------------- free space after packing

  /** src/btree.c:226 as written, in unsigned 16-bit arithmetic. */
  function WrittenFreeSpace(pageSize: nat, dataStart: nat, count: nat): nat {
    (pageSize - dataStart - SlotAt(count)) % 0x1_0000
  }

  /** The formula of src/btree.c:138 and 325, which the model uses for line 226 too. */
  function FreeSpace(dataStart: nat, count: nat): nat
    requires SlotAt(count) <= dataStart
  {
    dataStart - SlotAt(count)
  }

  /** The text of line 226 computes the free space exactly if the cells fill exactly
      half of the page. */
  lemma WrittenFreeSpaceIff(pageSize: nat, dataStart: nat, count: nat)
    requires SlotAt(count) <= dataStart <= pageSize <= MAX_PAGE
    ensures WrittenFreeSpace(pageSize, dataStart, count) == FreeSpace(dataStart, count) <==> pageSize == 2 * dataStart
  {
    var d := pageSize - dataStart - SlotAt(count);
    assert d < 0 ==> d % 0x1_0000 == d + 0x1_0000;
  }

  /** For every page without holes: the text states more free space than there is
      exactly if the payloads take more than half of the page, or are so few that the
      difference wraps around; a cell that is then let in lies over slots. It states
      less exactly if they take less than half and it does not wrap. */
  lemma WrittenFreeSpaceSign(s: seq<Byte>, n: Node)
    requires Layout(s, n) && Tight(s, n)
    ensures SlotAt(|n.cells|) <= U16(s, DATA_START_AT) <= |s|
    ensures var written := WrittenFreeSpace(|s|, U16(s, DATA_START_AT), |n.cells|);
            && (written > U16(s, FREE_SPACE_AT) <==> 2 * Size(n.cells) > |s| || Size(n.cells) < SlotAt(|n.cells|))
            && (written < U16(s, FREE_SPACE_AT) <==> SlotAt(|n.cells|) <= Size(n.cells) && 2 * Size(n.cells) < |s|)
  {
    hide Size, CellsStored, CellsApart, Node.Typed;
    FreeFromStart(s, n);
    SignOf(|s|, U16(s, DATA_START_AT), |n.cells|);
  }

  lemma SignOf(pageSize: nat, dataStart: nat, count: nat)
    requires SlotAt(count) <= dataStart <= pageSize <= MAX_PAGE
    ensures var written, free := WrittenFreeSpace(pageSize, dataStart, count), FreeSpace(dataStart, count);
            var size := pageSize - dataStart;
            && (written > free <==> 2 * size > pageSize || size < SlotAt(count))
            && (written < free <==> SlotAt(count) <= size && 2 * size < pageSize)
  {
    var d := pageSize - dataStart - SlotAt(count);
    assert d % 0x1_0000 == if d < 0 then d + 0x1_0000 else d;
  }

  /** The left half of a split page of 1024 bytes, with two rows of 400 bytes: laid out
      as it is, with 208 bytes free, the text states 784. */
  lemma WrittenFreeSpaceFails(s: seq<Byte>)
    requires |s| == 1024
    requires var blob: seq<Byte> := seq(397, i => 0);
             var full := Node(true, [Entry(1, blob), Entry(2, blob), Entry(3, []), Entry(4, [])], 0);
             Layout(s, LeftHalf(full, 9)) && Tight(s, LeftHalf(full, 9))
    ensures U16(s, FREE_SPACE_AT) == 208 && WrittenFreeSpace(1024, U16(s, DATA_START_AT), 2) == 784
  {
    hide Layout, Tight;
    var blob: seq<Byte> := seq(397, i => 0);
    var full := Node(true, [Entry(1, blob), Entry(2, blob), Entry(3, []), Entry(4, [])], 0);
    var n := LeftHalf(full, 9);
    assert n.cells == [Entry(1, blob), Entry(2, blob)];
    LongRow(1, blob);
    LongRow(2, blob);
    UsedBounds(n.cells, Costs(402, 402));
    TightIff(s, n);
    FreeFromStart(s, n);
  }

  lemma LongRow(key: nat, blob: seq<Byte>)
    requires key < 128 && 128 <= |blob| < 0x4000
    ensures Entry(key, blob).Fits() && Cost(Entry(key, blob)) == |blob| + 5
  {
  }

  lemma FreeFromStart(s: seq<Byte>, n: Node)
    requires Layout(s, n) && Tight(s, n)
    ensures U16(s, FREE_SPACE_AT) == U16(s, DATA_START_AT) - SlotAt(|n.cells|)
  {
    TightIff(s, n);
  }
}
