/**
  What a B+-tree page means: a sorted list of cells and a `right` page id, with the
  bytes of each cell (the payload helpers of src/btree.c:53-123) and the space rules
  that decide when a page is split.
*/
module Cells {
  import opened Varint
  import Blob

  type PageId = nat

  const MAX_ID: nat := 0x1_0000_0000

  const HEADER_SIZE: nat := 12
  const SLOT_SIZE: nat := 2
  const ID_SIZE: nat := 4

  /** A leaf cell holds a key and a value, an inner cell a child page and the
      largest key that belongs in it. */
  datatype Cell = Entry(key: nat, blob: seq<Byte>) | Sep(key: nat, child: PageId)
  {
    /** Fits the field widths of the source. */
    predicate Fits() {
      key < U64 && (if Entry? then |blob| < TOP_BYTE else child < MAX_ID)
    }
  }

  datatype Node = Node(leaf: bool, cells: seq<Cell>, right: PageId)
  {
    predicate Typed() {
      && right < MAX_ID
      && forall c :: c in cells ==> c.Fits() && c.Entry? == leaf
    }
  }

  // ------------------------------------------------------------ cell bytes

  /** A page id in memory, low byte first. */
  function IdBytes(id: PageId): (s: seq<Byte>)
    requires id < MAX_ID
    ensures |s| == ID_SIZE && IdAt(s, 0) == id
  {
    [id % 256, id / 256 % 256, id / 256 / 256 % 256, id / 256 / 256 / 256]
  }

  function IdAt(s: seq<Byte>, at: nat): (id: PageId)
    requires at + ID_SIZE <= |s|
    ensures id < MAX_ID
  {
    var b0: nat, b1: nat, b2: nat, b3: nat := s[at], s[at + 1], s[at + 2], s[at + 3];
    b0 + 256 * (b1 + 256 * (b2 + 256 * b3))
  }

  /** The bytes that the source stores for a cell. */
  function Payload(c: Cell): (s: seq<Byte>)
    requires c.Fits()
    ensures |s| >= 2
    ensures c.Sep? ==> 5 <= |s| <= 13
  {
    match c
    case Entry(key, blob) => Varint.Encode(key) + Blob.Encode(blob)
    case Sep(key, child) => IdBytes(child) + Varint.Encode(key)
  }

  /** Payload and slot. */
  function Cost(c: Cell): nat
    requires c.Fits()
  {
    |Payload(c)| + SLOT_SIZE
  }

  /** Where the key starts inside a payload, `payload_get_key_ptr`. */
  function KeyOffset(leaf: bool): nat {
    if leaf then 0 else ID_SIZE
  }

  /** A complete cell can be read at s[at..]. */
  predicate CellReadable(leaf: bool, s: seq<Byte>, at: nat) {
    && Varint.Readable(s, at + KeyOffset(leaf), 0)
    && (leaf ==> Blob.Readable(s, at + LengthFrom(s, at, 0)))
  }

  /** The number of bytes of the cell at s[at..], found by parsing it. */
  function CellLength(leaf: bool, s: seq<Byte>, at: nat): nat
    requires CellReadable(leaf, s, at)
  {
    var keyLength := LengthFrom(s, at + KeyOffset(leaf), 0);
    if leaf then keyLength + Blob.Decode(s, at + keyLength).1 else keyLength + ID_SIZE
  }

  /** The cell at s[at..]. */
  function CellAt(leaf: bool, s: seq<Byte>, at: nat): Cell
    requires CellReadable(leaf, s, at)
  {
    var key := ValueFrom(s, at + KeyOffset(leaf), 0);
    if leaf then Entry(key, Blob.Decode(s, at + LengthFrom(s, at, 0)).0) else Sep(key, IdAt(s, at))
  }

  lemma PrefixOfSlice(s: seq<Byte>, at: nat, whole: seq<Byte>, before: seq<Byte>, part: seq<Byte>, after: seq<Byte>)
    requires at + |whole| <= |s| && s[at..at + |whole|] == whole
    requires whole == before + part + after
    ensures part <= s[at + |before|..]
    ensures s[at + |before|..at + |before| + |part|] == part
  {
    var from := at + |before|;
    forall k | 0 <= k < |part| ensures s[from + k] == part[k] {
      assert s[at..at + |whole|][|before| + k] == whole[|before| + k];
    }
    assert s[from..][..|part|] == s[from..from + |part|];
  }

  /** Cells are self-delimiting: whatever surrounds a payload, parsing it gives back
      its length, its key and its contents. */
  lemma CellRoundTrip(c: Cell, s: seq<Byte>, at: nat)
    requires c.Fits() && at + |Payload(c)| <= |s| && s[at..at + |Payload(c)|] == Payload(c)
    ensures CellReadable(c.Entry?, s, at)
    ensures CellLength(c.Entry?, s, at) == |Payload(c)|
    ensures CellAt(c.Entry?, s, at) == c
    ensures Varint.Reads(s, at + KeyOffset(c.Entry?), c.key, |Varint.Encode(c.key)|)
  {
    hide Varint.Encode, Blob.Encode, Blob.Decode, Blob.Readable, Readable, ValueFrom, LengthFrom, IdBytes, IdAt;
    var k := Varint.Encode(c.key);
    match c
    case Entry(key, blob) =>
      var b := Blob.Encode(blob);
      PrefixOfSlice(s, at, k + b, [], k, b);
      PrefixOfSlice(s, at, k + b, k, b, []);
      Varint.RoundTrip(s, at, key);
      Blob.RoundTrip(s, at + |k|, blob);
    case Sep(key, child) =>
      var i := IdBytes(child);
      PrefixOfSlice(s, at, i + k, [], i, k);
      PrefixOfSlice(s, at, i + k, i, k, []);
      Varint.RoundTrip(s, at + ID_SIZE, key);
      SameId(s, at, i, 0);
      assert IdAt(IdBytes(child), 0) == child;
  }

  /** The bytes of the key, where `payload_get_key` finds them. */
  lemma KeyInPayload(c: Cell, s: seq<Byte>, at: nat)
    requires c.Fits() && at + |Payload(c)| <= |s| && s[at..at + |Payload(c)|] == Payload(c)
    ensures var k := Varint.Encode(c.key); var from := at + KeyOffset(c.Entry?);
            from + |k| <= |s| && s[from..from + |k|] == k
  {
    hide Varint.Encode, Blob.Encode, IdBytes;
    var k := Varint.Encode(c.key);
    match c
    case Entry(key, blob) => PrefixOfSlice(s, at, k + Blob.Encode(blob), [], k, Blob.Encode(blob));
    case Sep(key, child) => PrefixOfSlice(s, at, IdBytes(child) + k, IdBytes(child), k, []);
  }

  lemma SameId(s: seq<Byte>, at: nat, t: seq<Byte>, to: nat)
    requires at + ID_SIZE <= |s| && to + ID_SIZE <= |t|
    requires s[at..at + ID_SIZE] == t[to..to + ID_SIZE]
    ensures IdAt(s, at) == IdAt(t, to)
  {
    var a, b := s[at..at + ID_SIZE], t[to..to + ID_SIZE];
    assert a[0] == b[0] && a[1] == b[1] && a[2] == b[2] && a[3] == b[3];
  }

  // ------------------------------------------------------------------ keys

  /** `key_compare`: the 64-bit difference narrowed to a 32-bit int. */
  function KeyCompare(a: nat, b: nat): (r: int)
    ensures -0x8000_0000 <= r < 0x8000_0000
  {
    var d := (a - b) % 0x1_0000_0000;
    if d < 0x8000_0000 then d else d - 0x1_0000_0000
  }

  /** The comparison has the sign of a - b. */
  predicate ComparesRight(a: nat, b: nat) {
    && (KeyCompare(a, b) < 0 <==> a < b)
    && (KeyCompare(a, b) == 0 <==> a == b)
  }

  /** Keys within a window smaller than 2^31 of each other. */
  const WINDOW: nat := 0x8000_0000

  predicate InWindow(base: nat, key: nat) {
    base <= key < base + WINDOW
  }

  /** A window of keys is ordered correctly by `key_compare` exactly up to 2^31 keys. */
  lemma CompareExactIff(base: nat, n: nat)
    ensures (forall a, b :: base <= a < base + n && base <= b < base + n ==> ComparesRight(a, b))
            <==> n <= WINDOW
  {
    if n > WINDOW {
      assert !ComparesRight(base + WINDOW, base);
    }
  }

  predicate Sorted(cells: seq<Cell>) {
    forall i, j :: 0 <= i < j < |cells| ==> cells[i].key < cells[j].key
  }

  /** The first cell whose key is not below `key`: the reference for
      `page_find_pointer`. */
  function Find(cells: seq<Cell>, key: nat): (i: nat)
    ensures i <= |cells|
    ensures forall j :: 0 <= j < i ==> cells[j].key < key
    ensures i < |cells| ==> key <= cells[i].key
  {
    if cells == [] || key <= cells[0].key then 0 else 1 + Find(cells[1..], key)
  }

  predicate HasKey(cells: seq<Cell>, key: nat) {
    exists i :: 0 <= i < |cells| && cells[i].key == key
  }

  lemma FindHit(cells: seq<Cell>, key: nat)
    requires Sorted(cells)
    ensures HasKey(cells, key) <==> Find(cells, key) < |cells| && cells[Find(cells, key)].key == key
  {
  }

  lemma FindUnique(cells: seq<Cell>, key: nat, i: nat)
    requires i <= |cells|
    requires forall j :: 0 <= j < i ==> cells[j].key < key
    requires i < |cells| ==> key <= cells[i].key
    ensures Find(cells, key) == i
  {
  }

  // -------------------------------------------------------------- page edits

  function InsertAt(cells: seq<Cell>, i: nat, c: Cell): (r: seq<Cell>)
    requires i <= |cells|
    ensures |r| == |cells| + 1 && r[i] == c
    ensures forall j :: 0 <= j < i ==> r[j] == cells[j]
    ensures forall j :: i < j < |r| ==> r[j] == cells[j - 1]
  {
    cells[..i] + [c] + cells[i..]
  }

  /** `page_insert_inner`: the child that covered position i now covers only keys up
      to `key`, and page `id` covers the rest of its range. */
  function InsertSep(n: Node, i: nat, key: nat, id: PageId): (r: Node)
    requires i <= |n.cells| && (i < |n.cells| ==> n.cells[i].Sep?)
  {
    if i == |n.cells| then
      n.(cells := InsertAt(n.cells, i, Sep(key, n.right)), right := id)
    else
      n.(cells := InsertAt(n.cells, i, Sep(key, n.cells[i].child))[i + 1 := Sep(n.cells[i].key, id)])
  }

  function SplitPoint(n: Node): nat {
    |n.cells| / 2
  }

  function SplitKey(n: Node): nat
    requires |n.cells| >= 2
  {
    n.cells[SplitPoint(n) - 1].key
  }

  /** The split key is the last key that stays, and the cells are cut in the middle; of
      an odd number the upper half has one more. */
  lemma CutInMiddle(n: Node, newId: PageId)
    requires |n.cells| >= 2
    ensures var l, r := LeftHalf(n, newId), RightHalf(n);
            && l.cells + r.cells == n.cells && |l.cells| <= |r.cells| <= |l.cells| + 1
            && l.cells[|l.cells| - 1].key == SplitKey(n)
            && l.leaf == r.leaf == n.leaf && l.right == newId && r.right == n.right
  {
  }

  function LeftHalf(n: Node, newId: PageId): Node {
    Node(n.leaf, n.cells[..SplitPoint(n)], newId)
  }

  function RightHalf(n: Node): Node {
    Node(n.leaf, n.cells[SplitPoint(n)..], n.right)
  }

  // ------------------------------------------------------------------- space

  /** Bytes of payload. */
  function Size(cells: seq<Cell>): (z: nat)
    requires forall c :: c in cells ==> c.Fits()
  {
    if cells == [] then 0 else Size(cells[..|cells| - 1]) + |Payload(cells[|cells| - 1])|
  }

  function Used(cells: seq<Cell>): nat
    requires forall c :: c in cells ==> c.Fits()
  {
    Size(cells) + SLOT_SIZE * |cells|
  }

  lemma {:induction false} SizeConcat(a: seq<Cell>, b: seq<Cell>)
    requires forall c :: c in a + b ==> c.Fits()
    ensures (forall c :: c in a ==> c.Fits()) && (forall c :: c in b ==> c.Fits())
    ensures Size(a + b) == Size(a) + Size(b)
    decreases |b|
  {
    hide Payload;
    assert forall c :: c in a ==> c in a + b;
    assert forall c :: c in b ==> c in a + b;
    if b == [] {
      assert a + b == a;
    } else {
      var last := |b| - 1;
      assert (a + b)[..|a + b| - 1] == a + b[..last];
      SizeConcat(a, b[..last]);
    }
  }

  lemma SizeInsertAt(cells: seq<Cell>, i: nat, c: Cell)
    requires i <= |cells| && c.Fits() && forall d :: d in cells ==> d.Fits()
    ensures forall d :: d in InsertAt(cells, i, c) ==> d.Fits()
    ensures Size(InsertAt(cells, i, c)) == Size(cells) + |Payload(c)|
  {
    assert cells == cells[..i] + cells[i..];
    SizeConcat(cells[..i], cells[i..]);
    SizeConcat(cells[..i] + [c], cells[i..]);
    SizeConcat(cells[..i], [c]);
  }

  /** The assertion on line 240: there is room for the cell and its slot. */
  predicate Takes(space: nat, n: Node, c: Cell)
    requires n.Typed()
  {
    c.Fits() && Used(n.cells) + Cost(c) <= space
  }

  /** Bounds on the cost of a cell. */
  datatype Costs = Costs(min: nat, max: nat)

  predicate CostsWithin(cells: seq<Cell>, b: Costs) {
    forall c :: c in cells ==> c.Fits() && b.min <= Cost(c) <= b.max
  }

  const INNER_COSTS: Costs := Costs(7, 15)

  /** `space` bytes for slots and payloads take enough cells for halving to leave room. */
  predicate Roomy(space: nat, b: Costs) {
    0 < b.min <= b.max && space / b.max / 2 * b.min >= b.max
  }

  lemma SepCosts(key: nat, child: PageId)
    requires key < U64 && child < MAX_ID
    ensures Sep(key, child).Fits() && INNER_COSTS.min <= Cost(Sep(key, child)) <= INNER_COSTS.max
  {
  }

  /** Every page of at least 102 bytes is roomy for inner cells. */
  lemma InnerRoomy(space: nat)
    ensures Roomy(space, INNER_COSTS) <==> space >= 90
  {
  }

  lemma MulStep(a: nat, n: nat)
    ensures a * (n + 1) == a * n + a
  {
  }

  lemma {:induction false} UsedBounds(cells: seq<Cell>, b: Costs)
    requires CostsWithin(cells, b)
    ensures b.min * |cells| <= Used(cells) <= b.max * |cells|
  {
    hide Payload;
    if cells != [] {
      var rest := |cells| - 1;
      UsedBounds(cells[..rest], b);
      assert cells[rest] in cells;
      MulStep(b.min, rest);
      MulStep(b.max, rest);
    }
  }

  lemma UsedHalves(n: Node)
    requires n.Typed()
    ensures LeftHalf(n, 0).Typed() && RightHalf(n).Typed()
    ensures Used(n.cells) == Used(n.cells[..SplitPoint(n)]) + Used(n.cells[SplitPoint(n)..])
  {
    var k := SplitPoint(n);
    assert n.cells == n.cells[..k] + n.cells[k..];
    SizeConcat(n.cells[..k], n.cells[k..]);
  }

  lemma MulCancel(a: nat, m: nat, n: nat)
    requires a * m < a * n
    ensures m < n
  {
  }

  lemma CountFromUse(space: nat, use: nat, count: nat, max: nat)
    requires max > 0 && use <= max * count && space < use + max
    ensures count >= space / max
  {
    assert max * (space / max) <= space;
    MulStep(max, count);
    MulCancel(max, space / max, count + 1);
  }

  lemma HalfIsEnough(q: nat, count: nat, min: nat, part: nat)
    requires count >= q && part >= count / 2
    ensures min * part >= q / 2 * min
  {
    assert part >= q / 2;
  }

  lemma RoomyHalf(space: nat, b: Costs)
    requires Roomy(space, b)
    ensures space / b.max / 2 >= 1
  {
  }

  /** Splits always make room: a page without room for one more maximal cell has at
      least two cells, and either half takes one more maximal cell. */
  lemma SplitMakesRoom(n: Node, space: nat, b: Costs)
    requires n.Typed() && CostsWithin(n.cells, b) && Roomy(space, b)
    requires Used(n.cells) <= space < Used(n.cells) + b.max
    ensures |n.cells| >= 2 && 1 <= SplitPoint(n) < |n.cells|
    ensures LeftHalf(n, 0).Typed() && RightHalf(n).Typed()
    ensures Used(n.cells[..SplitPoint(n)]) + b.max <= space
    ensures Used(n.cells[SplitPoint(n)..]) + b.max <= space
  {
    hide Used, Size, Payload;
    var k, count := SplitPoint(n), |n.cells|;
    UsedBounds(n.cells, b);
    CountFromUse(space, Used(n.cells), count, b.max);
    var q := space / b.max;
    UsedHalves(n);
    UsedBounds(n.cells[..k], b);
    UsedBounds(n.cells[k..], b);
    HalfIsEnough(q, count, b.min, k);
    HalfIsEnough(q, count, b.min, count - k);
    RoomyHalf(space, b);
  }
}
