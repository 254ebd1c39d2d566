/**
  The page operations of src/btree.c:183-333 on the bytes of a page, each proved
  against what it does to the node that the bytes stand for.
*/
module SlottedPage {
  import opened Varint
  import Blob
  import opened Cells
  import opened PageLayout

  /** What `page_insert_leaf` does; without room its assertion on line 240 fails. */
  datatype Added = Placed | Present | NoRoom

  class Page {
    const data: array<Byte>
    ghost var node: Node

    ghost predicate Valid()
      reads this, data
    {
      Layout(data[..], node)
    }

    /** Valid and without holes: all free space lies between slots and data. */
    ghost predicate Exact()
      reads this, data
    {
      Layout(data[..], node) && Tight(data[..], node)
    }

    /** A page of this size that stands for n. */
    ghost predicate Is(n: Node, size: nat)
      reads this, data
    {
      Exact() && node == n && data.Length == size
    }

    /** A page as the pager hands it out: bytes of no meaning yet. */
    constructor (size: nat)
      ensures fresh(data) && data.Length == size
    {
      data := new Byte[size];
      node := Node(true, [], 0);
    }

    // ------------------------------------------------------------- accessors

    method Field(at: nat) returns (v: nat)
      requires at + 2 <= data.Length
      ensures v == U16(data[..], at)
    {
      var lo: nat, hi: nat := data[at], data[at + 1];
      v := lo + 256 * hi;
    }

    method SetField(at: nat, v: nat)
      requires at + 2 <= data.Length && v <= 0xffff
      modifies data
      ensures data[..] == SetU16(old(data[..]), at, v)
    {
      data[at] := v % 256;
      data[at + 1] := v / 256;
    }

    method Id(at: nat) returns (id: PageId)
      requires at + ID_SIZE <= data.Length
      ensures id == IdAt(data[..], at)
    {
      var b0: nat, b1: nat, b2: nat, b3: nat := data[at], data[at + 1], data[at + 2], data[at + 3];
      id := b0 + 256 * (b1 + 256 * (b2 + 256 * b3));
    }

    /** `memcpy` of bytes into the page. */
    method Write(at: nat, e: seq<Byte>)
      requires at + |e| <= data.Length
      modifies data
      ensures data[..] == Splice(old(data[..]), at, e)
    {
      forall i | 0 <= i < |e| {
        data[at + i] := e[i];
      }
      SpliceIs(old(data[..]), at, e, data[..]);
    }

    /** `memcpy` from this page to a buffer. */
    method Copy(from: nat, size: nat, dst: array<Byte>, to: nat)
      requires from + size <= data.Length && to + size <= dst.Length && dst != data
      modifies dst
      ensures dst[..] == Splice(old(dst[..]), to, data[from..from + size])
    {
      forall k | 0 <= k < size {
        dst[to + k] := data[from + k];
      }
      SpliceIs(old(dst[..]), to, data[from..from + size], dst[..]);
    }

    /** `payload_get_len`. */
    method PayloadLength(leaf: bool, at: nat) returns (n: nat)
      requires CellReadable(leaf, data[..], at)
      ensures n == CellLength(leaf, data[..], at)
    {
      hide Readable, LengthFrom, ValueFrom, Blob.Readable, Blob.Decode;
      if leaf {
        n := Varint.GetLen(data, at);
        var v := Blob.GetLen(data, at + n);
        n := n + v;
      } else {
        n := Varint.GetLen(data, at + ID_SIZE);
        n := n + ID_SIZE;
      }
    }

    /** `payload_get_key`: the key of a cell and its bytes. */
    method Key(i: nat) returns (key: nat, bytes: seq<Byte>)
      requires Valid() && i < |node.cells|
      ensures key == node.cells[i].key < U64 && bytes == Varint.Encode(key)
    {
      hide Payload, Size, IdAt, CellsStored, CellsApart, CellReadable, CellLength, CellAt, Readable, ValueFrom,
           LengthFrom;
      LayoutIsLoose(data[..], node);
      ReadCell(data[..], node, i);
      var flags := Field(FLAGS_AT);
      var at := Field(SlotAt(i));
      at := at + KeyOffset(flags % 2 == 1);
      ReadsMeans(data[..], at, node.cells[i].key, |Varint.Encode(node.cells[i].key)|);
      var n;
      n, key := Varint.Get(data, at);
      KeyBytes(data[..], node, i);
      bytes := data[at..at + n];
    }

    /** `payload_get_page_id`, and the `right` field past the last cell. */
    method Child(i: nat) returns (id: PageId)
      requires Valid() && i <= |node.cells| && !node.leaf
      ensures id == if i == |node.cells| then node.right else node.cells[i].child
    {
      hide Payload, Size, IdAt, CellsStored, CellsApart, CellReadable, CellLength, Reads;
      var count := Field(COUNT_AT);
      if i == count {
        id := Id(RIGHT_AT);
      } else {
        LayoutIsLoose(data[..], node);
        ReadCell(data[..], node, i);
        SlotInData(data[..], node, i);
        LongEnough(node.cells[i]);
        var at := Field(SlotAt(i));
        id := Id(at);
      }
    }

    /** The value of leaf cell i: `payload_get_value_ptr` and `blob_get`. */
    method Value(i: nat) returns (blob: seq<Byte>)
      requires Valid() && i < |node.cells| && node.leaf
      ensures Entry(node.cells[i].key, blob) == node.cells[i]
    {
      hide Payload, Size, IdAt, CellsStored, CellsApart, CellLength, Reads, Readable, LengthFrom, ValueFrom, Loose,
           Tight;
      LayoutIsLoose(data[..], node);
      ReadCell(data[..], node, i);
      var at := Field(SlotAt(i));
      var k := Varint.GetLen(data, at);
      var total, from, size := Blob.Get(data, at + k);
      blob := data[from..from + size];
    }

    // ---------------------------------------------------------------- search

    /** `page_find_pointer`. */
    method FindPointer(key: nat, ghost base: nat) returns (found: bool, index: nat)
      requires Valid() && Sorted(node.cells)
      requires InWindow(base, key) && forall i :: 0 <= i < |node.cells| ==> InWindow(base, node.cells[i].key)
      ensures index == Find(node.cells, key)
      ensures found <==> HasKey(node.cells, key)
    {
      hide Layout, Find, KeyCompare;
      CountIs(data[..], node);
      var count := Field(COUNT_AT);
      index := 0;
      found := false;
      while index < count
        invariant index <= count && !found
        invariant forall j :: 0 <= j < index ==> node.cells[j].key < key
      {
        var k, bytes := Key(index);
        var ret := KeyCompare(k, key);
        WindowCompares(base, k, key);
        if ret >= 0 {
          found := ret == 0;
          break;
        }
        index := index + 1;
      }
      FindUnique(node.cells, key, index);
      FindHit(node.cells, key);
    }

    // ------------------------------------------------------------ compaction

    /** `page_compact`, with the free space of line 226 computed as at line 325. The
        cells are packed from the end of the page; what the page stands for stays. */
    method Compact()
      requires Loose(data[..], node)
      modifies data
      ensures Exact()
    {
      hide Payload, Size, IdAt, CellStored, Packed, SetU16, Splice, CellReadable, CellLength, CellAt, Reads,
           Layout, Tight, Loose;
      ghost var s := data[..];
      ghost var cells := node.cells;
      var leaf, count := LooseHeader();
      var buffer := new Byte[data.Length];
      var dataStart := data.Length;
      LooseSize(s, node);
      PackNothing(s, buffer[..], cells);
      var i := 0;
      while i < count
        invariant 0 <= i <= count
        invariant Size(cells[..i]) <= data.Length && dataStart == data.Length - Size(cells[..i])
        invariant Packed(data[..], buffer[..], cells, i)
        invariant forall k :: 0 <= k < data.Length && !(HEADER_SIZE <= k < SlotAt(i)) ==> data[k] == s[k]
      {
        ghost var d, b := data[..], buffer[..];
        UnpackedCell(s, d, node, i);
        PrefixFits(s, node, i);
        dataStart := CopyPayload(leaf, i, cells[i], buffer, dataStart);
        SetField(SlotAt(i), dataStart);
        PackStep(d, b, cells, i, dataStart);
        i := i + 1;
      }
      ghost var slots, packed := data[..], buffer[..];
      assert cells[..count] == cells;
      CopyBack(buffer, dataStart, count);
      PackedPage(s, slots, packed, data[..], node);
    }

    /** Lines 214-218 and 312-317: copies the payload of slot i to where it ends before
        `end`, and returns where it starts there. */
    method CopyPayload(leaf: bool, i: nat, ghost c: Cell, dst: array<Byte>, end: nat) returns (start: nat)
      requires SlotAt(i) + SLOT_SIZE <= data.Length && dst != data && c.Fits()
      requires CellReadable(leaf, data[..], Slot(data[..], i))
                && CellLength(leaf, data[..], Slot(data[..], i)) == |Payload(c)|
      requires Slot(data[..], i) + |Payload(c)| <= data.Length
      requires data[..][Slot(data[..], i)..Slot(data[..], i) + |Payload(c)|] == Payload(c)
      requires |Payload(c)| <= end <= dst.Length
      modifies dst
      ensures start == end - |Payload(c)| && dst[..] == Splice(old(dst[..]), start, Payload(c))
    {
      hide Payload, CellReadable, CellLength, Splice;
      var payload := Field(SlotAt(i));
      var size := PayloadLength(leaf, payload);
      start := end - size;
      Copy(payload, size, dst, start);
    }

    /** Lines 223-226. */
    method CopyBack(buffer: array<Byte>, dataStart: nat, count: nat)
      requires buffer != data && buffer.Length == data.Length <= MAX_PAGE && SlotAt(count) <= dataStart <= data.Length
      modifies data
      ensures forall k :: 0 <= k < data.Length ==> k < DATA_START_AT || FLAGS_AT <= k ==>
                data[k] == if k < dataStart then old(data[k]) else buffer[k]
      ensures U16(data[..], DATA_START_AT) == dataStart
      ensures U16(data[..], FREE_SPACE_AT) == dataStart - SlotAt(count)
    {
      forall k | dataStart <= k < data.Length {
        data[k] := buffer[k];
      }
      SetField(DATA_START_AT, dataStart);
      SetField(FREE_SPACE_AT, dataStart - SlotAt(count));
    }

    method LooseHeader() returns (leaf: bool, count: nat)
      requires Loose(data[..], node)
      ensures leaf == node.leaf && count == |node.cells| && SlotAt(count) <= data.Length
    {
      hide CellsStored, Size, IdAt, Node.Typed;
      var flags := Field(FLAGS_AT);
      leaf := flags % 2 == 1;
      count := Field(COUNT_AT);
    }

    // ---------------------------------------------------------------- insert

    /** `page_insert_payload`. A page with holes may be compacted first; one without
        never is, so a pointer into its data stays good across the call. */
    method InsertPayload(index: nat, size: nat) returns (start: nat, ghost base: seq<Byte>)
      requires Valid() && index <= |node.cells|
      requires size + SLOT_SIZE <= U16(data[..], FREE_SPACE_AT)
      modifies data
      ensures Layout(base, node) && (old(Exact()) ==> base == old(data[..]) && Tight(base, node))
      ensures Opened(base, data[..], |node.cells|, index, size)
      ensures start == U16(data[..], DATA_START_AT)
    {
      hide Layout, Tight, Opened, SetU16;
      MakeRoom(size);
      base := data[..];
      CountIs(base, node);
      var count := Field(COUNT_AT);
      var dataStart := Field(DATA_START_AT);
      var free := Field(FREE_SPACE_AT);
      forall k | SlotAt(index + 1) <= k < SlotAt(count + 1) {
        data[k] := data[k - SLOT_SIZE];
      }
      OpenedBy(base, data[..], count, index, size);
      start := dataStart - size;
      SetField(SlotAt(index), start);
      SetField(DATA_START_AT, start);
      SetField(FREE_SPACE_AT, free - size - SLOT_SIZE);
      SetField(COUNT_AT, count + 1);
      OpenedStart(base, data[..], count, index, size);
    }

    /** Lines 239-244: compaction if the space below the data is too small. */
    method MakeRoom(size: nat)
      requires Valid() && size + SLOT_SIZE <= U16(data[..], FREE_SPACE_AT)
      modifies data
      ensures Valid() && (old(Exact()) ==> data[..] == old(data[..]) && Exact())
      ensures Space(data[..]) >= size + SLOT_SIZE
      ensures size + SLOT_SIZE <= U16(data[..], FREE_SPACE_AT)
    {
      hide Layout, Tight, Loose;
      TightIff(data[..], node);
      CountIs(data[..], node);
      var count := Field(COUNT_AT);
      var dataStart := Field(DATA_START_AT);
      if dataStart - SlotAt(count) < size + SLOT_SIZE {
        LayoutIsLoose(data[..], node);
        Compact();
        TightIff(data[..], node);
      }
    }

    /** `page_insert_leaf`: the key is there already, or line 240 fails for want of room,
        or the entry is added in its place. */
    method InsertLeaf(key: nat, keyBytes: seq<Byte>, value: seq<Byte>, ghost blob: seq<Byte>, ghost base: nat)
      returns (r: Added)
      requires Exact() && node.leaf && Sorted(node.cells)
      requires InWindow(base, key) && forall i :: 0 <= i < |node.cells| ==> InWindow(base, node.cells[i].key)
      requires Entry(key, blob).Fits() && keyBytes == Varint.Encode(key) && value == Blob.Encode(blob)
      modifies data, `node
      ensures Exact() && node.Typed() && old(node).Typed()
      ensures r == if HasKey(old(node).cells, key) then Present
                   else if Takes(data.Length - HEADER_SIZE, old(node), Entry(key, blob)) then Placed else NoRoom
      ensures r != Placed ==> data[..] == old(data[..]) && node == old(node)
      ensures r == Placed ==>
                node == old(node).(cells := InsertAt(old(node).cells, Find(old(node).cells, key), Entry(key, blob)))
    {
      hide Find, HasKey, Sorted, Layout, Tight, Node.Typed;
      FreeMeans(data[..], node);
      var found, index := FindPointer(key, base);
      if found {
        return Present;
      }
      var free := Field(FREE_SPACE_AT);
      if free < |keyBytes| + |value| + SLOT_SIZE {
        return NoRoom;
      }
      PlaceEntry(index, key, keyBytes, value, blob);
      FreeMeans(data[..], node);
      r := Placed;
    }

    /** Lines 268-273. */
    method PlaceEntry(index: nat, ghost key: nat, keyBytes: seq<Byte>, value: seq<Byte>, ghost blob: seq<Byte>)
      requires Exact() && node.leaf && index <= |node.cells|
      requires Entry(key, blob).Fits() && keyBytes == Varint.Encode(key) && value == Blob.Encode(blob)
      requires Cost(Entry(key, blob)) <= U16(data[..], FREE_SPACE_AT)
      modifies data, `node
      ensures Exact() && node == old(node).(cells := InsertAt(old(node).cells, index, Entry(key, blob)))
    {
      hide Size, IdAt, CellsStored, CellsApart, Opened, Layout, Tight;
      ghost var e := Entry(key, blob);
      ghost var before;
      var start;
      start, before := InsertPayload(index, |keyBytes| + |value|);
      ghost var gap := data[..];
      OpenedRoom(before, gap, |node.cells|, index, |Payload(e)|);
      Write(start, keyBytes);
      Write(start + |keyBytes|, value);
      SpliceTwice(gap, start, keyBytes, value);
      InsertLayout(before, gap, data[..], node, index, e);
      node := node.(cells := InsertAt(node.cells, index, e));
    }

    /** `page_insert_inner`: what position `index` led to now covers keys up to `key`,
        and page `id` what is left of its range; or line 240 fails. */
    method InsertInner(index: nat, ghost key: nat, keyBytes: seq<Byte>, id: PageId) returns (ok: bool)
      requires Exact() && !node.leaf && index <= |node.cells| && id < MAX_ID
      requires key < U64 && keyBytes == Varint.Encode(key)
      modifies data, `node
      ensures Exact() && old(node).Typed()
      ensures ok <==> Takes(data.Length - HEADER_SIZE, old(node), Sep(key, id))
      ensures index < |old(node).cells| ==> old(node).cells[index].Sep?
      ensures ok ==> node == InsertSep(old(node), index, key, id)
      ensures !ok ==> node == old(node) && data[..] == old(data[..])
    {
      hide Layout, Tight, Varint.Encode;
      FreeMeans(data[..], node);
      assert index < |node.cells| ==> node.cells[index] in node.cells;
      var free := Field(FREE_SPACE_AT);
      ok := free >= |keyBytes| + ID_SIZE + SLOT_SIZE;
      if ok {
        PlaceSep(index, key, keyBytes, id);
      }
    }

    /** Lines 286-300. */
    method PlaceSep(index: nat, ghost key: nat, keyBytes: seq<Byte>, id: PageId)
      requires Exact() && !node.leaf && index <= |node.cells| && id < MAX_ID
      requires key < U64 && keyBytes == Varint.Encode(key)
      requires |keyBytes| + ID_SIZE + SLOT_SIZE <= U16(data[..], FREE_SPACE_AT)
      modifies data, `node
      ensures index < |old(node).cells| ==> old(node).cells[index].Sep?
      ensures Exact() && node == InsertSep(old(node), index, key, id)
    {
      hide Size, IdAt, CellsStored, CellsApart, Opened, Layout, Tight, IdBytes, Payload, Varint.Encode, Splice;
      LayoutTyped(data[..], node);
      CountIs(data[..], node);
      ghost var n := node;
      ghost var before;
      var count := Field(COUNT_AT);
      var child := Child(index);
      ghost var c := Sep(key, child);
      assert index < |n.cells| ==> n.cells[index] in n.cells;
      SepPayload(key, child);
      var next := Field(if index == count then COUNT_AT else SlotAt(index));
      var start;
      start, before := InsertPayload(index, |keyBytes| + ID_SIZE);
      ghost var gap := data[..];
      OpenedRoom(before, gap, |n.cells|, index, |Payload(c)|);
      Write(start, IdBytes(child));
      Write(start + ID_SIZE, keyBytes);
      SpliceTwice(gap, start, IdBytes(child), keyBytes);
      ghost var filled := data[..];
      InsertLayout(before, gap, filled, n, index, c);
      ghost var n1 := n.(cells := InsertAt(n.cells, index, c));
      if index == count {
        RightLayout(filled, n1, id);
        Write(RIGHT_AT, IdBytes(id));
        node := n1.(right := id);
      } else {
        OpenedNext(before, gap, filled, |n.cells|, index, start, Payload(c));
        RedirectRoom(filled, n1, index + 1);
        RedirectLayout(filled, n1, index + 1, id);
        Write(next, IdBytes(id));
        node := n1.(cells := n1.cells[index + 1 := Sep(n1.cells[index + 1].key, id)]);
      }
    }

    // ----------------------------------------------------------------- split

    /** `page_split`: the upper half of the cells moves to `next`. */
    method Split(next: Page, nextId: PageId) returns (split: nat)
      requires Valid() && next != this && next.data != data && next.data.Length == data.Length && nextId < MAX_ID
      modifies data, `node, next.data, next`node
      ensures Exact() && next.Exact() && split == SplitPoint(old(node))
      ensures node == LeftHalf(old(node), nextId) && next.node == RightHalf(old(node))
      ensures node.cells + next.node.cells == old(node).cells && split == |node.cells|
      ensures |node.cells| <= |next.node.cells| <= |node.cells| + 1
      ensures node.leaf == next.node.leaf == old(node).leaf
      ensures node.right == nextId && next.node.right == old(node).right
    {
      hide Payload, Size, Used, IdAt, Layout, Tight, CellsStored, CellsApart, Loose, Packed;
      ghost var s := data[..];
      ghost var n := node;
      LayoutIsLoose(s, n);
      HalfFits(s, n, nextId);
      var dataStart;
      split, dataStart := MoveHalf(next);
      ghost var moved := next.data[..];
      var count := Field(COUNT_AT);
      var right := Id(RIGHT_AT);
      var flags := Field(FLAGS_AT);
      next.SetHeader(count - split, dataStart, flags, right);
      next.node := RightHalf(n);
      PackedHalf(moved, next.data[..], next.node);
      SetField(COUNT_AT, split);
      Write(RIGHT_AT, IdBytes(nextId));
      node := LeftHalf(n, nextId);
      HalfLoose(s, data[..], n, nextId);
      Compact();
    }

    /** The loop of src/btree.c:311-320. */
    method MoveHalf(next: Page) returns (split: nat, dataStart: nat)
      requires Loose(data[..], node)
      requires next != this && next.data != data && next.data.Length == data.Length
      modifies next.data
      ensures split == SplitPoint(node) && RightHalf(node).Typed()
      ensures SlotAt(|RightHalf(node).cells|) + Size(RightHalf(node).cells) <= next.data.Length
      ensures dataStart == next.data.Length - Size(RightHalf(node).cells)
      ensures Packed(next.data[..], next.data[..], RightHalf(node).cells, |RightHalf(node).cells|)
    {
      hide Payload, Size, IdAt, CellStored, Packed, SetU16, Splice, CellReadable, CellLength, CellAt, Reads, Loose;
      ghost var s := data[..];
      HalfFits(s, node, 0);
      ghost var cells := RightHalf(node).cells;
      var leaf, count := LooseHeader();
      split := count / 2;
      dataStart := data.Length;
      PackNothing(next.data[..], next.data[..], cells);
      var i := split;
      while i < count
        invariant split <= i <= count && data[..] == s
        invariant Size(cells[..i - split]) <= data.Length && dataStart == data.Length - Size(cells[..i - split])
        invariant Packed(next.data[..], next.data[..], cells, i - split)
      {
        ghost var d := next.data[..];
        ghost var j := i - split;
        UnpackedCell(s, s, node, i);
        HalfPrefixFits(s, node, j);
        dataStart := CopyPayload(leaf, i, cells[j], next.data, dataStart);
        next.SetField(SlotAt(i - split), dataStart);
        PackStep(d, d, cells, j, dataStart);
        PackedBoth(d, next.data[..], cells, j, dataStart);
        i := i + 1;
      }
      assert cells[..count - split] == cells;
    }

    /** Lines 322-326: the header of a page that was packed from its end. */
    method SetHeader(count: nat, dataStart: nat, flags: nat, right: PageId)
      requires HEADER_SIZE <= SlotAt(count) <= dataStart <= data.Length <= MAX_PAGE && flags <= 0xffff && right < MAX_ID
      modifies data
      ensures U16(data[..], COUNT_AT) == count && U16(data[..], DATA_START_AT) == dataStart
      ensures U16(data[..], FREE_SPACE_AT) == dataStart - SlotAt(count)
      ensures U16(data[..], FLAGS_AT) == flags && IdAt(data[..], RIGHT_AT) == right
      ensures forall k :: HEADER_SIZE <= k < data.Length ==> data[k] == old(data[k])
    {
      hide IdBytes, IdAt, SetU16;
      Write(RIGHT_AT, IdBytes(right));
      SameId(data[..], RIGHT_AT, IdBytes(right), 0);
      ghost var r := data[..];
      SetField(FLAGS_AT, flags);
      SetField(COUNT_AT, count);
      SetField(DATA_START_AT, dataStart);
      SetField(FREE_SPACE_AT, dataStart - SlotAt(count));
      assert data[RIGHT_AT..RIGHT_AT + ID_SIZE] == r[RIGHT_AT..RIGHT_AT + ID_SIZE];
      SameId(data[..], RIGHT_AT, r, RIGHT_AT);
    }

    // ----------------------------------------------------------- fresh pages

    /** The empty root leaf of `btree_create`. */
    method InitLeaf()
      requires HEADER_SIZE <= data.Length <= MAX_PAGE
      modifies data, `node
      ensures Exact() && node == Node(true, [], 0)
    {
      SetHeader(0, data.Length, FlagsOf(true), 0);
      node := Node(true, [], 0);
      PackedLayout(data[..], node);
    }

    /** The root that `btree_insert` puts above a split one. */
    method InitRoot(ghost key: nat, keyBytes: seq<Byte>, left: PageId, right: PageId)
      requires key < U64 && keyBytes == Varint.Encode(key) && left < MAX_ID && right < MAX_ID
      requires HEADER_SIZE + Cost(Sep(key, left)) <= data.Length <= MAX_PAGE
      modifies data, `node
      ensures Exact() && node == Node(false, [Sep(key, left)], right)
    {
      hide IdBytes, IdAt, Layout, Tight, SetU16;
      ghost var c := Sep(key, left);
      SepCosts(key, left);
      var dataStart := data.Length - (ID_SIZE + |keyBytes|);
      SetHeader(1, dataStart, FlagsOf(false), right);
      ghost var h := data[..];
      SetField(SlotAt(0), dataStart);
      ghost var m := data[..];
      HeaderKept(h, m, HEADER_SIZE);
      Write(dataStart, IdBytes(left));
      Write(dataStart + ID_SIZE, keyBytes);
      SpliceTwice(m, dataStart, IdBytes(left), keyBytes);
      node := Node(false, [c], right);
      HeaderKept(m, data[..], dataStart);
      OneCell(data[..], c, dataStart);
      PackedLayout(data[..], node);
    }
  }

  // ------------------------------------------------------- facts about bytes

  lemma ReadsMeans(s: seq<Byte>, at: nat, v: nat, n: nat)
    requires Reads(s, at, v, n)
    ensures Readable(s, at, 0) && ValueFrom(s, at, 0) == v && LengthFrom(s, at, 0) == n
  {
  }

  lemma KeyBytes(s: seq<Byte>, n: Node, i: nat)
    requires Layout(s, n) && i < |n.cells|
    ensures var c := n.cells[i]; var at := Slot(s, i) + KeyOffset(n.leaf);
            && c.Fits() && at + |Varint.Encode(c.key)| <= |s|
            && s[at..at + |Varint.Encode(c.key)|] == Varint.Encode(c.key)
  {
    hide Payload, Size, IdAt, CellsApart, Varint.Encode;
    assert n.cells[i] in n.cells;
    assert CellStored(s, i, n.cells[i], U16(s, DATA_START_AT));
    KeyInPayload(n.cells[i], s, Slot(s, i));
  }

  lemma LooseSize(s: seq<Byte>, n: Node)
    requires Loose(s, n)
    ensures n.Typed() && SlotAt(|n.cells|) + Size(n.cells) <= |s| <= MAX_PAGE
  {
  }

  lemma LongEnough(c: Cell)
    requires c.Fits() && c.Sep?
    ensures |Payload(c)| >= ID_SIZE
  {
  }

  lemma CountIs(s: seq<Byte>, n: Node)
    requires Layout(s, n)
    ensures |s| >= HEADER_SIZE && U16(s, COUNT_AT) == |n.cells|
    ensures SlotAt(|n.cells|) <= U16(s, DATA_START_AT) <= |s| <= MAX_PAGE
  {
  }

  lemma WindowCompares(base: nat, a: nat, b: nat)
    requires InWindow(base, a) && InWindow(base, b)
    ensures ComparesRight(a, b)
  {
    CompareExactIff(base, WINDOW);
  }

  lemma PackNothing(slots: seq<Byte>, bytes: seq<Byte>, cells: seq<Cell>)
    requires SlotAt(|cells|) <= |slots| && forall c :: c in cells ==> c.Fits()
    ensures Size(cells[..0]) == 0 && Packed(slots, bytes, cells, 0)
  {
  }

  lemma PrefixFits(s: seq<Byte>, n: Node, i: nat)
    requires Loose(s, n) && i < |n.cells|
    ensures Size(n.cells[..i + 1]) == Size(n.cells[..i]) + |Payload(n.cells[i])|
    ensures SlotAt(|n.cells|) <= |s| - Size(n.cells[..i + 1]) <= |s| <= MAX_PAGE
  {
    hide Payload, Size;
    assert n.cells[..|n.cells|] == n.cells;
    PrefixSize(n.cells, i);
    PrefixSizeMonotone(n.cells, i + 1, |n.cells|);
  }

  lemma UnpackedCell(s: seq<Byte>, d: seq<Byte>, n: Node, i: nat)
    requires Loose(s, n) && |d| == |s| && i < |n.cells|
    requires forall k :: 0 <= k < |s| && !(HEADER_SIZE <= k < SlotAt(i)) ==> d[k] == s[k]
    ensures n.cells[i].Fits() && Slot(d, i) == Slot(s, i)
    ensures CellReadable(n.leaf, d, Slot(d, i)) && CellLength(n.leaf, d, Slot(d, i)) == |Payload(n.cells[i])|
    ensures Slot(d, i) + |Payload(n.cells[i])| <= |d|
    ensures d[Slot(d, i)..Slot(d, i) + |Payload(n.cells[i])|] == Payload(n.cells[i])
  {
    hide Payload, Size, IdAt, CellReadable, CellLength, CellAt, Reads;
    assert n.cells[i] in n.cells && CellStored(s, i, n.cells[i], SlotAt(|n.cells|));
    var a, b := Slot(s, i), Slot(s, i) + |Payload(n.cells[i])|;
    assert d[a..b] == s[a..b];
    CellRoundTrip(n.cells[i], d, a);
  }

  /** After the loop of `Compact` and its copy back. */
  lemma PackedPage(s: seq<Byte>, slots: seq<Byte>, buffer: seq<Byte>, r: seq<Byte>, n: Node)
    requires Loose(s, n) && |slots| == |buffer| == |r| == |s|
    requires Packed(slots, buffer, n.cells, |n.cells|)
    requires forall k :: 0 <= k < HEADER_SIZE ==> slots[k] == s[k]
    requires forall k :: 0 <= k < HEADER_SIZE && !(DATA_START_AT <= k < FLAGS_AT) ==> r[k] == slots[k]
    requires forall k :: HEADER_SIZE <= k < SlotAt(|n.cells|) ==> r[k] == slots[k]
    requires forall k :: |s| - Size(n.cells) <= k < |s| ==> r[k] == buffer[k]
    requires U16(r, DATA_START_AT) == |s| - Size(n.cells)
    requires U16(r, FREE_SPACE_AT) == U16(r, DATA_START_AT) - SlotAt(|n.cells|)
    ensures Layout(r, n) && Tight(r, n)
  {
    hide Payload, Size, IdAt, PackedCell, Layout, Tight, CellsStored;
    assert n.cells[..|n.cells|] == n.cells;
    PackedAgrees(slots, buffer, r, n.cells, |n.cells|);
    assert r[RIGHT_AT..RIGHT_AT + ID_SIZE] == s[RIGHT_AT..RIGHT_AT + ID_SIZE];
    SameId(r, RIGHT_AT, s, RIGHT_AT);
    PackedLayout(r, n);
  }

  lemma SepPayload(key: nat, child: PageId)
    requires key < U64 && child < MAX_ID
    ensures Payload(Sep(key, child)) == IdBytes(child) + Varint.Encode(key)
  {
  }

  lemma OpenedStart(s: seq<Byte>, r: seq<Byte>, count: nat, i: nat, size: nat)
    requires Opened(s, r, count, i, size)
    ensures U16(r, DATA_START_AT) == U16(s, DATA_START_AT) - size
  {
  }

  lemma OpenedRoom(s: seq<Byte>, r: seq<Byte>, count: nat, i: nat, size: nat)
    requires Opened(s, r, count, i, size)
    ensures HEADER_SIZE <= U16(r, DATA_START_AT) && U16(r, DATA_START_AT) + size <= |r|
  {
  }

  /** The free space of an exact page. */
  lemma FreeMeans(s: seq<Byte>, n: Node)
    requires Layout(s, n) && Tight(s, n)
    ensures HEADER_SIZE <= |s| && n.Typed() && U16(s, FREE_SPACE_AT) == |s| - HEADER_SIZE - Used(n.cells)
  {
    TightIff(s, n);
  }

  lemma LayoutTyped(s: seq<Byte>, n: Node)
    requires Layout(s, n)
    ensures n.Typed()
  {
  }

  /** After an insertion the cell that was at `index` is at index + 1, where it was. */
  lemma OpenedNext(s: seq<Byte>, r: seq<Byte>, t: seq<Byte>, count: nat, i: nat, start: nat, e: seq<Byte>)
    requires Opened(s, r, count, i, |e|) && i < count && start == U16(r, DATA_START_AT)
    requires start + |e| <= |r| && t == Splice(r, start, e)
    ensures Slot(t, i + 1) == Slot(s, i)
  {
    assert Slot(r, i + 1) == Slot(s, i);
    U16Kept(r, t, SlotAt(i + 1), start);
  }

  lemma RedirectRoom(s: seq<Byte>, n: Node, i: nat)
    requires Layout(s, n) && !n.leaf && i < |n.cells|
    ensures Slot(s, i) + ID_SIZE <= |s| && n.cells[i].Sep?
  {
    hide Payload, Size, IdAt, CellsStored, CellsApart;
    SlotInData(s, n, i);
    LongEnough(n.cells[i]);
  }

  lemma HalfFits(s: seq<Byte>, n: Node, id: PageId)
    requires Loose(s, n) && id < MAX_ID
    ensures U16(s, COUNT_AT) == |n.cells| && IdAt(s, RIGHT_AT) == n.right && U16(s, FLAGS_AT) == FlagsOf(n.leaf)
    ensures HEADER_SIZE <= |s| <= MAX_PAGE
    ensures LeftHalf(n, id).Typed() && RightHalf(n).Typed()
    ensures SlotAt(|n.cells|) + Size(LeftHalf(n, id).cells) <= |s|
    ensures SlotAt(|n.cells|) + Size(RightHalf(n).cells) <= |s|
  {
    hide Payload, Size, CellsStored, IdAt;
    UsedHalves(n);
  }

  lemma HalfPrefixFits(s: seq<Byte>, n: Node, j: nat)
    requires Loose(s, n) && j < |n.cells| - SplitPoint(n) && RightHalf(n).Typed()
    ensures var cells := RightHalf(n).cells;
            && cells[j] == n.cells[SplitPoint(n) + j]
            && Size(cells[..j + 1]) == Size(cells[..j]) + |Payload(cells[j])|
            && SlotAt(|cells|) <= |s| - Size(cells[..j + 1]) <= |s| <= MAX_PAGE
  {
    hide Payload, Size, CellsStored, IdAt;
    var cells := RightHalf(n).cells;
    UsedHalves(n);
    assert cells[..|cells|] == cells;
    PrefixSize(cells, j);
    PrefixSizeMonotone(cells, j + 1, |cells|);
  }

  /** Slot and payload may be written to the same page. */
  lemma PackedBoth(d: seq<Byte>, r: seq<Byte>, cells: seq<Cell>, j: nat, top: nat)
    requires j < |cells| && (forall c :: c in cells ==> c.Fits()) && SlotAt(|cells|) <= top <= |d| <= MAX_PAGE
    requires Size(cells[..j + 1]) <= |d| && top == |d| - Size(cells[..j + 1]) && top + |Payload(cells[j])| <= |d|
    requires Packed(SetU16(d, SlotAt(j), top), Splice(d, top, Payload(cells[j])), cells, j + 1)
    requires r == SetU16(Splice(d, top, Payload(cells[j])), SlotAt(j), top)
    ensures Packed(r, r, cells, j + 1)
  {
    hide Payload, Size, SetU16, PackedCell;
    PackedAgrees(SetU16(d, SlotAt(j), top), Splice(d, top, Payload(cells[j])), r, cells, j + 1);
  }

  lemma PackedHalf(m: seq<Byte>, r: seq<Byte>, n: Node)
    requires n.Typed() && |m| == |r| && HEADER_SIZE <= |r| <= MAX_PAGE
    requires SlotAt(|n.cells|) + Size(n.cells) <= |r| && Packed(m, m, n.cells, |n.cells|)
    requires U16(r, COUNT_AT) == |n.cells| && U16(r, DATA_START_AT) == |r| - Size(n.cells)
    requires U16(r, FREE_SPACE_AT) == U16(r, DATA_START_AT) - SlotAt(|n.cells|)
    requires U16(r, FLAGS_AT) == FlagsOf(n.leaf) && IdAt(r, RIGHT_AT) == n.right
    requires forall k :: HEADER_SIZE <= k < |r| ==> r[k] == m[k]
    ensures Layout(r, n) && Tight(r, n)
  {
    hide Payload, Size, IdAt, PackedCell, Layout, Tight;
    assert n.cells[..|n.cells|] == n.cells;
    PackedAgrees(m, m, r, n.cells, |n.cells|);
    PackedLayout(r, n);
  }

  lemma HalfLoose(s: seq<Byte>, d: seq<Byte>, n: Node, id: PageId)
    requires Loose(s, n) && id < MAX_ID
    requires d == Splice(SetU16(s, COUNT_AT, SplitPoint(n)), RIGHT_AT, IdBytes(id))
    ensures Loose(d, LeftHalf(n, id))
  {
    hide Payload, Size, IdAt, IdBytes, SetU16, CellStored;
    HalfFits(s, n, id);
    SameId(d, RIGHT_AT, IdBytes(id), 0);
    var cells := LeftHalf(n, id).cells;
    forall i | 0 <= i < |cells| ensures CellStored(d, i, cells[i], SlotAt(|cells|)) {
      assert n.cells[i] in n.cells && CellStored(s, i, n.cells[i], SlotAt(|n.cells|));
      MovedCell(s, d, i, i, cells[i], SlotAt(|n.cells|), SlotAt(|cells|));
    }
  }

  lemma OneCell(s: seq<Byte>, c: Cell, at: nat)
    requires c.Fits() && SlotAt(1) <= at && at + |Payload(c)| == |s| && Slot(s, 0) == at
    requires s[at..at + |Payload(c)|] == Payload(c)
    ensures Size([c]) == |Payload(c)| && Packed(s, s, [c], 1)
  {
    hide Payload;
    assert [c][..1] == [c];
  }
}
