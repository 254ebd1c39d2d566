/**
  The pager of src/pager.c in one thread: what its loops over the ring find, and after
  how many turns. Concurrency is the subject of `PagerSteps`, the directory that of
  `Directory`; here it is a map.
*/
module Clock {
  import opened Common
  import opened Cells
  import opened LatchWord

  /** A slot of the ring with its header. */
  datatype Frame = Frame(page: PageId, present: bool, id: PageId, word: int, dirty: bool, ref: bool, exclusive: bool)

  type Ring = seq<Frame>

  // ----------------------------------------------------------------- the clock

  /** The slot of visit n from head on, for up to two rounds. */
  function Visited(size: nat, head: nat, n: nat): (i: nat)
    requires size > 0
    ensures i < size
  {
    (head + n) % size
  }

  /** The page can go: it is there and nobody has its latch. */
  predicate Idle(f: Frame) {
    f.page != 0 && f.word == 0
  }

  /** Visit n, of two rounds, takes the page if no earlier visit did: in the first round
      the reference bit must be clear, in the second it has been cleared. */
  predicate TakenAt(ring: Ring, head: nat, n: nat)
    requires |ring| > 0
  {
    var f := ring[Visited(|ring|, head, n)];
    Idle(f) && (!f.ref || n >= |ring|)
  }

  predicate NotTakenBefore(ring: Ring, head: nat, n: nat)
    requires |ring| > 0
  {
    forall m: nat :: m < n ==> !TakenAt(ring, head, m)
  }

  /** Whether slot j was among the first n visits. */
  ghost predicate WasVisited(size: nat, head: nat, n: nat, j: nat)
    requires size > 0
  {
    exists m: nat :: m < n && Visited(size, head, m) == j
  }

  /** The frame after the first n visits, none of which took a page: its reference bit
      is cleared if it was visited while idle. */
  ghost function Aged(ring: Ring, head: nat, n: nat, j: nat): Frame
    requires j < |ring|
  {
    if Idle(ring[j]) && WasVisited(|ring|, head, n, j) then ring[j].(ref := false) else ring[j]
  }

  lemma {:induction false} MulGap(a: nat, b: nat, c: nat)
    requires a < b
    ensures a * c + c <= b * c
    decreases b
  {
    if a < b - 1 {
      MulGap(a, b - 1, c);
    }
  }

  lemma RemainderIs(size: nat, q: nat, r: nat)
    requires r < size
    ensures (q * size + r) % size == r
  {
    var x := q * size + r;
    var d := x / size;
    assert x == d * size + x % size;
    if d < q {
      MulGap(d, q, size);
    } else if d > q {
      MulGap(q, d, size);
    }
  }

  /** Where a visit of the first two rounds is, counted from the first one. */
  lemma VisitedIs(size: nat, head: nat, n: nat)
    requires size > 0
    ensures var h := head % size;
            && (h + n < size ==> Visited(size, head, n) == h + n)
            && (size <= h + n < 2 * size ==> Visited(size, head, n) == h + n - size)
            && (2 * size <= h + n < 3 * size ==> Visited(size, head, n) == h + n - 2 * size)
  {
    var q, h := head / size, head % size;
    assert head == q * size + h;
    if h + n < size {
      RemainderIs(size, q, h + n);
    } else if h + n < 2 * size {
      assert (q + 1) * size == q * size + size;
      RemainderIs(size, q + 1, h + n - size);
    } else if h + n < 3 * size {
      assert (q + 2) * size == q * size + 2 * size;
      RemainderIs(size, q + 2, h + n - 2 * size);
    }
  }

  /** The turn of a slot: every slot is visited once a round. */
  function Turn(size: nat, head: nat, j: nat): (n: nat)
    requires j < size
    ensures n < size && Visited(size, head, n) == j && Visited(size, head, n + size) == j
  {
    var h := head % size;
    var n := if j >= h then j - h else j + size - h;
    VisitedIs(size, head, n);
    VisitedIs(size, head, n + size);
    n
  }

  /** In the second round the visit comes to a slot whose bit the first has cleared. */
  lemma SecondRound(ring: Ring, head: nat, n: nat)
    requires |ring| > 0 && |ring| <= n < 2 * |ring|
    ensures Visited(|ring|, head, n) == Visited(|ring|, head, n - |ring|)
    ensures WasVisited(|ring|, head, n, Visited(|ring|, head, n))
  {
    VisitedIs(|ring|, head, n);
    VisitedIs(|ring|, head, n - |ring|);
  }

  /** One round over visits that differ. */
  lemma FirstRound(size: nat, head: nat, n: nat)
    requires n < size
    ensures !WasVisited(size, head, n, Visited(size, head, n))
  {
    forall m: nat | m < n ensures Visited(size, head, m) != Visited(size, head, n) {
      VisitedIs(size, head, m);
      VisitedIs(size, head, n);
    }
  }

  /** The bit that a visit sees. */
  lemma SeenAt(ring: Ring, head: nat, n: nat)
    requires 0 < |ring| && n < 2 * |ring| && NotTakenBefore(ring, head, n)
    ensures var j := Visited(|ring|, head, n);
            TakenAt(ring, head, n) <==> Idle(ring[j]) && !Aged(ring, head, n, j).ref
  {
    if n < |ring| {
      FirstRound(|ring|, head, n);
    } else {
      SecondRound(ring, head, n);
    }
  }

  /** CLOCK is complete: two rounds take a page exactly if some page is idle. */
  lemma TwoRoundsDecide(ring: Ring, head: nat)
    requires |ring| > 0
    ensures (exists n: nat :: n < 2 * |ring| && TakenAt(ring, head, n))
            <==> exists j :: 0 <= j < |ring| && Idle(ring[j])
  {
    if j :| 0 <= j < |ring| && Idle(ring[j]) {
      assert TakenAt(ring, head, Turn(|ring|, head, j) + |ring|);
    }
  }

  // -------------------------------------------------------------- the pager

  datatype Result = Fixed(slot: nat) | NoMem | Invalid

  /** Every page of the ring is in the directory, once, and counted. */
  predicate Mapped(ring: Ring, dir: map<PageId, nat>) {
    && (forall p :: p in dir ==> p != 0 && dir[p] < |ring| && ring[dir[p]].page == p)
    && (forall i :: 0 <= i < |ring| && ring[i].page != 0 ==> ring[i].page in dir && dir[ring[i].page] == i)
  }

  /** Headers of pages are allocated, under their id, and marked only while latched. */
  predicate HeaderOk(f: Frame) {
    f.page != 0 ==> f.present && f.id == f.page && f.word >= -1 && (f.exclusive <==> f.word == -1)
  }

  ghost predicate Consistent(ring: Ring, dir: map<PageId, nat>) {
    Mapped(ring, dir) && forall i :: 0 <= i < |ring| ==> HeaderOk(ring[i])
  }

  /** All that `pager_fix` and `pager_unfix` read and write. */
  datatype View = View(ring: Ring, dir: map<PageId, nat>, count: nat, evictHead: nat, createHead: nat)

  class Pager {
    const size: nat
    const ring: array<Frame>
    var dir: map<PageId, nat>
    var count: nat
    var evictHead: nat
    var createHead: nat

    ghost predicate Valid()
      reads this, ring
    {
      ring.Length == size >= 2 && Consistent(ring[..], dir) && count == |dir| < size
    }

    ghost function Now(): (v: View)
      reads this, ring
      ensures |v.ring| == ring.Length
    {
      View(ring[..], dir, count, evictHead, createHead)
    }

    /** `pager_open`. */
    constructor (size: nat)
      requires size >= 2
      ensures Valid() && fresh(ring) && this.size == size && dir == map[]
      ensures forall i :: 0 <= i < size ==> ring[i].page == 0
    {
      this.size := size;
      ring := new Frame[size](_ => Frame(0, false, 0, 0, false, false, false));
      dir, count, evictHead, createHead := map[], 0, 0, 0;
    }

    /** `pager_evict`: the first visit that can take a page takes it, and otherwise two
        rounds have found every page latched. */
    method Evict() returns (ok: bool)
      requires Valid()
      modifies `dir, `evictHead, ring
      ensures ring.Length == size
      ensures ok <==> exists j :: 0 <= j < size && Idle(old(ring[..])[j])
      ensures evictHead > old(evictHead) || !ok
      ensures ok ==>
                EvictedAt(old(ring[..]), old(dir), old(evictHead), evictHead - old(evictHead) - 1, ring[..], dir)
      ensures !ok ==> evictHead == old(evictHead) + 2 * size && dir == old(dir)
                      && AgedBy(old(ring[..]), old(evictHead), 2 * size, ring[..])
      ensures (Now(), ok) == AfterEvict(old(Now()))
    {
      hide AgedBy, EvictedAt, TakenAt, NotTakenBefore, Consistent, AfterEvict;
      ghost var before := ring[..];
      NoVisit(before, old(evictHead));
      var i := 0;
      while i < size * 2
        invariant i <= size * 2 && evictHead == old(evictHead) + i && dir == old(dir)
        invariant NotTakenBefore(before, old(evictHead), i)
        invariant AgedBy(before, old(evictHead), i, ring[..])
      {
        var index := evictHead % size;
        evictHead := evictHead + 1;
        Visit(before, dir, old(evictHead), i, ring[..]);
        var f := ring[index];
        if f.page != 0 && f.word == 0 {
          if f.ref {
            ring[index] := f.(ref := false);
          } else {
            dir := dir - {f.page};
            ring[index] := f.(page := 0);
            EvictedIs(old(Now()), i, Now());
            return true;
          }
        }
        i := i + 1;
      }
      NoneTaken(before, old(evictHead));
      NotEvictedIs(old(Now()), Now());
      ok := false;
    }

    /** `pager_create`: takes the first free slot from the head on, after less than one
        round. It fails if there is no memory for a header that the slot does not have
        yet, or for the directory. */
    method Create(id: PageId, memory: bool, room: bool) returns (ok: bool, slot: nat)
      requires ring.Length == size > |dir| && Consistent(ring[..], dir) && id != 0 && id !in dir
      modifies `dir, `createHead, ring
      ensures Consistent(ring[..], dir)
      ensures old(createHead) < createHead <= old(createHead) + size
      ensures FirstFree(old(ring[..]), old(createHead), createHead - old(createHead) - 1, slot)
      ensures ok <==> (memory || old(ring[..])[slot].present) && room
      ensures dir == if ok then old(dir)[id := slot] else old(dir)
      ensures ring[..] == old(ring[..])[slot := ring[slot]]
      ensures if ok then ring[slot] == NewFrame(id) else ring[slot].page == 0
      ensures (Now(), ok, slot) == AfterCreate(old(Now()), id, memory, room)
    {
      hide Consistent;
      slot := NextFree();
      FreeTurnIs(ring[..], old(createHead), 0, createHead - old(createHead) - 1);
      NewPageFits(ring[..], dir, slot, id);
      ghost var before := ring[..];
      var f := ring[slot];
      ok := f.present || memory;
      if ok {
        f := NewFrame(id);
        if room {
          dir := dir[id := slot];
        } else {
          f := f.(page := 0);
          ok := false;
        }
        ring[slot] := f;
      }
      assert ring[..] == before[slot := f];
      assert before[slot := before[slot]] == before;
    }

    /** The loop on lines 254-262. */
    method NextFree() returns (slot: nat)
      requires ring.Length == size > |dir| && Consistent(ring[..], dir)
      modifies `createHead
      ensures old(createHead) < createHead <= old(createHead) + size
      ensures FirstFree(ring[..], old(createHead), createHead - old(createHead) - 1, slot)
    {
      ghost var free := FreeSlot(ring[..], dir);
      hide Consistent;
      slot := createHead % size;
      createHead := createHead + 1;
      while ring[slot].page != 0
        invariant old(createHead) < createHead <= old(createHead) + Turn(size, old(createHead), free) + 1
        invariant slot == Visited(size, old(createHead), createHead - old(createHead) - 1)
        invariant forall m: nat :: m < createHead - old(createHead) - 1 ==>
                  ring[..][Visited(size, old(createHead), m)].page != 0
        decreases old(createHead) + Turn(size, old(createHead), free) + 1 - createHead
      {
        slot := createHead % size;
        createHead := createHead + 1;
      }
    }

    /** The slot that a new page would get: the first free one from the create head on,
        after the eviction that a full ring calls for. */
    ghost function SlotAhead(): (i: nat)
      requires Valid()
      reads this, ring
      ensures i < size
    {
      FirstFreeSlot(Spared(ring[..], dir, evictHead), createHead)
    }

    /** `pager_fix`, for a page whose latch is to be had: a lone thread would wait for
        ever. `memory` and `room` are as in `Create`. */
    method Fix(id: PageId, exclusive: bool, memory: bool, room: bool) returns (r: Result)
      requires Valid() && (id in dir ==> Takeable(ring[dir[id]].word, exclusive))
      modifies `dir, `count, `evictHead, `createHead, ring
      ensures Valid()
      ensures r == Invalid <==> id == 0
      ensures id in old(dir) ==> r == Fixed(old(dir)[id]) && dir == old(dir)
      ensures id !in old(dir) && id != 0 ==>
                (r == NoMem
                 <==> Crowded(old(ring[..]), old(dir)) || !old(Allocates(ring[..], SlotAhead(), memory, room)))
      ensures id !in old(dir) && r.Fixed? ==> r.slot == old(SlotAhead())
      ensures id !in old(dir) && id != 0 && Crowded(old(ring[..]), old(dir)) ==> r == NoMem && dir == old(dir)
      ensures id in old(dir) ==>
                old(dir)[id] < size
                && ring[..] == old(ring[..])[dir[id] := Locked(old(ring[..])[dir[id]], exclusive)]
      ensures r.Fixed? ==> r.slot < size && id in dir && dir[id] == r.slot
      ensures r.Fixed? ==> Latched(old(ring[..]), ring[..], r.slot, id, exclusive)
      ensures Kept(old(ring[..]), old(dir), ring[..], dir, id)
      ensures (Now(), r) == AfterFix(old(Now()), id, exclusive, memory, room)
      ensures r.Fixed? ==> FrameFixed(old(ring[..])[r.slot], ring[r.slot], id, exclusive)
      ensures id in old(dir) || id == 0 ==> evictHead == old(evictHead) && createHead == old(createHead)
      ensures |old(dir)| < size - 1 ==> OneFrame(old(Now()), Now(), r, id)
    {
      hide Consistent, Kept, Crowded, Latched, Locked, Takeable, AfterReserve, AfterCreate;
      ghost var before := ring[..];
      PageIsThere(before, dir, id);
      if id == 0 {
        Unchanged(before, dir, id);
        return Invalid;
      }
      if id in dir {
        r := Fixed(dir[id]);
        LockedKeeps(before, dir, dir[id], exclusive);
        Lock(dir[id], exclusive);
      } else {
        r := FixNew(id, exclusive, memory, room);
      }
      FixedFrame(old(Now()), id, exclusive, memory, room);
    }

    /** The reservation, lines 386-396. */
    method Reserve() returns (ok: bool)
      requires Valid()
      modifies `dir, `count, `evictHead, ring
      ensures Consistent(ring[..], dir) && |dir| < size == ring.Length
      ensures if ok then count == |dir| + 1 < size else count == |dir| && dir == old(dir)
      ensures ok <==> !Crowded(old(ring[..]), old(dir))
      ensures Kept(old(ring[..]), old(dir), ring[..], dir, 0)
      ensures ok ==> SamePages(Spared(old(ring[..]), old(dir), old(evictHead)), ring[..])
      ensures (Now(), ok) == AfterReserve(old(Now()))
    {
      hide Consistent, Kept, AgedBy, EvictedAt, TakeTurn, AfterEvict;
      ghost var before, dir0, head := ring[..], dir, evictHead;
      if count >= size - 1 {
        ok := Evict();
        if ok {
          EvictKeeps(before, dir0, head, evictHead - head - 1, ring[..], dir);
        } else {
          AgedKeeps(before, dir, head, 2 * size, ring[..]);
        }
      } else {
        Unchanged(before, dir, 0);
        count := count + 1;
        ok := true;
      }
    }

    method FixNew(id: PageId, exclusive: bool, memory: bool, room: bool) returns (r: Result)
      requires Valid() && id != 0 && id !in dir
      modifies `dir, `count, `evictHead, `createHead, ring
      ensures Valid() && r != Invalid
      ensures r == NoMem
              <==> Crowded(old(ring[..]), old(dir)) || !old(Allocates(ring[..], SlotAhead(), memory, room))
      ensures r.Fixed? ==> r.slot == old(SlotAhead())
      ensures Crowded(old(ring[..]), old(dir)) ==> r == NoMem && dir == old(dir)
      ensures r.Fixed? ==> r.slot < size && id in dir && dir[id] == r.slot
      ensures r.Fixed? ==> Latched(old(ring[..]), ring[..], r.slot, id, exclusive)
      ensures Kept(old(ring[..]), old(dir), ring[..], dir, id)
      ensures (Now(), r) == AfterNew(old(Now()), id, exclusive, memory, room)
    {
      hide Consistent, Kept, Crowded, Latched, Locked, AfterReserve, AfterCreate, Spared, FirstFreeSlot, SamePages;
      ghost var before, dir0, spared, head := ring[..], dir, Spared(ring[..], dir, evictHead), createHead;
      SparedHeaders(before, dir, evictHead);
      var ok := Reserve();
      ghost var middle, dir1 := ring[..], dir;
      StillAbsent(before, dir0, middle, dir1, id);
      if !ok {
        return NoMem;
      }
      var slot;
      ok, slot := Create(id, memory, room);
      CreatedKeeps(before, dir0, middle, dir1, slot, ring[..], dir, id, ok, exclusive);
      FirstFreeIs(spared, middle, head, createHead - head - 1, slot);
      if ok {
        Lock(slot, exclusive);
        r := Fixed(slot);
      } else {
        count := count - 1;
        r := NoMem;
      }
    }

    /** `latch_acquire` and the mark. */
    method Lock(slot: nat, exclusive: bool)
      requires slot < size == ring.Length && Consistent(ring[..], dir)
      requires ring[slot].page != 0 && Takeable(ring[slot].word, exclusive)
      modifies ring
      ensures Consistent(ring[..], dir)
      ensures ring[..] == old(ring[..])[slot := Locked(old(ring[slot]), exclusive)]
    {
      var f := ring[slot];
      ring[slot] := Locked(f, exclusive);
    }

    /** `pager_unfix` of a page that is fixed: releases in the mode of the fix. */
    method Unfix(slot: nat)
      requires Valid() && slot < size && ring[slot].page != 0 && ring[slot].word != 0
      modifies ring
      ensures Valid()
      ensures ring[..] == old(ring[..])[slot := Unlocked(old(ring[slot]), old(ring[slot].word) == -1)]
      ensures FrameUnfixed(old(ring[slot]), ring[slot])
      ensures Now() == AfterUnfix(old(Now()), slot)
    {
      var f := ring[slot];
      if f.exclusive {
        ring[slot] := f.(dirty := true, ref := true, exclusive := false, word := Released(f.word, true));
      } else {
        ring[slot] := f.(ref := true, word := Released(f.word, false));
      }
    }
  }

  function Locked(f: Frame, exclusive: bool): Frame {
    f.(word := Taken(f.word, exclusive), exclusive := f.exclusive || exclusive)
  }

  function NewFrame(id: PageId): Frame {
    Frame(id, true, id, 0, false, false, false)
  }

  ghost function AgedRing(ring: Ring, head: nat, n: nat): (r: Ring)
    ensures |r| == |ring|
  {
    seq(|ring|, j requires 0 <= j < |ring| => Aged(ring, head, n, j))
  }

  /** `pager_evict`, and whether it takes a page. */
  ghost function AfterEvict(v: View): (r: (View, bool))
    requires |v.ring| > 0
    ensures |r.0.ring| == |v.ring|
  {
    var n := TakeTurn(v.ring, v.evictHead, 0);
    if n == 2 * |v.ring| then (v.(evictHead := v.evictHead + n), false)
    else
      var j, aged := Visited(|v.ring|, v.evictHead, n), AgedRing(v.ring, v.evictHead, n);
      (v.(ring := aged[j := aged[j].(page := 0)], dir := v.dir - {v.ring[j].page}, evictHead := v.evictHead + n + 1),
       true)
  }

  ghost function AfterReserve(v: View): (r: (View, bool))
    requires |v.ring| > 0
    ensures |r.0.ring| == |v.ring|
  {
    if v.count >= |v.ring| - 1 then AfterEvict(v) else (v.(count := v.count + 1), true)
  }

  /** `pager_create`, whether it makes the page, and the slot that it looks at last. */
  function AfterCreate(v: View, id: PageId, memory: bool, room: bool): (r: (View, bool, nat))
    requires |v.ring| > 0
    ensures |r.0.ring| == |v.ring| && r.2 < |v.ring|
  {
    var n := FreeTurn(v.ring, v.createHead, 0);
    var slot := Visited(|v.ring|, v.createHead, n);
    var made := memory || v.ring[slot].present;
    var f := if made && room then NewFrame(id) else if made then NewFrame(id).(page := 0) else v.ring[slot];
    (v.(ring := v.ring[slot := f], dir := if made && room then v.dir[id := slot] else v.dir,
        createHead := v.createHead + n + 1), made && room, slot)
  }

  /** `pager_fix` of a page that is not there. */
  ghost function AfterNew(v: View, id: PageId, exclusive: bool, memory: bool, room: bool): (r: (View, Result))
    requires |v.ring| > 0
    ensures |r.0.ring| == |v.ring|
  {
    var (w, spared) := AfterReserve(v);
    if !spared then (w, NoMem)
    else
      var (u, ok, slot) := AfterCreate(w, id, memory, room);
      if ok then (u.(ring := u.ring[slot := Locked(u.ring[slot], exclusive)]), Fixed(slot))
      else (u.(count := if u.count > 0 then u.count - 1 else 0), NoMem)
  }

  /** `pager_fix`, one call from begin to end. */
  ghost function AfterFix(v: View, id: PageId, exclusive: bool, memory: bool, room: bool): (r: (View, Result))
    requires |v.ring| > 0
  {
    if id == 0 then (v, Invalid)
    else if id in v.dir && v.dir[id] < |v.ring| then
      (v.(ring := v.ring[v.dir[id] := Locked(v.ring[v.dir[id]], exclusive)]), Fixed(v.dir[id]))
    else AfterNew(v, id, exclusive, memory, room)
  }

  function Unlocked(f: Frame, exclusive: bool): Frame {
    f.(word := Released(f.word, exclusive), ref := true, exclusive := f.exclusive && !exclusive,
       dirty := f.dirty || exclusive)
  }

  lemma FixedFrame(v: View, id: PageId, exclusive: bool, memory: bool, room: bool)
    requires |v.ring| > 0 && Consistent(v.ring, v.dir)
    requires id in v.dir && v.dir[id] < |v.ring| ==> Takeable(v.ring[v.dir[id]].word, exclusive)
    requires v.count == |v.dir| < |v.ring|
    ensures var (w, r) := AfterFix(v, id, exclusive, memory, room);
            && (r.Fixed? ==> r.slot < |v.ring| && FrameFixed(v.ring[r.slot], w.ring[r.slot], id, exclusive))
            && (id in v.dir || id == 0 ==> w.evictHead == v.evictHead && w.createHead == v.createHead)
            && (|v.dir| < |v.ring| - 1 ==> OneFrame(v, w, r, id))
  {
    hide FreeTurn, TakeTurn;
    FreeFound(v.ring, v.dir, v.createHead);
  }

  /** With fewer pages than slots, the search for a free one ends at one. */
  lemma FreeFound(ring: Ring, dir: map<PageId, nat>, head: nat)
    requires Consistent(ring, dir) && |dir| < |ring|
    ensures FreeTurn(ring, head, 0) < |ring| && ring[FirstFreeSlot(ring, head)].page == 0
  {
    var i := FreeSlot(ring, dir);
    FreeTurnFinds(ring, head, 0, Turn(|ring|, head, i));
  }

  lemma {:induction false} FreeTurnFinds(ring: Ring, head: nat, n: nat, t: nat)
    requires 0 < |ring| && n <= t < |ring| && ring[Visited(|ring|, head, t)].page == 0
    ensures FreeTurn(ring, head, n) <= t && ring[Visited(|ring|, head, FreeTurn(ring, head, n))].page == 0
    ensures forall m :: n <= m < FreeTurn(ring, head, n) ==> ring[Visited(|ring|, head, m)].page != 0
    decreases t - n
  {
    if ring[Visited(|ring|, head, n)].page != 0 {
      FreeTurnFinds(ring, head, n + 1, t);
    }
  }

  /** `pager_unfix`. */
  function AfterUnfix(v: View, slot: nat): View
    requires slot < |v.ring|
  {
    v.(ring := v.ring[slot := Unlocked(v.ring[slot], v.ring[slot].exclusive)])
  }

  /** What a fix leaves in the slot: a page that was there has one more reader, or a
      writer and the mark, and nothing else changed; a new one starts clean. */
  predicate FrameFixed(f: Frame, g: Frame, id: PageId, exclusive: bool) {
    && g.page == g.id == id && g.present && g.exclusive == exclusive
    && (f.page == id ==> g.dirty == f.dirty && g.ref == f.ref && g.word == if exclusive then -1 else f.word + 1)
    && (f.page != id ==> !g.dirty && !g.ref && g.word == if exclusive then -1 else 1)
  }

  /** What an unfix leaves: the page was used, and was written to if it was fixed
      exclusively. */
  predicate FrameUnfixed(f: Frame, g: Frame) {
    && g.page == f.page && g.id == f.id && g.present == f.present && g.ref && !g.exclusive
    && (f.word == -1 ==> g.word == 0 && g.dirty)
    && (f.word != -1 ==> g.word == f.word - 1 && g.dirty == f.dirty)
  }

  /** Below the capacity, a fix touches one frame; it counts one page if it makes one,
      and looks at no slot for eviction. */
  ghost predicate OneFrame(v: View, w: View, r: Result, id: PageId) {
    && |w.ring| == |v.ring| && w.evictHead == v.evictHead
    && (r.Fixed? ==> r.slot < |v.ring| && w.ring == v.ring[r.slot := w.ring[r.slot]] && w.dir == v.dir[id := r.slot])
    && (r.Fixed? ==> w.count == if id in v.dir then v.count else v.count + 1)
    && (!r.Fixed? ==> w.dir == v.dir && w.count == v.count
                      && forall i :: 0 <= i < |v.ring| ==> w.ring[i].page == v.ring[i].page
                                                           && (v.ring[i].present ==> w.ring[i].present))
  }

  /** There is no place for another page: the ring is as full as it gets, and every
      page is latched. */
  ghost predicate Crowded(ring: Ring, dir: map<PageId, nat>) {
    |dir| >= |ring| - 1 && forall j :: 0 <= j < |ring| ==> !Idle(ring[j])
  }

  /** The same pages and headers. */
  predicate SamePages(before: Ring, after: Ring) {
    && |after| == |before|
    && forall j :: 0 <= j < |before| ==> after[j].page == before[j].page && after[j].present == before[j].present
  }

  /** The first visit from the n-th on that takes a page, or two rounds. */
  function TakeTurn(ring: Ring, head: nat, n: nat): (t: nat)
    requires 0 < |ring| && n <= 2 * |ring|
    ensures n <= t <= 2 * |ring|
    decreases 2 * |ring| - n
  {
    if n == 2 * |ring| || TakenAt(ring, head, n) then n else TakeTurn(ring, head, n + 1)
  }

  /** The ring after the reservation for one more page, but for reference bits. */
  function Spared(ring: Ring, dir: map<PageId, nat>, head: nat): (r: Ring)
    requires |ring| > 0
    ensures |r| == |ring|
  {
    var n := TakeTurn(ring, head, 0);
    var j := Visited(|ring|, head, n);
    if |dir| < |ring| - 1 || n == 2 * |ring| then ring else ring[j := ring[j].(page := 0)]
  }

  lemma SparedHeaders(ring: Ring, dir: map<PageId, nat>, head: nat)
    requires |ring| > 0
    ensures forall j :: 0 <= j < |ring| ==> Spared(ring, dir, head)[j].present == ring[j].present
  {
    hide TakeTurn;
  }

  /** The first visit from the n-th on that finds a free slot, or a round. */
  function FreeTurn(ring: Ring, head: nat, n: nat): (t: nat)
    requires 0 < |ring| && n <= |ring|
    ensures n <= t <= |ring|
    decreases |ring| - n
  {
    if n == |ring| || ring[Visited(|ring|, head, n)].page == 0 then n else FreeTurn(ring, head, n + 1)
  }

  function FirstFreeSlot(ring: Ring, head: nat): (i: nat)
    requires |ring| > 0
    ensures i < |ring|
  {
    Visited(|ring|, head, FreeTurn(ring, head, 0))
  }

  lemma {:induction false} TakeTurnIs(ring: Ring, head: nat, n: nat, t: nat)
    requires 0 < |ring| && n <= t < 2 * |ring| && TakenAt(ring, head, t)
    requires forall m :: n <= m < t ==> !TakenAt(ring, head, m)
    ensures TakeTurn(ring, head, n) == t
    decreases t - n
  {
    if n < t {
      TakeTurnIs(ring, head, n + 1, t);
    }
  }

  lemma {:induction false} FreeTurnIs(ring: Ring, head: nat, n: nat, t: nat)
    requires 0 < |ring| && n <= t < |ring| && ring[Visited(|ring|, head, t)].page == 0
    requires forall m :: n <= m < t ==> ring[Visited(|ring|, head, m)].page != 0
    ensures FreeTurn(ring, head, n) == t
    decreases t - n
  {
    if n < t {
      FreeTurnIs(ring, head, n + 1, t);
    }
  }

  lemma {:induction false} TakeTurnNone(ring: Ring, head: nat, n: nat)
    requires 0 < |ring| && n <= 2 * |ring| && NotTakenBefore(ring, head, 2 * |ring|)
    ensures TakeTurn(ring, head, n) == 2 * |ring|
    decreases 2 * |ring| - n
  {
    if n < 2 * |ring| {
      TakeTurnNone(ring, head, n + 1);
    }
  }

  lemma EvictedIs(v: View, n: nat, w: View)
    requires EvictedAt(v.ring, v.dir, v.evictHead, n, w.ring, w.dir)
    requires w == v.(ring := w.ring, dir := w.dir, evictHead := v.evictHead + n + 1)
    ensures (w, true) == AfterEvict(v)
  {
    hide Aged, TakenAt, Visited;
    TakeTurnIs(v.ring, v.evictHead, 0, n);
    assert w.ring == AfterEvict(v).0.ring;
  }

  lemma NotEvictedIs(v: View, w: View)
    requires |v.ring| > 0 && NotTakenBefore(v.ring, v.evictHead, 2 * |v.ring|)
    requires AgedBy(v.ring, v.evictHead, 2 * |v.ring|, w.ring)
    requires w == v.(ring := w.ring, evictHead := v.evictHead + 2 * |v.ring|)
    ensures (w, false) == AfterEvict(v)
  {
    TakeTurnNone(v.ring, v.evictHead, 0);
    NoneTaken(v.ring, v.evictHead);
    assert w.ring == v.ring;
  }

  lemma FirstFreeIs(spared: Ring, ring: Ring, head: nat, n: int, slot: nat)
    requires |ring| > 0 && SamePages(spared, ring) && FirstFree(ring, head, n, slot)
    ensures FirstFreeSlot(spared, head) == slot && spared[slot].present == ring[slot].present
  {
    hide Visited;
    forall m: nat | m < n ensures spared[Visited(|ring|, head, m)].page != 0 {
      assert ring[Visited(|ring|, head, m)].page != 0;
    }
    FreeTurnIs(spared, head, 0, n);
  }

  /** There is memory for what the creation of a page in this slot needs. */
  predicate Allocates(ring: Ring, slot: nat, memory: bool, room: bool)
    requires slot < |ring|
  {
    room && (memory || ring[slot].present)
  }

  ghost predicate FirstFree(ring: Ring, head: nat, n: int, slot: nat)
    requires |ring| > 0
  {
    && 0 <= n < |ring| && slot == Visited(|ring|, head, n) && ring[slot].page == 0
    && forall m: nat :: m < n ==> ring[Visited(|ring|, head, m)].page != 0
  }

  /** The slot now holds the page with one more reader, or with a writer. */
  ghost predicate Latched(before: Ring, after: Ring, slot: nat, id: PageId, exclusive: bool) {
    && slot < |before| == |after| && after[slot].page == id == after[slot].id
    && after[slot].word == Taken(if before[slot].page == id then before[slot].word else 0, exclusive)
    && after[slot].exclusive == exclusive
  }

  /** Latched pages other than the one that is fixed stay as they were. At most one
      page goes: an idle one, and only if the ring was full. */
  ghost predicate Kept(before: Ring, dir: map<PageId, nat>, after: Ring, dir': map<PageId, nat>, id: PageId) {
    && |after| == |before|
    && (forall j :: 0 <= j < |before| && before[j].page != 0 && before[j].page != id && before[j].word != 0 ==>
              after[j] == before[j])
    && (forall j :: 0 <= j < |before| && before[j].page != 0 && before[j].page != id && before[j].page in dir' ==>
                      after[j].(ref := before[j].ref) == before[j])
    && (forall p :: p in dir && p in dir' ==> dir'[p] == dir[p])
    && (forall p :: p in dir' && p != id ==> p in dir)
    && (forall p, q :: p in dir && p !in dir' && q in dir && q !in dir' ==> p == q)
    && (forall p :: p in dir && p !in dir' ==> |dir| == |before| - 1 && dir[p] < |before| && Idle(before[dir[p]]))
  }

  /** After n visits that took nothing. */
  ghost predicate AgedBy(before: Ring, head: nat, n: nat, after: Ring) {
    |after| == |before| > 0 && forall j :: 0 <= j < |before| ==> after[j] == Aged(before, head, n, j)
  }

  /** Visit n was the first to take a page, and nothing else but reference bits of
      visited pages changed. */
  ghost predicate EvictedAt(before: Ring, dir: map<PageId, nat>, head: nat, n: int,
                            after: Ring, dir': map<PageId, nat>)
  {
    && |before| > 0 && 0 <= n < 2 * |before| && TakenAt(before, head, n) && NotTakenBefore(before, head, n)
    && var j := Visited(|before|, head, n);
       && |after| == |before| && after[j] == Aged(before, head, n, j).(page := 0)
       && (forall k :: 0 <= k < |before| && k != j ==> after[k] == Aged(before, head, n, k))
       && dir' == dir - {before[j].page}
  }

  /** One more visit that takes nothing. */
  lemma AgeOne(before: Ring, head: nat, n: nat, ring: Ring)
    requires AgedBy(before, head, n, ring)
    ensures var j := Visited(|before|, head, n);
            AgedBy(before, head, n + 1, if Idle(before[j]) then ring[j := ring[j].(ref := false)] else ring)
  {
    forall k | 0 <= k < |before|
      ensures WasVisited(|before|, head, n + 1, k)
              <==> WasVisited(|before|, head, n, k) || k == Visited(|before|, head, n)
    {
      if WasVisited(|before|, head, n, k) {
        var m: nat :| m < n && Visited(|before|, head, m) == k;
        assert m < n + 1 && Visited(|before|, head, m) == k;
      }
    }
  }

  lemma NoVisit(ring: Ring, head: nat)
    requires |ring| > 0
    ensures AgedBy(ring, head, 0, ring) && NotTakenBefore(ring, head, 0)
  {
  }

  lemma NoneTaken(ring: Ring, head: nat)
    requires |ring| > 0 && NotTakenBefore(ring, head, 2 * |ring|)
    ensures !exists j :: 0 <= j < |ring| && Idle(ring[j])
  {
    TwoRoundsDecide(ring, head);
  }

  /** What visit n sees, and what it leaves behind. */
  lemma Visit(before: Ring, dir: map<PageId, nat>, head: nat, n: nat, ring: Ring)
    requires AgedBy(before, head, n, ring) && n < 2 * |before| && NotTakenBefore(before, head, n)
    ensures var j := Visited(|before|, head, n); var f := ring[j];
            && (Idle(f) && !f.ref ==>
                  EvictedAt(before, dir, head, n, ring[j := f.(page := 0)], dir - {f.page}) && Idle(before[j]))
            && (!Idle(f) || f.ref ==>
                  && NotTakenBefore(before, head, n + 1)
                  && AgedBy(before, head, n + 1, if Idle(f) then ring[j := f.(ref := false)] else ring))
    ensures |ring| == |before|
  {
    hide Visited, WasVisited;
    SeenAt(before, head, n);
    AgeOne(before, head, n, ring);
  }

  /** A page whose reference bit was set goes only in the second round, after the first
      has cleared the bit; and if that round is needed, every page that could go had
      its bit set, and has lost it now. */
  lemma SecondChance(before: Ring, dir: map<PageId, nat>, head: nat, n: int, after: Ring, dir': map<PageId, nat>)
    requires EvictedAt(before, dir, head, n, after, dir')
    ensures var size := |before|; var j := Visited(size, head, n);
            && (before[j].ref ==> n >= size && Visited(size, head, n - size) == j)
            && (n >= size ==> forall k :: 0 <= k < size && Idle(before[k]) ==> before[k].ref && !after[k].ref)
  {
    var size := |before|;
    if n >= size {
      SecondRound(before, head, n);
      forall k | 0 <= k < size && Idle(before[k]) ensures before[k].ref && !after[k].ref {
        assert !TakenAt(before, head, Turn(size, head, k));
      }
    }
  }

  /** The order of eviction: the first idle page from the head on whose bit is clear, and
      if every idle page has its bit, the first idle page. */
  lemma ClockOrder(before: Ring, dir: map<PageId, nat>, head: nat, n: int, after: Ring, dir': map<PageId, nat>)
    requires EvictedAt(before, dir, head, n, after, dir')
    ensures var size := |before|; var j := Visited(size, head, n);
            && before[j].page != 0 && before[j].word == 0 && after[j].page == 0 && dir' == dir - {before[j].page}
            && (n < size ==> !before[j].ref)
            && (forall m: nat :: m < n && m < size ==>
                                   var f := before[Visited(size, head, m)]; f.page == 0 || f.word != 0 || f.ref)
            && (n >= size ==> Visited(size, head, n - size) == j)
            && (forall m: nat :: m < n - size ==> var f := before[Visited(size, head, m)]; f.page == 0 || f.word != 0)
    ensures forall k :: 0 <= k < |before| && before[k].page != 0 && before[k].word == 0 && !before[k].ref ==>
                          n < |before|
  {
    var size := |before|;
    if n >= size {
      SecondRound(before, head, n);
      forall m: nat | m < n - size ensures !Idle(before[Visited(size, head, m)]) {
        assert !TakenAt(before, head, m + size);
        VisitedIs(size, head, m);
        VisitedIs(size, head, m + size);
      }
      SecondChance(before, dir, head, n, after, dir');
    }
    forall m: nat | m < n && m < size ensures var f := before[Visited(size, head, m)]; !Idle(f) || f.ref {
      assert !TakenAt(before, head, m);
    }
  }

  /** A page that was used since the clock came by stays if there is an idle one that
      was not. */
  lemma UsedPageStays(before: Ring, dir: map<PageId, nat>, head: nat, n: int, after: Ring, dir': map<PageId, nat>,
                      j: nat, k: nat)
    requires Mapped(before, dir) && EvictedAt(before, dir, head, n, after, dir') && j < |before| && k < |before|
    requires before[j].page != 0 && before[j].ref && Idle(before[k]) && !before[k].ref
    ensures after[j].page == before[j].page && before[j].page in dir' && dir'[before[j].page] == j
  {
    SecondChance(before, dir, head, n, after, dir');
    var i := Visited(|before|, head, n);
    assert i != j;
  }

  /** That is so for the page that was unfixed last. */
  method UnfixThenEvict(p: Pager, slot: nat, other: nat) returns (ok: bool)
    requires p.Valid() && slot < p.size && p.ring[slot].page != 0 && p.ring[slot].word != 0
    requires other < p.size && other != slot && Idle(p.ring[other]) && !p.ring[other].ref
    modifies p`dir, p`evictHead, p.ring
    ensures ok && p.ring.Length == p.size && p.ring[slot].page == old(p.ring[slot].page)
    ensures old(p.ring[slot].page) in p.dir && p.dir[old(p.ring[slot].page)] == slot
  {
    hide EvictedAt, TakeTurn, AfterEvict, AfterUnfix;
    p.Unfix(slot);
    ghost var before, dir, head := p.ring[..], p.dir, p.evictHead;
    ok := p.Evict();
    UsedPageStays(before, dir, head, p.evictHead - head - 1, p.ring[..], p.dir, slot, other);
  }

  lemma PageIsThere(ring: Ring, dir: map<PageId, nat>, id: PageId)
    requires Consistent(ring, dir)
    ensures id in dir ==> dir[id] < |ring| && ring[dir[id]].page == id == ring[dir[id]].id && id != 0
  {
  }

  lemma AgedKeeps(before: Ring, dir: map<PageId, nat>, head: nat, n: nat, after: Ring)
    requires Consistent(before, dir) && AgedBy(before, head, n, after)
    ensures Consistent(after, dir) && Kept(before, dir, after, dir, 0)
  {
  }

  lemma EvictKeeps(before: Ring, dir: map<PageId, nat>, head: nat, n: int, after: Ring, dir': map<PageId, nat>)
    requires Consistent(before, dir) && EvictedAt(before, dir, head, n, after, dir')
    ensures Consistent(after, dir') && |dir'| == |dir| - 1
    ensures |dir| == |before| - 1 ==> Kept(before, dir, after, dir', 0) && SamePages(Spared(before, dir, head), after)
  {
    hide Aged, Visited;
    TakeTurnIs(before, head, 0, n);
    var j := Visited(|before|, head, n);
    AgedFrame(before, head, n);
    var p := before[j].page;
    assert p in dir && dir[p] == j;
    assert dir'.Keys == dir.Keys - {p};
    RemoveKeeps(before, dir, j, after);
  }

  /** Ageing touches the reference bit alone. */
  lemma AgedFrame(ring: Ring, head: nat, n: nat)
    ensures forall k :: 0 <= k < |ring| ==>
              && Aged(ring, head, n, k).(ref := ring[k].ref) == ring[k]
              && (!Idle(ring[k]) ==> Aged(ring, head, n, k) == ring[k])
  {
  }

  lemma RemoveKeeps(before: Ring, dir: map<PageId, nat>, j: nat, after: Ring)
    requires Consistent(before, dir) && j < |before| == |after| && Idle(before[j])
    requires after[j].(ref := before[j].ref) == before[j].(page := 0)
    requires forall k :: 0 <= k < |before| && k != j ==> after[k].(ref := before[k].ref) == before[k]
    requires forall k :: 0 <= k < |before| && !Idle(before[k]) ==> after[k] == before[k]
    ensures Consistent(after, dir - {before[j].page}) && SamePages(before[j := before[j].(page := 0)], after)
    ensures |dir| == |before| - 1 ==> Kept(before, dir, after, dir - {before[j].page}, 0)
  {
    forall k | 0 <= k < |before| && k != j ensures after[k].page == before[k].page && HeaderOk(after[k]) {
      assert HeaderOk(before[k]);
    }
    assert HeaderOk(before[j]);
  }

  lemma Unchanged(ring: Ring, dir: map<PageId, nat>, id: PageId)
    ensures Kept(ring, dir, ring, dir, id)
  {
  }

  lemma StillAbsent(before: Ring, dir: map<PageId, nat>, after: Ring, dir': map<PageId, nat>, id: PageId)
    requires Kept(before, dir, after, dir', 0) && Consistent(after, dir') && id != 0 && id !in dir
    ensures id !in dir' && Kept(before, dir, after, dir', id)
  {
  }

  lemma LockedKeeps(ring: Ring, dir: map<PageId, nat>, slot: nat, exclusive: bool)
    requires Consistent(ring, dir) && slot < |ring| && ring[slot].page != 0 && Takeable(ring[slot].word, exclusive)
    ensures var after := ring[slot := Locked(ring[slot], exclusive)];
            && Kept(ring, dir, after, dir, ring[slot].page) && Latched(ring, after, slot, ring[slot].page, exclusive)
  {
  }

  lemma CreatedKeeps(before: Ring, dir: map<PageId, nat>, middle: Ring, dir1: map<PageId, nat>, slot: nat,
                     after: Ring, dir2: map<PageId, nat>, id: PageId, ok: bool, exclusive: bool)
    requires Consistent(before, dir) && Kept(before, dir, middle, dir1, id) && slot < |middle| == |after|
    requires middle[slot].page == 0 && after == middle[slot := after[slot]] && id != 0 && id !in dir && id !in dir1
    requires dir2 == if ok then dir1[id := slot] else dir1
    requires ok ==> after[slot] == Frame(id, true, id, 0, false, false, false)
    ensures !ok ==> Kept(before, dir, after, dir2, id)
    ensures ok ==> Takeable(after[slot].word, exclusive) && after[slot].page != 0
    ensures ok ==> var locked := after[slot := Locked(after[slot], exclusive)];
                   Kept(before, dir, locked, dir2, id) && Latched(before, locked, slot, id, exclusive)
  {
  }

  lemma NewPageFits(ring: Ring, dir: map<PageId, nat>, slot: nat, id: PageId)
    requires Consistent(ring, dir) && slot < |ring| && ring[slot].page == 0 && id != 0 && id !in dir
    ensures var f := Frame(id, true, id, 0, false, false, false);
            && Consistent(ring[slot := f], dir[id := slot])
            && Consistent(ring[slot := f.(page := 0)], dir)
  {
  }

  /** The pages of the first n slots, all occupied, are n pages. */
  ghost function PagesOf(ring: Ring, dir: map<PageId, nat>, n: nat): (r: set<PageId>)
    requires n <= |ring| && Mapped(ring, dir) && forall i :: 0 <= i < n ==> ring[i].page != 0
    ensures |r| == n && r <= dir.Keys && forall p :: p in r ==> dir[p] < n
  {
    if n == 0 then {} else PagesOf(ring, dir, n - 1) + {ring[n - 1].page}
  }

  /** There is a free slot if there are fewer pages than slots. */
  ghost function FreeSlot(ring: Ring, dir: map<PageId, nat>): (i: nat)
    requires Consistent(ring, dir) && |dir| < |ring|
    ensures i < |ring| && ring[i].page == 0
  {
    FreeExists(ring, dir);
    var i :| 0 <= i < |ring| && ring[i].page == 0;
    i
  }

  lemma FreeExists(ring: Ring, dir: map<PageId, nat>)
    requires Mapped(ring, dir) && |dir| < |ring|
    ensures exists i :: 0 <= i < |ring| && ring[i].page == 0
  {
    if forall i :: 0 <= i < |ring| ==> ring[i].page != 0 {
      SubsetSize(PagesOf(ring, dir, |ring|), dir.Keys);
      assert false;
    }
  }

  // -------------------------------------------------------- below the capacity

  /** As long as there are fewer than size - 1 pages, none is evicted: a tree that takes
      no more pages than that finds all of them. */
  lemma BelowCapacity(before: Ring, dir: map<PageId, nat>, after: Ring, dir': map<PageId, nat>, id: PageId)
    requires Kept(before, dir, after, dir', id) && |dir| < |before| - 1
    ensures forall p :: p in dir ==> p in dir' && dir'[p] == dir[p]
    ensures id in dir' && id !in dir ==> dir'.Keys == dir.Keys + {id} && |dir'| == |dir| + 1
    ensures id in dir && 0 !in dir ==> dir'.Keys == dir.Keys
  {
    if id in dir' && id !in dir {
      assert dir'.Keys == dir.Keys + {id};
      assert |dir'.Keys| == |dir.Keys| + 1;
    }
  }

  ghost predicate AllLatched(ring: Ring) {
    forall j :: 0 <= j < |ring| && ring[j].page != 0 ==> ring[j].word != 0
  }

  lemma StaysLatched(before: Ring, dir: map<PageId, nat>, after: Ring, dir': map<PageId, nat>, slot: nat, id: PageId)
    requires Consistent(before, dir) && Consistent(after, dir') && Kept(before, dir, after, dir', id)
              && AllLatched(before)
    requires Latched(before, after, slot, id, false) && id in dir' && dir'[id] == slot && id !in dir
    ensures AllLatched(after)
  {
    forall j | 0 <= j < |after| && after[j].page != 0 ensures after[j].word != 0 {
      if j != slot {
        assert dir'[after[j].page] == j;
        assert before[dir[after[j].page]].page == after[j].page;
      } else {
        assert before[slot].page == id ==> id in dir;
      }
    }
  }

  /** One more page, below the capacity. */
  method FixOneMore(p: Pager, i: nat)
    requires p.Valid() && i >= 1 && i !in p.dir && |p.dir| < p.size - 1 && AllLatched(p.ring[..])
    modifies p`dir, p`count, p`evictHead, p`createHead, p.ring
    ensures p.Valid() && AllLatched(p.ring[..])
    ensures |p.dir| == |old(p.dir)| + 1 && forall id :: id in p.dir <==> id in old(p.dir) || id == i
  {
    hide Consistent, Kept, AllLatched, Latched;
    ghost var before, dir := p.ring[..], p.dir;
    var r := p.Fix(i, false, true, true);
    BelowCapacity(before, dir, p.ring[..], p.dir, i);
    StaysLatched(before, dir, p.ring[..], p.dir, r.slot, i);
    assert forall id :: id in p.dir <==> id in dir.Keys + {i};
  }

  // ------------------------------------------------------------- for the tree

  /** The pager holds the pages 1 to made, and just those in `latched` are fixed, all
      exclusively: what a tree has to do with it. */
  ghost predicate Serves(p: Pager, made: nat, latched: set<PageId>)
    reads p, p.ring
  {
    p.Valid() && Holds(p.ring[..], p.dir, made, latched)
  }

  ghost predicate Holds(ring: Ring, dir: map<PageId, nat>, made: nat, latched: set<PageId>) {
    && (forall id :: id in dir <==> 1 <= id <= made) && |dir| == made
    && forall id :: id in dir && dir[id] < |ring| ==> ring[dir[id]].word == if id in latched then -1 else 0
  }

  /** `pager_next` below the capacity, as `BTree.NextPage` has it. */
  method ServeNext(p: Pager, made: nat, ghost latched: set<PageId>) returns (r: Result)
    requires Serves(p, made, latched) && made < p.size - 1 && made + 1 !in latched
    modifies p`dir, p`count, p`evictHead, p`createHead, p.ring
    ensures r.Fixed? && Serves(p, made + 1, latched + {made + 1})
  {
    hide Consistent, Kept, Latched, Holds;
    ghost var before, dir := p.ring[..], p.dir;
    NotHeld(before, dir, made, latched);
    r := p.Fix(made + 1, true, true, true);
    HoldsNext(before, dir, p.ring[..], p.dir, r.slot, made, latched);
  }

  /** `pager_fix` of a page made before, as `BTree.Fix` has it. */
  method ServeFix(p: Pager, made: nat, id: PageId, ghost latched: set<PageId>) returns (r: Result)
    requires Serves(p, made, latched) && 1 <= id <= made && id !in latched
    modifies p`dir, p`count, p`evictHead, p`createHead, p.ring
    ensures r.Fixed? && Serves(p, made, latched + {id})
  {
    hide Consistent, Kept, Latched;
    ghost var before, dir := p.ring[..], p.dir;
    PageIsThere(before, dir, id);
    r := p.Fix(id, true, true, true);
    WordsStay(before, dir, p.ring[..], p.dir, r.slot, id);
  }

  /** `pager_unfix`, as `BTree.Unfix` has it for a page that is fixed. */
  method ServeUnfix(p: Pager, made: nat, id: PageId, ghost latched: set<PageId>)
    requires Serves(p, made, latched) && 1 <= id <= made && id in latched
    modifies p.ring
    ensures Serves(p, made, latched - {id})
  {
    hide Consistent;
    PageIsThere(p.ring[..], p.dir, id);
    SlotsDiffer(p.ring[..], p.dir);
    p.Unfix(p.dir[id]);
  }

  lemma NotHeld(ring: Ring, dir: map<PageId, nat>, made: nat, latched: set<PageId>)
    requires Holds(ring, dir, made, latched)
    ensures made + 1 !in dir && |dir| == made
  {
  }

  lemma SlotOfAnother(before: Ring, dir: map<PageId, nat>, after: Ring, slot: nat, id: PageId)
    requires Consistent(before, dir) && Latched(before, after, slot, id, true) && id !in dir && id != 0
    ensures slot < |before| && before[slot].page != id
  {
  }

  lemma HoldsNext(before: Ring, dir: map<PageId, nat>, after: Ring, dir': map<PageId, nat>, slot: nat,
                  made: nat, latched: set<PageId>)
    requires Consistent(before, dir) && Consistent(after, dir') && Kept(before, dir, after, dir', made + 1)
    requires Holds(before, dir, made, latched) && made < |before| - 1 && |after| == |before|
    requires Latched(before, after, slot, made + 1, true) && made + 1 in dir' && dir'[made + 1] == slot
    ensures Holds(after, dir', made + 1, latched + {made + 1})
  {
    hide Kept, Consistent, Latched;
    var id := made + 1;
    BelowCapacity(before, dir, after, dir', id);
    SlotOfAnother(before, dir, after, slot, id);
    WordsStay(before, dir, after, dir', slot, id);
    assert forall q :: q in dir'.Keys <==> q in dir.Keys + {id};
  }

  lemma SlotsDiffer(ring: Ring, dir: map<PageId, nat>)
    requires Consistent(ring, dir)
    ensures forall a, b :: a in dir && b in dir && a != b ==> dir[a] != dir[b]
    ensures forall a :: a in dir ==> dir[a] < |ring|
  {
  }

  /** All pages but the one that was fixed keep their latch words. */
  lemma WordsStay(before: Ring, dir: map<PageId, nat>, after: Ring, dir': map<PageId, nat>, slot: nat, id: PageId)
    requires Consistent(before, dir) && Consistent(after, dir') && Kept(before, dir, after, dir', id)
    requires Latched(before, after, slot, id, true) && id in dir' && dir'[id] == slot
    requires before[slot].page != id ==> id !in dir
    requires before[slot].page == id ==> before[slot].word == 0
    ensures forall q :: q in dir' && q != id ==>
                          && q in dir && dir'[q] == dir[q] < |before|
                          && after[dir[q]].word == before[dir[q]].word
    ensures after[slot].word == -1
  {
  }

  /** The run of src/pager.c:538-546: size - 1 pages can be fixed, and then no other. */
  method FillPager(size: nat) returns (p: Pager, r: Result)
    requires size >= 2
    ensures p.Valid() && p.size == size && r == NoMem
    ensures forall id :: id in p.dir <==> 1 <= id < size
  {
    hide Consistent, Kept, AllLatched, Latched, Crowded;
    p := new Pager(size);
    NothingLatched(p.ring[..]);
    var i := 1;
    while i <= size - 1
      invariant 1 <= i <= size && p.Valid() && p.size == size && fresh(p) && fresh(p.ring)
      invariant (forall id :: id in p.dir <==> 1 <= id < i) && |p.dir| == i - 1 && AllLatched(p.ring[..])
    {
      FixOneMore(p, i);
      i := i + 1;
    }
    LatchedIsCrowded(p.ring[..], p.dir);
    r := p.Fix(size, false, true, true);
  }

  lemma NothingLatched(ring: Ring)
    requires forall j :: 0 <= j < |ring| ==> ring[j].page == 0
    ensures AllLatched(ring)
  {
  }

  lemma LatchedIsCrowded(ring: Ring, dir: map<PageId, nat>)
    requires AllLatched(ring) && |dir| >= |ring| - 1
    ensures Crowded(ring, dir)
  {
  }
}
