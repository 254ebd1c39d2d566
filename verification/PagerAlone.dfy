/**
  A thread that no other one interferes with: its steps in `pager_fix` and `pager_unfix`
  do to the pager what `Clock.AfterFix` and `Clock.AfterUnfix` say, which are also the
  contracts of `Clock.Pager`. So what `Clock` proves of one call holds of such steps.
*/
module PagerAlone {
  import opened Common
  import opened LatchWord
  import opened Cells
  import opened PagerSteps
  import opened PagerInvariant
  import opened PagerRuns
  import Clock

  function FrameOf(slot: Slot): Clock.Frame {
    Clock.Frame(slot.page, slot.present, slot.id, slot.word, slot.flags.dirty, slot.flags.ref, slot.flags.exclusive)
  }

  function RingOf(slots: seq<Slot>): (r: Clock.Ring)
    ensures |r| == |slots| && forall i :: 0 <= i < |slots| ==> r[i] == FrameOf(slots[i])
  {
    seq(|slots|, i requires 0 <= i < |slots| => FrameOf(slots[i]))
  }

  /** The pager without its entry latches and threads. */
  function ViewOf(s: State): (v: Clock.View)
    requires s.count >= 0
    ensures |v.ring| == |s.slots|
  {
    Clock.View(RingOf(s.slots), s.dir, s.count, s.evictHead, s.createHead)
  }

  /** A call of `pager_fix`, and whether there is memory for a header and for the
      directory. */
  datatype Call = Call(id: PageId, exclusive: bool, memory: bool, room: bool)

  ghost function Result(v0: Clock.View, call: Call): (Clock.View, Clock.Result)
    requires |v0.ring| > 0
  {
    Clock.AfterFix(v0, call.id, call.exclusive, call.memory, call.room)
  }

  /** The memory is as the call has it, and no compare-and-swap fails. */
  predicate Fits(at: At, choice: Choice, call: Call) {
    && (at == CountTry || at == CreateClaim ==> !choice.fails)
    && (at == CreateAlloc ==> choice.fails == !call.memory)
    && (at == CreateInsert ==> choice.fails == !call.room)
  }

  // ------------------------------------------------------ how far the call has come

  /** n visits of the clock took nothing. */
  ghost predicate Scanned(v0: Clock.View, ring: Clock.Ring, n: nat) {
    && |v0.ring| > 0 && n <= 2 * |v0.ring|
    && Clock.AgedBy(v0.ring, v0.evictHead, n, ring) && Clock.NotTakenBefore(v0.ring, v0.evictHead, n)
  }

  /** In an eviction: after visit number `tries`, or in the middle of it. */
  ghost predicate AlongEvict(v0: Clock.View, v: Clock.View, pc: Pc) {
    && |v0.ring| == |v.ring| > 0 && pc.tries <= 2 * |v0.ring|
    && v.evictHead == v0.evictHead + pc.tries && v.count == v0.count && v.createHead == v0.createHead
    && if pc.at == EvictNext || pc.at == EvictSkip then v.dir == v0.dir && Scanned(v0, v.ring, pc.tries)
       else
         && pc.tries > 0 && Scanned(v0, v.ring, pc.tries - 1)
         && pc.slot == Clock.Visited(|v0.ring|, v0.evictHead, pc.tries - 1)
         && AtVisit(v0, v, pc, v.ring[pc.slot])
  }

  ghost predicate AtVisit(v0: Clock.View, v: Clock.View, pc: Pc, f: Clock.Frame) {
    && pc.at != EvictBack
    && v.dir == (if pc.at == EvictFree then v0.dir - {f.page} else v0.dir)
    && (pc.at == EvictLatch || pc.at == EvictCheck || pc.at == EvictAvail ==> pc.victim == f.page != 0)
    && (pc.at == EvictFlags || pc.at == EvictClear || pc.at == EvictRemove || pc.at == EvictFree ==> Clock.Idle(f))
    && (pc.at == EvictClear ==> f.ref)
    && (pc.at == EvictRemove || pc.at == EvictFree ==> !f.ref)
  }

  /** In a creation, which began at w. */
  ghost predicate AlongCreate(w: Clock.View, v: Clock.View, pc: Pc, call: Call) {
    && |w.ring| == |v.ring| > 0 && pc.slot < |w.ring|
    && v.dir == w.dir && v.count == w.count && v.evictHead == w.evictHead
    && if pc.at == CreateNext then
         v == w.(createHead := v.createHead) && NoneFree(w, v.createHead - w.createHead)
       else if pc.at == CreateClaim then
         && v == w.(createHead := v.createHead) && NoneFree(w, v.createHead - w.createHead - 1)
         && pc.slot == Clock.Visited(|w.ring|, w.createHead, v.createHead - w.createHead - 1)
       else
         && v.createHead == w.createHead + Clock.FreeTurn(w.ring, w.createHead, 0) + 1
         && pc.slot == Clock.AfterCreate(w, call.id, call.memory, call.room).2
         && w.ring[pc.slot].page == 0
         && v.ring == w.ring[pc.slot := v.ring[pc.slot]]
         && AtCreation(w, v.ring[pc.slot], pc, call)
  }

  /** The first n visits found no free slot. */
  ghost predicate NoneFree(w: Clock.View, n: int)
    requires |w.ring| > 0
  {
    n >= 0 && forall m: nat :: m < n ==> w.ring[Clock.Visited(|w.ring|, w.createHead, m)].page != 0
  }

  ghost predicate AtCreation(w: Clock.View, f: Clock.Frame, pc: Pc, call: Call)
    requires pc.slot < |w.ring|
  {
    var made := call.memory || w.ring[pc.slot].present;
    && f.page == call.id
    && (pc.at == CreateAlloc ==> f == w.ring[pc.slot].(page := call.id))
    && (pc.at == CreateId || pc.at == CreateFlags || pc.at == CreateInit || pc.at == CreateInsert ==> made && f.present)
    && (pc.at == CreateFlags || pc.at == CreateInit ==> f.id == call.id)
    && (pc.at == CreateInit ==> !f.dirty && !f.ref && !f.exclusive)
    && (pc.at == CreateInsert ==> f == Clock.NewFrame(call.id))
    && (pc.at == CreateUndo ==>
          && !(made && call.room)
          && f == if made then Clock.NewFrame(call.id) else w.ring[pc.slot].(page := call.id))
  }

  /** From the reservation on. */
  ghost predicate AlongNew(v0: Clock.View, v: Clock.View, pc: Pc, call: Call) {
    && |v0.ring| == |v.ring| > 0 && call.id !in v0.dir && pc.slot < |v0.ring|
    && var (w, spared) := Clock.AfterReserve(v0);
       && spared && w.count > 0 && call.id !in w.dir
       && if FunctionOf(pc.at) == Enter || pc.at == EvictDone then AlongEnter(v0, w, v, pc, call)
          else AlongCreate(w, v, pc, call)
  }

  ghost predicate AlongEnter(v0: Clock.View, w: Clock.View, v: Clock.View, pc: Pc, call: Call)
    requires |v0.ring| == |w.ring| > 0
  {
    var (u, ok, slot) := Clock.AfterCreate(w, call.id, call.memory, call.room);
    && pc.at != SlowPage && pc.at != SlowMark && pc.at != SlowUnreserve
    && (pc.at == EvictDone || pc.at == SlowLatch || pc.at == SlowLook ==> v == w)
    && (pc.at == NewPage ==> ok && v == u && pc.slot == slot)
    && (pc.at == NewMark ==>
          && ok && pc.slot == slot && call.exclusive
          && v == u.(ring := u.ring[slot := u.ring[slot].(word := Taken(u.ring[slot].word, true))]))
    && (pc.at == SlowDone ==> ok && (v, Clock.Fixed(pc.slot)) == Result(v0, call))
    && (pc.at == CreateFailed ==> !ok && v == u)
    && (pc.at == FailLeave ==> !ok && (v, Clock.NoMem) == Result(v0, call))
  }

  /** On the fast pass. */
  ghost predicate AlongFast(v0: Clock.View, v: Clock.View, pc: Pc, call: Call) {
    && |v0.ring| == |v.ring| > 0
    && pc.at != Idle && (pc.at != FastMark && pc.at != FastDone ==> v == v0)
    && (pc.at == FastPage || pc.at == FastMark ==> Found(v0, pc, call))
    && (pc.at == FastMark ==>
          && call.exclusive
          && v == v0.(ring := v0.ring[pc.slot := v0.ring[pc.slot].(word := Taken(v0.ring[pc.slot].word, true))]))
    && (pc.at == FastDone ==> (v, Clock.Fixed(pc.slot)) == Result(v0, call))
    && (pc.at == FastLeave || pc.at == CountLoad || pc.at == CountTry ==> call.id !in v0.dir)
    && (pc.at == CountTry ==> pc.seen == v0.count)
  }

  predicate Found(v0: Clock.View, pc: Pc, call: Call) {
    call.id in v0.dir && v0.dir[call.id] == pc.slot < |v0.ring|
  }

  /** Thread at pc has come so far with a call that found the pager as v0, and this is
      the pager now. */
  ghost predicate Along(v0: Clock.View, v: Clock.View, pc: Pc, call: Call) {
    && |v0.ring| == |v.ring| > 1 && pc.id == call.id != 0 && pc.exclusive == call.exclusive && pc.slot < |v0.ring|
    && var f := FunctionOf(pc.at);
       if pc.at == Idle then (v, Clock.NoMem) == Result(v0, call)
       else if f == Unfix then pc.at == Holding && (v, Clock.Fixed(pc.slot)) == Result(v0, call)
       else if f == Fix || f == Reserve then AlongFast(v0, v, pc, call)
       else if (f == FindEntry || f == Evict) && pc.at != EvictDone then AlongFull(v0, v, pc, call)
       else AlongNew(v0, v, pc, call)
  }

  ghost predicate AlongFull(v0: Clock.View, v: Clock.View, pc: Pc, call: Call) {
    call.id !in v0.dir && v0.count >= |v0.ring| - 1 && AlongEvict(v0, v, pc)
  }

  // ---------------------------------------------------------------- single steps

  /** The pager after one operation of a thread at pc. */
  function ViewAfter(s: State, pc: Pc, e: Effect): (v: Clock.View)
    requires pc.slot < |s.slots| && e.count >= 0
    ensures |v.ring| == |s.slots|
  {
    Clock.View(RingOf(s.slots)[pc.slot := FrameOf(e.slot)], e.dir, e.count, e.evictHead, e.createHead)
  }
  lemma SameRing(s: State, pc: Pc)
    requires pc.slot < |s.slots|
    ensures RingOf(s.slots)[pc.slot := FrameOf(s.slots[pc.slot])] == RingOf(s.slots)
  {
  }

  lemma TwiceAt(r: Clock.Ring, i: nat, f: Clock.Frame, g: Clock.Frame)
    requires i < |r|
    ensures r[i := f][i := g] == r[i := g]
  {
  }

  /** The fast pass but for taking the page. */
  lemma FastAlong(c: Cfg, v0: Clock.View, s: State, pc: Pc, choice: Choice, call: Call)
    requires Shape(c, s) && pc.slot < |s.slots| && s.count >= 0 && FunctionOf(pc.at) == Fix && pc.at != Idle
    requires pc.at != FastPage && pc.at != FastMark && AlongFast(v0, ViewOf(s), pc, call)
    requires pc.id == call.id && pc.exclusive == call.exclusive
    ensures var e := FixOperation(c, s, pc, choice); var v := ViewAfter(s, pc, e);
            && e.count >= 0 && e.pc.id == call.id && e.pc.exclusive == call.exclusive && e.pc.slot < |v0.ring|
            && e.pc.at != Idle
            && if e.pc.at == Holding then (v, Clock.Fixed(e.pc.slot)) == Result(v0, call)
               else (FunctionOf(e.pc.at) == Fix || FunctionOf(e.pc.at) == Reserve) && AlongFast(v0, v, e.pc, call)
  {
    hide Result;
    SameRing(s, pc);
  }

  /** Taking it. */
  lemma LockAlong(c: Cfg, v0: Clock.View, s: State, pc: Pc, choice: Choice, call: Call)
    requires Shape(c, s) && pc.slot < |s.slots| && s.count >= 0 && pc.at == FastPage
    requires AlongFast(v0, ViewOf(s), pc, call) && pc.id == call.id != 0 && pc.exclusive == call.exclusive
    ensures var e := FixOperation(c, s, pc, choice); var v := ViewAfter(s, pc, e);
            && e.count >= 0 && e.pc == pc.(at := if call.exclusive then FastMark else FastDone)
            && AlongFast(v0, v, e.pc, call)
  {
    hide Shape, FunctionOf;
    SameRing(s, pc);
  }

  lemma MarkAlong(c: Cfg, v0: Clock.View, s: State, pc: Pc, choice: Choice, call: Call)
    requires Shape(c, s) && pc.slot < |s.slots| && s.count >= 0 && pc.at == FastMark
    requires AlongFast(v0, ViewOf(s), pc, call) && pc.id == call.id != 0 && pc.exclusive == call.exclusive
    ensures var e := FixOperation(c, s, pc, choice); var v := ViewAfter(s, pc, e);
            && e.count >= 0 && e.pc == pc.(at := FastDone) && AlongFast(v0, v, e.pc, call)
  {
    hide Shape, FunctionOf;
    var f := v0.ring[pc.slot];
    var g := f.(word := Taken(f.word, true));
    assert ViewOf(s).ring[pc.slot] == g == FrameOf(s.slots[pc.slot]);
    TwiceAt(v0.ring, pc.slot, g, g.(exclusive := true));
  }

  lemma FixAlong(c: Cfg, v0: Clock.View, s: State, pc: Pc, choice: Choice, call: Call)
    requires Shape(c, s) && pc.slot < |s.slots| && s.count >= 0 && FunctionOf(pc.at) == Fix && pc.at != Idle
    requires Along(v0, ViewOf(s), pc, call)
    ensures var e := FixOperation(c, s, pc, choice);
            e.count >= 0 && Along(v0, ViewAfter(s, pc, e), e.pc, call)
  {
    hide AlongNew, AlongFull, AlongFast, Result, FixOperation;
    if pc.at == FastPage {
      LockAlong(c, v0, s, pc, choice, call);
    } else if pc.at == FastMark {
      MarkAlong(c, v0, s, pc, choice, call);
    } else {
      FastAlong(c, v0, s, pc, choice, call);
    }
  }

  lemma ReserveAlong(c: Cfg, v0: Clock.View, s: State, pc: Pc, choice: Choice, call: Call)
    requires Shape(c, s) && pc.slot < |s.slots| && s.count >= 0 && FunctionOf(pc.at) == Reserve
    requires Along(v0, ViewOf(s), pc, call) && Fits(pc.at, choice, call)
    ensures var e := ReserveOperation(c, s, pc, choice);
            e.count >= 0 && Along(v0, ViewAfter(s, pc, e), e.pc, call)
  {
    hide Clock.AgedBy, Clock.NotTakenBefore;
    SameRing(s, pc);
    Clock.NoVisit(v0.ring, v0.evictHead);
  }
  /** What the visit in progress finds, and what it leaves if it takes nothing. */
  lemma VisitAlong(v0: Clock.View, v: Clock.View, pc: Pc)
    requires AlongEvict(v0, v, pc) && pc.at != EvictNext && pc.at != EvictSkip
    ensures var f := v.ring[pc.slot]; var n := pc.tries;
            && (!Clock.Idle(f) ==> Scanned(v0, v.ring, n))
            && (Clock.Idle(f) && f.ref ==> Scanned(v0, v.ring[pc.slot := f.(ref := false)], n))
            && (Clock.Idle(f) && !f.ref ==>
                  Clock.EvictedAt(v0.ring, v0.dir, v0.evictHead, n - 1, v.ring[pc.slot := f.(page := 0)],
                                  v0.dir - {f.page}))
  {
    hide Clock.AgedBy, Clock.NotTakenBefore, Clock.EvictedAt, Clock.Visited, AtVisit, Clock.Idle;
    Clock.Visit(v0.ring, v0.dir, v0.evictHead, pc.tries - 1, v.ring);
  }

  /** The thread is still in the eviction, with the same call. */
  predicate StaysFull(pc: Pc, pc': Pc, size: nat) {
    && pc'.id == pc.id && pc'.exclusive == pc.exclusive && pc'.slot < size && pc'.at != Idle && pc'.at != EvictDone
    && (FunctionOf(pc'.at) == FindEntry || FunctionOf(pc'.at) == Evict)
  }

  lemma LookAlong(c: Cfg, v0: Clock.View, s: State, pc: Pc)
    requires Shape(c, s) && pc.slot < |s.slots| && s.count >= 0 && FunctionOf(pc.at) == FindEntry
    requires AlongEvict(v0, ViewOf(s), pc) && (pc.at == EvictNext ==> pc.tries < 2 * c.size)
    ensures var e := FindEntryOperation(c, s, pc);
            e.count == s.count && StaysFull(pc, e.pc, c.size) && AlongEvict(v0, ViewAfter(s, pc, e), e.pc)
  {
    hide AlongEvict, Shape, FindEntryOperation, StaysFull;
    if pc.at == EvictNext {
      NextAlong(c, v0, s, pc);
    } else {
      SlotAlong(c, v0, s, pc);
    }
  }

  lemma NextAlong(c: Cfg, v0: Clock.View, s: State, pc: Pc)
    requires Shape(c, s) && pc.slot < |s.slots| && s.count >= 0 && pc.at == EvictNext
    requires AlongEvict(v0, ViewOf(s), pc) && pc.tries < 2 * c.size
    ensures var e := FindEntryOperation(c, s, pc);
            e.count == s.count && StaysFull(pc, e.pc, c.size) && AlongEvict(v0, ViewAfter(s, pc, e), e.pc)
  {
    hide Scanned, Shape, Clock.Visited;
    SizeIs(c, s);
    SameRing(s, pc);
    NextVisit(c.size, v0.evictHead, pc.tries);
  }

  lemma SlotAlong(c: Cfg, v0: Clock.View, s: State, pc: Pc)
    requires Shape(c, s) && pc.slot < |s.slots| && s.count >= 0 && FunctionOf(pc.at) == FindEntry
    requires AlongEvict(v0, ViewOf(s), pc) && pc.at != EvictNext
    ensures var e := FindEntryOperation(c, s, pc);
            e.count == s.count && StaysFull(pc, e.pc, c.size) && AlongEvict(v0, ViewAfter(s, pc, e), e.pc)
  {
    hide Scanned, Shape, Clock.Visited;
    assert FrameOf(s.slots[pc.slot]).page == 0 ==> Scanned(v0, ViewOf(s).ring, pc.tries) by {
      hide FindEntryOperation;
      VisitAlong(v0, ViewOf(s), pc);
    }
    SizeIs(c, s);
    SameRing(s, pc);
  }

  lemma NextVisit(size: nat, head: nat, n: nat)
    requires size > 0
    ensures Clock.Visited(size, head, n) == (head + n) % size
  {
  }

  lemma SizeIs(c: Cfg, s: State)
    requires Shape(c, s)
    ensures |s.slots| == c.size >= 2
  {
  }

  lemma TakeAlong(c: Cfg, v0: Clock.View, s: State, pc: Pc, t: Thread)
    requires Shape(c, s) && pc.slot < |s.slots| && s.count >= 0 && FunctionOf(pc.at) == Evict
    requires AlongEvict(v0, ViewOf(s), pc) && pc.at != EvictFree && pc.at != EvictDone
    ensures var e := EvictOperation(c, s, pc, t);
            e.count == s.count && StaysFull(pc, e.pc, c.size) && AlongEvict(v0, ViewAfter(s, pc, e), e.pc)
  {
    hide AlongEvict, Shape, EvictOperation, StaysFull;
    if pc.at == EvictAvail || pc.at == EvictFlags {
      TestAlong(c, v0, s, pc, t);
    } else {
      ActAlong(c, v0, s, pc, t);
    }
  }

  lemma TestAlong(c: Cfg, v0: Clock.View, s: State, pc: Pc, t: Thread)
    requires Shape(c, s) && pc.slot < |s.slots| && s.count >= 0 && (pc.at == EvictAvail || pc.at == EvictFlags)
    requires AlongEvict(v0, ViewOf(s), pc)
    ensures var e := EvictOperation(c, s, pc, t);
            e.count == s.count && StaysFull(pc, e.pc, c.size) && AlongEvict(v0, ViewAfter(s, pc, e), e.pc)
  {
    hide Scanned, Shape, Clock.Visited;
    assert !Clock.Idle(FrameOf(s.slots[pc.slot])) ==> Scanned(v0, ViewOf(s).ring, pc.tries) by {
      hide EvictOperation;
      VisitAlong(v0, ViewOf(s), pc);
    }
    SizeIs(c, s);
    SameRing(s, pc);
  }

  lemma ActAlong(c: Cfg, v0: Clock.View, s: State, pc: Pc, t: Thread)
    requires Shape(c, s) && pc.slot < |s.slots| && s.count >= 0
    requires pc.at == EvictClear || pc.at == EvictSkip || pc.at == EvictRemove
    requires AlongEvict(v0, ViewOf(s), pc)
    ensures var e := EvictOperation(c, s, pc, t);
            e.count == s.count && StaysFull(pc, e.pc, c.size) && AlongEvict(v0, ViewAfter(s, pc, e), e.pc)
  {
    hide Scanned, Shape, Clock.Visited;
    if pc.at == EvictClear {
      assert var f := FrameOf(s.slots[pc.slot]);
             Scanned(v0, ViewOf(s).ring[pc.slot := f.(ref := false)], pc.tries) by {
        hide EvictOperation;
        VisitAlong(v0, ViewOf(s), pc);
      }
    }
    SizeIs(c, s);
    SameRing(s, pc);
  }

  /** The end of an eviction that took nothing. */
  lemma NothingTaken(c: Cfg, v0: Clock.View, s: State, pc: Pc, call: Call)
    requires Shape(c, s) && pc.slot < |s.slots| && s.count >= 0 && pc.at == EvictNext && pc.tries >= 2 * c.size
    requires AlongFull(v0, ViewOf(s), pc, call) && call.id != 0
    ensures var e := FindEntryOperation(c, s, pc);
            && e.count == s.count && e.pc == pc.(at := Idle)
            && (ViewAfter(s, pc, e), Clock.NoMem) == Result(v0, call)
  {
    hide Clock.AgedBy, Clock.NotTakenBefore, Clock.AfterEvict, Clock.AfterCreate;
    SameRing(s, pc);
    Clock.NotEvictedIs(v0, ViewOf(s));
  }

  /** The end of one that took a page, and the step after it. */
  lemma Spared(c: Cfg, v0: Clock.View, s: State, pc: Pc, t: Thread, call: Call)
    requires Shape(c, s) && pc.slot < |s.slots| && s.count >= 0 && pc.at == EvictFree
    requires AlongFull(v0, ViewOf(s), pc, call)
    ensures var e := EvictOperation(c, s, pc, t);
            e.count == s.count && e.pc == pc.(at := EvictDone) && AlongNew(v0, ViewAfter(s, pc, e), e.pc, call)
  {
    hide Clock.AgedBy, Clock.NotTakenBefore, Clock.EvictedAt, Clock.AfterEvict, AlongCreate;
    VisitAlong(v0, ViewOf(s), pc);
    Clock.EvictedIs(v0, pc.tries - 1, ViewAfter(s, pc, EvictOperation(c, s, pc, t)));
  }

  lemma FindEntryAlong(c: Cfg, v0: Clock.View, s: State, pc: Pc, call: Call)
    requires Shape(c, s) && pc.slot < |s.slots| && s.count >= 0 && FunctionOf(pc.at) == FindEntry
    requires Along(v0, ViewOf(s), pc, call)
    ensures var e := FindEntryOperation(c, s, pc);
            e.count >= 0 && Along(v0, ViewAfter(s, pc, e), e.pc, call)
  {
    hide AlongNew, AlongFast, AlongEvict, FindEntryOperation, Result;
    if pc.at == EvictNext && pc.tries >= 2 * c.size {
      NothingTaken(c, v0, s, pc, call);
    } else {
      LookAlong(c, v0, s, pc);
    }
  }

  lemma EvictAlong(c: Cfg, v0: Clock.View, s: State, pc: Pc, t: Thread, call: Call)
    requires Shape(c, s) && pc.slot < |s.slots| && s.count >= 0 && FunctionOf(pc.at) == Evict
    requires Along(v0, ViewOf(s), pc, call)
    ensures var e := EvictOperation(c, s, pc, t);
            e.count >= 0 && Along(v0, ViewAfter(s, pc, e), e.pc, call)
  {
    hide AlongNew, AlongFast, AlongEvict, EvictOperation, Result;
    if pc.at == EvictFree {
      Spared(c, v0, s, pc, t, call);
    } else if pc.at == EvictDone {
      DoneAlong(c, v0, s, pc, t, call);
    } else {
      TakeAlong(c, v0, s, pc, t);
    }
  }

  lemma DoneAlong(c: Cfg, v0: Clock.View, s: State, pc: Pc, t: Thread, call: Call)
    requires Shape(c, s) && pc.slot < |s.slots| && s.count >= 0 && pc.at == EvictDone
    requires AlongNew(v0, ViewOf(s), pc, call)
    ensures var e := EvictOperation(c, s, pc, t);
            e.count == s.count && e.pc == pc.(at := SlowLatch) && AlongNew(v0, ViewAfter(s, pc, e), e.pc, call)
  {
    hide Clock.AfterReserve, Clock.AfterCreate, AlongCreate, Result;
    SameRing(s, pc);
  }

  /** The second lookup finds what the first one did. */
  lemma SlowAlong(c: Cfg, v0: Clock.View, s: State, pc: Pc, call: Call)
    requires Shape(c, s) && pc.slot < |s.slots| && s.count >= 0 && (pc.at == SlowLatch || pc.at == SlowLook)
    requires AlongNew(v0, ViewOf(s), pc, call) && pc.id == call.id
    ensures var e := EnterOperation(c, s, pc);
            && e.count == s.count && e.pc == pc.(at := e.pc.at) && (e.pc.at == SlowLook || e.pc.at == CreateNext)
            && AlongNew(v0, ViewAfter(s, pc, e), e.pc, call)
  {
    hide Clock.AfterReserve, Clock.AfterCreate, Result;
    SameRing(s, pc);
  }

  /** The latch and the mark of a new page. */
  lemma NewAlong(c: Cfg, v0: Clock.View, s: State, pc: Pc, call: Call)
    requires Shape(c, s) && pc.slot < |s.slots| && s.count >= 0 && (pc.at == NewPage || pc.at == NewMark)
    requires AlongNew(v0, ViewOf(s), pc, call) && pc.exclusive == call.exclusive && call.id != 0
    ensures var e := EnterOperation(c, s, pc);
            && e.count == s.count && e.pc == pc.(at := e.pc.at) && (e.pc.at == NewMark || e.pc.at == SlowDone)
            && AlongNew(v0, ViewAfter(s, pc, e), e.pc, call)
  {
    hide Clock.AfterReserve, Clock.AfterCreate, AlongCreate, Shape, FunctionOf, AlongEnter;
    EnterPcs();
    if pc.at == NewPage {
      TakeNew(c, v0, Clock.AfterReserve(v0).0, s, pc, call);
    } else {
      MarkNew(c, v0, Clock.AfterReserve(v0).0, s, pc, call);
    }
  }

  lemma TakeNew(c: Cfg, v0: Clock.View, w: Clock.View, s: State, pc: Pc, call: Call)
    requires Shape(c, s) && pc.slot < |s.slots| && s.count >= 0 && pc.at == NewPage
    requires |v0.ring| == |w.ring| == |s.slots| && AlongEnter(v0, w, ViewOf(s), pc, call)
    requires Clock.AfterReserve(v0) == (w, true) && pc.exclusive == call.exclusive
    requires call.id !in v0.dir && call.id != 0
    ensures var e := EnterOperation(c, s, pc);
            && e.count == s.count && e.pc == pc.(at := e.pc.at) && (e.pc.at == NewMark || e.pc.at == SlowDone)
            && AlongEnter(v0, w, ViewAfter(s, pc, e), e.pc, call)
  {
    hide Clock.AfterReserve, Clock.AfterCreate, Shape;
    SameRing(s, pc);
  }

  lemma MarkNew(c: Cfg, v0: Clock.View, w: Clock.View, s: State, pc: Pc, call: Call)
    requires Shape(c, s) && pc.slot < |s.slots| && s.count >= 0 && pc.at == NewMark
    requires |v0.ring| == |w.ring| == |s.slots| && AlongEnter(v0, w, ViewOf(s), pc, call)
    requires Clock.AfterReserve(v0) == (w, true) && pc.exclusive == call.exclusive
    requires call.id !in v0.dir && call.id != 0
    ensures var e := EnterOperation(c, s, pc);
            && e.count == s.count && e.pc == pc.(at := SlowDone)
            && AlongEnter(v0, w, ViewAfter(s, pc, e), e.pc, call)
  {
    hide Clock.AfterReserve, Clock.AfterCreate, Shape;
    SameRing(s, pc);
    var (u, ok, slot) := Clock.AfterCreate(w, call.id, call.memory, call.room);
    var f := u.ring[slot];
    var g := f.(word := Taken(f.word, true));
    TwiceAt(u.ring, slot, g, g.(exclusive := true));
  }

  lemma EnterPcs()
    ensures FunctionOf(NewPage) == FunctionOf(NewMark) == FunctionOf(SlowDone) == Enter
    ensures FunctionOf(CreateFailed) == FunctionOf(FailLeave) == Enter
  {
  }

  /** The ways out. */
  lemma LeaveAlong(c: Cfg, v0: Clock.View, s: State, pc: Pc, call: Call)
    requires Shape(c, s) && pc.slot < |s.slots| && s.count >= 0 && (pc.at == SlowDone || pc.at == FailLeave)
    requires AlongNew(v0, ViewOf(s), pc, call)
    ensures var e := EnterOperation(c, s, pc); var v := ViewAfter(s, pc, e);
            && e.count >= 0 && e.pc == pc.(at := if pc.at == SlowDone then Holding else Idle)
            && (v, if pc.at == SlowDone then Clock.Fixed(pc.slot) else Clock.NoMem) == Result(v0, call)
  {
    hide Clock.AfterReserve, Clock.AfterCreate, AlongCreate, Shape, Result;
    SameRing(s, pc);
  }

  lemma FailAlong(c: Cfg, v0: Clock.View, s: State, pc: Pc, call: Call)
    requires Shape(c, s) && pc.slot < |s.slots| && s.count >= 0 && pc.at == CreateFailed
    requires AlongNew(v0, ViewOf(s), pc, call) && call.id != 0
    ensures var e := EnterOperation(c, s, pc); var v := ViewAfter(s, pc, e);
            && e.count >= 0 && e.pc == pc.(at := FailLeave) && AlongNew(v0, v, e.pc, call)
  {
    hide Clock.AfterReserve, Clock.AfterCreate, AlongCreate, Shape, FunctionOf;
    assert FunctionOf(CreateFailed) == FunctionOf(FailLeave) == Enter by { EnterPcs(); }
    CreateCounts(Clock.AfterReserve(v0).0, call);
    SameRing(s, pc);
  }

  lemma CreateCounts(w: Clock.View, call: Call)
    requires |w.ring| > 0
    ensures Clock.AfterCreate(w, call.id, call.memory, call.room).0.count == w.count
  {
  }

  lemma EnterAlong(c: Cfg, v0: Clock.View, s: State, pc: Pc, call: Call)
    requires Shape(c, s) && pc.slot < |s.slots| && s.count >= 0 && FunctionOf(pc.at) == Enter
    requires Along(v0, ViewOf(s), pc, call)
    ensures var e := EnterOperation(c, s, pc);
            e.count >= 0 && Along(v0, ViewAfter(s, pc, e), e.pc, call)
  {
    hide AlongFast, AlongFull, AlongNew, EnterOperation, Result, Shape, Clock.AfterReserve, Clock.AfterCreate, ViewOf,
         ViewAfter;
    assert pc.at != SlowPage && pc.at != SlowMark && pc.at != SlowUnreserve by { NoSlowPage(v0, ViewOf(s), pc, call); }
    if pc.at == SlowLatch || pc.at == SlowLook {
      SlowAlong(c, v0, s, pc, call);
    } else if pc.at == NewPage || pc.at == NewMark {
      NewAlong(c, v0, s, pc, call);
    } else if pc.at == CreateFailed {
      FailAlong(c, v0, s, pc, call);
    } else {
      LeaveAlong(c, v0, s, pc, call);
    }
  }

  lemma NoSlowPage(v0: Clock.View, v: Clock.View, pc: Pc, call: Call)
    requires AlongNew(v0, v, pc, call)
    ensures pc.at != SlowPage && pc.at != SlowMark && pc.at != SlowUnreserve
  {
  }

  lemma ClaimAlong(c: Cfg, v0: Clock.View, s: State, pc: Pc, t: Thread, choice: Choice, call: Call)
    requires Shape(c, s) && pc.slot < |s.slots| && s.count >= 0 && FunctionOf(pc.at) == Claim
    requires Along(v0, ViewOf(s), pc, call) && Fits(pc.at, choice, call)
    ensures var e := ClaimOperation(c, s, pc, t, choice);
            e.count >= 0 && Along(v0, ViewAfter(s, pc, e), e.pc, call)
  {
    hide AlongFast, AlongFull, AlongNew, ClaimOperation, Result;
    CreationView(v0, ViewOf(s), pc, call);
    var w := Clock.AfterReserve(v0).0;
    if pc.at == CreateAlloc {
      AllocAlong(c, w, s, pc, t, choice, call);
    } else {
      SearchAlong(c, w, s, pc, t, choice, call);
    }
    var e := ClaimOperation(c, s, pc, t, choice);
    CreationNew(v0, ViewAfter(s, pc, e), e.pc, call);
  }

  lemma CreationView(v0: Clock.View, v: Clock.View, pc: Pc, call: Call)
    requires AlongNew(v0, v, pc, call) && (FunctionOf(pc.at) == Claim || FunctionOf(pc.at) == Create)
    ensures |v0.ring| > 0 && AlongCreate(Clock.AfterReserve(v0).0, v, pc, call)
    ensures Clock.AfterReserve(v0).1 && Clock.AfterReserve(v0).0.count > 0 && call.id !in Clock.AfterReserve(v0).0.dir
    ensures call.id !in v0.dir && |v.ring| == |v0.ring|
  {
    hide Clock.AfterReserve, AlongCreate, AlongEnter;
  }

  lemma CreationNew(v0: Clock.View, v: Clock.View, pc: Pc, call: Call)
    requires FunctionOf(pc.at) == Claim || FunctionOf(pc.at) == Create
    requires |v0.ring| > 0 && AlongCreate(Clock.AfterReserve(v0).0, v, pc, call) && pc.slot < |v0.ring|
    requires Clock.AfterReserve(v0).1 && Clock.AfterReserve(v0).0.count > 0 && call.id !in Clock.AfterReserve(v0).0.dir
    requires call.id !in v0.dir && |v.ring| == |v0.ring|
    ensures AlongNew(v0, v, pc, call)
  {
    hide Clock.AfterReserve, AlongCreate, AlongEnter;
  }

  lemma FreeHere(w: Clock.View, m: nat)
    requires |w.ring| > 0 && NoneFree(w, m) && w.ring[Clock.Visited(|w.ring|, w.createHead, m)].page == 0
    ensures Clock.FreeTurn(w.ring, w.createHead, 0) == m
  {
    hide Clock.FreeTurn, Clock.Visited;
    var n := Clock.Turn(|w.ring|, w.createHead, Clock.Visited(|w.ring|, w.createHead, m));
    Clock.FreeTurnIs(w.ring, w.createHead, 0, m);
  }

  lemma NextNotFree(w: Clock.View, m: nat)
    requires |w.ring| > 0 && NoneFree(w, m) && w.ring[Clock.Visited(|w.ring|, w.createHead, m)].page != 0
    ensures NoneFree(w, m + 1)
  {
    hide Clock.Visited;
  }

  /** The search for a free slot. */
  lemma SearchAlong(c: Cfg, w: Clock.View, s: State, pc: Pc, t: Thread, choice: Choice, call: Call)
    requires Shape(c, s) && pc.slot < |s.slots| && s.count >= 0 && (pc.at == CreateNext || pc.at == CreateClaim)
    requires AlongCreate(w, ViewOf(s), pc, call) && pc.id == call.id && (pc.at == CreateClaim ==> !choice.fails)
    ensures var e := ClaimOperation(c, s, pc, t, choice);
            && e.count == s.count && e.pc == pc.(at := e.pc.at, slot := e.pc.slot) && e.pc.slot < |s.slots|
            && FunctionOf(e.pc.at) == Claim && AlongCreate(w, ViewAfter(s, pc, e), e.pc, call)
  {
    hide Clock.FreeTurn, Clock.Visited, Shape, NoneFree;
    SizeIs(c, s);
    SameRing(s, pc);
    AtLeastOne(w, ViewOf(s), pc, call);
    if pc.at == CreateNext {
      NextVisit(c.size, w.createHead, s.createHead - w.createHead);
    } else {
      var m := s.createHead - w.createHead - 1;
      if s.slots[pc.slot].page == 0 {
        FreeHere(w, m);
      } else {
        NextNotFree(w, m);
      }
    }
  }

  lemma AtLeastOne(w: Clock.View, v: Clock.View, pc: Pc, call: Call)
    requires AlongCreate(w, v, pc, call)
    ensures pc.at == CreateNext ==> v.createHead >= w.createHead
    ensures pc.at == CreateClaim ==> v.createHead > w.createHead
  {
  }

  lemma AllocAlong(c: Cfg, w: Clock.View, s: State, pc: Pc, t: Thread, choice: Choice, call: Call)
    requires Shape(c, s) && pc.slot < |s.slots| && s.count >= 0 && pc.at == CreateAlloc
    requires AlongCreate(w, ViewOf(s), pc, call) && pc.id == call.id && choice.fails == !call.memory
    ensures var e := ClaimOperation(c, s, pc, t, choice);
            && e.count == s.count && e.pc == pc.(at := e.pc.at)
            && FunctionOf(e.pc.at) == Create && AlongCreate(w, ViewAfter(s, pc, e), e.pc, call)
  {
    hide Clock.AfterCreate, Clock.FreeTurn, Shape;
    SameRing(s, pc);
  }

  /** Filling in the header. */
  lemma FillAlong(c: Cfg, w: Clock.View, s: State, pc: Pc, choice: Choice, call: Call)
    requires Shape(c, s) && pc.slot < |s.slots| && s.count >= 0
    requires pc.at == CreateId || pc.at == CreateFlags || pc.at == CreateInit || (pc.at == CreateInsert && !call.room)
    requires AlongCreate(w, ViewOf(s), pc, call) && pc.id == call.id && Fits(pc.at, choice, call)
    ensures var e := CreateOperation(c, s, pc, choice);
            && e.count == s.count && e.pc == pc.(at := e.pc.at)
            && FunctionOf(e.pc.at) == Create && AlongCreate(w, ViewAfter(s, pc, e), e.pc, call)
  {
    hide Clock.AfterCreate, Clock.FreeTurn, Shape;
    SameRing(s, pc);
    var e := CreateOperation(c, s, pc, choice);
    TwiceAt(w.ring, pc.slot, FrameOf(s.slots[pc.slot]), FrameOf(e.slot));
  }

  /** The mapping, or the way back. */
  lemma PutAlong(c: Cfg, w: Clock.View, s: State, pc: Pc, choice: Choice, call: Call)
    requires Shape(c, s) && pc.slot < |s.slots| && s.count >= 0
    requires (pc.at == CreateInsert && call.room) || pc.at == CreateUndo
    requires AlongCreate(w, ViewOf(s), pc, call) && pc.id == call.id && Fits(pc.at, choice, call)
    ensures var e := CreateOperation(c, s, pc, choice);
            var (u, ok, slot) := Clock.AfterCreate(w, call.id, call.memory, call.room);
            && e.count == s.count && e.pc == pc.(at := if pc.at == CreateInsert then NewPage else CreateFailed)
            && ok == (pc.at == CreateInsert) && ViewAfter(s, pc, e) == u && pc.slot == slot
  {
    hide Clock.FreeTurn, Shape;
    SameRing(s, pc);
    var e := CreateOperation(c, s, pc, choice);
    TwiceAt(w.ring, pc.slot, FrameOf(s.slots[pc.slot]), FrameOf(e.slot));
  }

  lemma CreateAlong(c: Cfg, v0: Clock.View, s: State, pc: Pc, choice: Choice, call: Call)
    requires Shape(c, s) && pc.slot < |s.slots| && s.count >= 0 && FunctionOf(pc.at) == Create
    requires Along(v0, ViewOf(s), pc, call) && Fits(pc.at, choice, call)
    ensures var e := CreateOperation(c, s, pc, choice);
            e.count >= 0 && Along(v0, ViewAfter(s, pc, e), e.pc, call)
  {
    hide AlongFast, AlongFull, AlongNew, CreateOperation, Result, Fits;
    var e := CreateOperation(c, s, pc, choice);
    CreateNewAlong(c, v0, s, pc, choice, call);
  }

  lemma CreateNewAlong(c: Cfg, v0: Clock.View, s: State, pc: Pc, choice: Choice, call: Call)
    requires Shape(c, s) && pc.slot < |s.slots| && s.count >= 0 && FunctionOf(pc.at) == Create
    requires AlongNew(v0, ViewOf(s), pc, call) && pc.id == call.id && Fits(pc.at, choice, call)
    ensures var e := CreateOperation(c, s, pc, choice);
            && e.count >= 0 && e.pc == pc.(at := e.pc.at) && AlongNew(v0, ViewAfter(s, pc, e), e.pc, call)
            && (FunctionOf(e.pc.at) == Create || FunctionOf(e.pc.at) == Enter)
  {
    hide AlongNew, AlongCreate, CreateOperation, Result, Fits, Shape, Clock.AfterReserve, Clock.AfterCreate, ViewOf,
         ViewAfter;
    CreationView(v0, ViewOf(s), pc, call);
    var w := Clock.AfterReserve(v0).0;
    var e := CreateOperation(c, s, pc, choice);
    if (pc.at == CreateInsert && call.room) || pc.at == CreateUndo {
      PutAlong(c, w, s, pc, choice, call);
      EnterNew(v0, ViewAfter(s, pc, e), e.pc, call);
    } else {
      FillAlong(c, w, s, pc, choice, call);
      CreationNew(v0, ViewAfter(s, pc, e), e.pc, call);
    }
  }

  lemma EnterNew(v0: Clock.View, v: Clock.View, pc: Pc, call: Call)
    requires (pc.at == NewPage || pc.at == CreateFailed) && pc.slot < |v0.ring| == |v.ring| && call.id !in v0.dir
    requires Clock.AfterReserve(v0).1 && Clock.AfterReserve(v0).0.count > 0 && call.id !in Clock.AfterReserve(v0).0.dir
    requires var (u, ok, slot) := Clock.AfterCreate(Clock.AfterReserve(v0).0, call.id, call.memory, call.room);
             v == u && pc.slot == slot && ok == (pc.at == NewPage)
    ensures AlongNew(v0, v, pc, call)
  {
    hide Clock.AfterReserve, Clock.AfterCreate, AlongCreate, Result;
  }

  // ---------------------------------------------------------------- whole calls

  lemma OperationAlong(c: Cfg, v0: Clock.View, s: State, pc: Pc, t: Thread, choice: Choice, call: Call)
    requires Shape(c, s) && pc.slot < |s.slots| && s.count >= 0 && pc.at != Idle && pc.at != Holding
    requires Along(v0, ViewOf(s), pc, call) && Fits(pc.at, choice, call)
    ensures var e := Operation(c, s, pc, t, choice);
            e.count >= 0 && Along(v0, ViewAfter(s, pc, e), e.pc, call)
  {
    hide FixOperation, ReserveOperation, EnterOperation, ClaimOperation, CreateOperation,
         FindEntryOperation, EvictOperation, UnfixOperation;
    hide AlongNew, AlongFast, AlongFull, Result, FunctionOf;
    match FunctionOf(pc.at)
    case Fix => FixAlong(c, v0, s, pc, choice, call);
    case Reserve => ReserveAlong(c, v0, s, pc, choice, call);
    case Enter => EnterAlong(c, v0, s, pc, call);
    case Claim => ClaimAlong(c, v0, s, pc, t, choice, call);
    case Create => CreateAlong(c, v0, s, pc, choice, call);
    case FindEntry => FindEntryAlong(c, v0, s, pc, call);
    case Evict => EvictAlong(c, v0, s, pc, t, call);
    case Unfix => assert false;
  }

  lemma StepAlong(c: Cfg, v0: Clock.View, s: State, t: Thread, choice: Choice, call: Call)
    requires Enabled(c, s, t, choice) && s.count >= 0 && s.pcs[t].at != Idle && s.pcs[t].at != Holding
    requires Along(v0, ViewOf(s), s.pcs[t], call) && Fits(s.pcs[t].at, choice, call)
    ensures var s' := Step(c, s, t, choice);
            s'.count >= 0 && t in s'.pcs && Along(v0, ViewOf(s'), s'.pcs[t], call)
  {
    hide Operation, Along;
    OperationAlong(c, v0, s, s.pcs[t], t, choice, call);
    ViewOfStep(c, s, t, choice);
  }

  lemma ViewOfStep(c: Cfg, s: State, t: Thread, choice: Choice)
    requires Enabled(c, s, t, choice) && Operation(c, s, s.pcs[t], t, choice).count >= 0
    ensures ViewOf(Step(c, s, t, choice)) == ViewAfter(s, s.pcs[t], Operation(c, s, s.pcs[t], t, choice))
  {
    hide Operation;
    var e := Operation(c, s, s.pcs[t], t, choice);
    assert RingOf(s.slots[s.pcs[t].slot := e.slot]) == RingOf(s.slots)[s.pcs[t].slot := FrameOf(e.slot)];
  }

  lemma StartAlong(c: Cfg, s: State, t: Thread, choice: Choice, call: Call)
    requires Enabled(c, s, t, choice) && s.count >= 0 && s.pcs[t].at == Idle
    requires choice.id == call.id && choice.exclusive == call.exclusive
    ensures var s' := Step(c, s, t, choice);
            s'.count >= 0 && t in s'.pcs && ViewOf(s') == ViewOf(s) && Along(ViewOf(s), ViewOf(s'), s'.pcs[t], call)
  {
    hide AlongNew, AlongFull;
    SameRing(s, s.pcs[t]);
    ViewOfStep(c, s, t, choice);
  }

  /** Thread t calls `pager_fix` with move i, and by state k nobody else has moved. */
  ghost predicate Alone(c: Cfg, states: seq<State>, moves: seq<Move>, t: Thread, call: Call, i: nat, k: nat) {
    && Run(c, states, moves) && i < k < |states|
    && t in states[i].pcs && states[i].pcs[t].at == Idle
    && moves[i].choice.id == call.id && moves[i].choice.exclusive == call.exclusive
    && (forall m :: i <= m < k ==> moves[m].thread == t)
    && (forall m :: i <= m < k ==> t in states[m].pcs && Fits(states[m].pcs[t].at, moves[m].choice, call))
    && (forall m :: i < m < k ==> states[m].pcs[t].at != Idle && states[m].pcs[t].at != Holding)
  }

  lemma {:induction false} RunAlong(c: Cfg, states: seq<State>, moves: seq<Move>, t: Thread, call: Call, i: nat, k: nat)
    requires Alone(c, states, moves, t, call, i, k)
    ensures states[i].count >= 0 && states[k].count >= 0 && t in states[k].pcs
    ensures Along(ViewOf(states[i]), ViewOf(states[k]), states[k].pcs[t], call)
  {
    hide Along, Step, Enabled, Init, Fits, Inv;
    CountNotNegative(c, states, moves, i);
    var s, choice := states[k - 1], moves[k - 1].choice;
    assert states[k] == Step(c, s, t, choice) && Enabled(c, s, t, choice);
    if k == i + 1 {
      StartAlong(c, s, t, choice, call);
    } else {
      RunAlong(c, states, moves, t, call, i, k - 1);
      StepAlong(c, ViewOf(states[i]), s, t, choice, call);
    }
  }

  lemma CountNotNegative(c: Cfg, states: seq<State>, moves: seq<Move>, k: nat)
    requires Run(c, states, moves) && k < |states|
    ensures states[k].count >= 0
  {
    hide EntriesOk, PagesOk, SlotsOk, DirOk, ThreadsOk, Init, Run, Reserving, Occupied;
    RunInv(c, states, moves, k);
  }

  /** `pager_fix` of a thread alone: it ends with the page or without one, and what it
      then answers and leaves behind is what `Clock.AfterFix` says. */
  lemma FixAlone(c: Cfg, states: seq<State>, moves: seq<Move>, t: Thread, call: Call, i: nat, k: nat)
    requires Alone(c, states, moves, t, call, i, k)
    requires t in states[k].pcs && (states[k].pcs[t].at == Idle || states[k].pcs[t].at == Holding)
    ensures states[i].count >= 0 && states[k].count >= 0 && |states[i].slots| > 0
    ensures var (v, r) := Clock.AfterFix(ViewOf(states[i]), call.id, call.exclusive, call.memory, call.room);
            && ViewOf(states[k]) == v
            && r == if states[k].pcs[t].at == Holding then Clock.Fixed(states[k].pcs[t].slot) else Clock.NoMem
  {
    hide Alone, Clock.AfterFix;
    RunAlong(c, states, moves, t, call, i, k);
  }

  // ----------------------------------------------------------------- pager_unfix

  ghost predicate AlongUnfix(v0: Clock.View, v: Clock.View, pc: Pc, slot: nat) {
    && |v0.ring| == |v.ring| && slot < |v0.ring| && (pc.at != Idle ==> pc.slot == slot)
    && var f := v0.ring[slot];
       && (pc.at == Idle || pc.at == Holding || pc.at == UnfixStore || pc.at == UnfixWrite || pc.at == UnfixOr
           || pc.at == UnfixRead)
       && (pc.at == Holding || pc.at == UnfixStore || pc.at == UnfixOr ==> v == v0)
       && (pc.at == UnfixStore || pc.at == UnfixWrite ==> f.exclusive)
       && (pc.at == UnfixOr || pc.at == UnfixRead ==> !f.exclusive)
       && (pc.at == UnfixWrite ==>
             v == v0.(ring := v0.ring[slot := f.(dirty := true, ref := true, exclusive := false)]))
       && (pc.at == UnfixRead ==> v == v0.(ring := v0.ring[slot := f.(ref := true)]))
       && (pc.at == Idle ==> v == Clock.AfterUnfix(v0, slot))
  }

  lemma UnfixOperationAlong(c: Cfg, v0: Clock.View, s: State, pc: Pc, slot: nat)
    requires Shape(c, s) && pc.slot < |s.slots| && s.count >= 0 && pc.at != Idle
    requires AlongUnfix(v0, ViewOf(s), pc, slot)
    ensures var e := UnfixOperation(c, s, pc);
            e.count == s.count && AlongUnfix(v0, ViewAfter(s, pc, e), e.pc, slot)
  {
    if pc.at == UnfixWrite || pc.at == UnfixRead {
      hide AlongUnfix, UnfixOperation;
      LetGo(c, v0, s, pc, slot);
    } else {
      assert pc.at == Holding || pc.at == UnfixStore || pc.at == UnfixOr;
      hide AlongUnfix, UnfixOperation;
      SetFlags(c, v0, s, pc, slot);
    }
  }

  lemma SetFlags(c: Cfg, v0: Clock.View, s: State, pc: Pc, slot: nat)
    requires Shape(c, s) && pc.slot < |s.slots| && s.count >= 0
    requires pc.at == Holding || pc.at == UnfixStore || pc.at == UnfixOr
    requires AlongUnfix(v0, ViewOf(s), pc, slot)
    ensures var e := UnfixOperation(c, s, pc);
            e.count == s.count && AlongUnfix(v0, ViewAfter(s, pc, e), e.pc, slot)
  {
    hide Shape;
    SameRing(s, pc);
  }

  lemma LetGo(c: Cfg, v0: Clock.View, s: State, pc: Pc, slot: nat)
    requires Shape(c, s) && pc.slot < |s.slots| && s.count >= 0 && (pc.at == UnfixWrite || pc.at == UnfixRead)
    requires AlongUnfix(v0, ViewOf(s), pc, slot)
    ensures var e := UnfixOperation(c, s, pc);
            e.count == s.count && AlongUnfix(v0, ViewAfter(s, pc, e), e.pc, slot)
  {
    hide AlongUnfix, UnfixOperation;
    BeforeLetGo(v0, ViewOf(s), pc, slot);
    LetsGo(c, s, pc);
    var e := UnfixOperation(c, s, pc);
    TwiceAt(v0.ring, slot, FrameOf(s.slots[slot]), FrameOf(e.slot));
    AfterLetGo(v0, ViewAfter(s, pc, e), e.pc, slot);
  }

  lemma BeforeLetGo(v0: Clock.View, v: Clock.View, pc: Pc, slot: nat)
    requires AlongUnfix(v0, v, pc, slot) && (pc.at == UnfixWrite || pc.at == UnfixRead)
    ensures pc.slot == slot < |v0.ring| == |v.ring|
    ensures var f, x := v0.ring[slot], pc.at == UnfixWrite;
            && f.exclusive == x && v == v0.(ring := v0.ring[slot := v.ring[slot]])
            && v.ring[slot].(word := Released(f.word, x)) == Clock.Unlocked(f, x) && v.ring[slot].word == f.word
  {
  }

  lemma LetsGo(c: Cfg, s: State, pc: Pc)
    requires Shape(c, s) && pc.slot < |s.slots| && (pc.at == UnfixWrite || pc.at == UnfixRead)
    ensures var f, e := FrameOf(s.slots[pc.slot]), UnfixOperation(c, s, pc);
            && FrameOf(e.slot) == f.(word := Released(f.word, pc.at == UnfixWrite)) && e.pc.at == Idle
            && e.count == s.count && e.dir == s.dir && e.evictHead == s.evictHead && e.createHead == s.createHead
  {
  }

  lemma AfterLetGo(v0: Clock.View, v: Clock.View, pc: Pc, slot: nat)
    requires slot < |v0.ring| == |v.ring| && pc.at == Idle && v == Clock.AfterUnfix(v0, slot)
    ensures AlongUnfix(v0, v, pc, slot)
  {
    hide Clock.AfterUnfix;
  }

  lemma InUnfix(v0: Clock.View, v: Clock.View, pc: Pc, slot: nat)
    requires AlongUnfix(v0, v, pc, slot) && pc.at != Idle
    ensures FunctionOf(pc.at) == Unfix
  {
  }

  lemma UnfixStepAlong(c: Cfg, v0: Clock.View, s: State, t: Thread, choice: Choice, slot: nat)
    requires Enabled(c, s, t, choice) && s.count >= 0 && s.pcs[t].at != Idle
    requires AlongUnfix(v0, ViewOf(s), s.pcs[t], slot)
    ensures var s' := Step(c, s, t, choice);
            s'.count >= 0 && t in s'.pcs && AlongUnfix(v0, ViewOf(s'), s'.pcs[t], slot)
  {
    hide AlongUnfix, FunctionOf, FixOperation, ReserveOperation, EnterOperation, ClaimOperation, CreateOperation,
         FindEntryOperation, EvictOperation, UnfixOperation;
    InUnfix(v0, ViewOf(s), s.pcs[t], slot);
    UnfixOperationAlong(c, v0, s, s.pcs[t], slot);
    ViewOfStep(c, s, t, choice);
  }

  /** `pager_unfix` of a thread alone. */
  lemma {:induction false} UnfixRunAlong(c: Cfg, states: seq<State>, moves: seq<Move>, t: Thread, i: nat, k: nat)
    requires Run(c, states, moves) && i <= k < |states|
    requires t in states[i].pcs && states[i].pcs[t].at == Holding
    requires forall m :: i <= m < k ==> moves[m].thread == t && t in states[m].pcs && states[m].pcs[t].at != Idle
    ensures states[i].count >= 0 && states[k].count >= 0 && t in states[k].pcs
    ensures AlongUnfix(ViewOf(states[i]), ViewOf(states[k]), states[k].pcs[t], states[i].pcs[t].slot)
  {
    hide AlongUnfix, Step, Enabled, Init, Inv;
    CountNotNegative(c, states, moves, i);
    if k == i {
      HoldingAlong(c, states, moves, t, i);
    } else {
      UnfixRunAlong(c, states, moves, t, i, k - 1);
      var s, choice := states[k - 1], moves[k - 1].choice;
      assert states[k] == Step(c, s, t, choice) && Enabled(c, s, t, choice);
      UnfixStepAlong(c, ViewOf(states[i]), s, t, choice, states[i].pcs[t].slot);
    }
  }

  lemma HoldingAlong(c: Cfg, states: seq<State>, moves: seq<Move>, t: Thread, i: nat)
    requires Run(c, states, moves) && i < |states| && t in states[i].pcs && states[i].pcs[t].at == Holding
    ensures states[i].count >= 0
    ensures AlongUnfix(ViewOf(states[i]), ViewOf(states[i]), states[i].pcs[t], states[i].pcs[t].slot)
  {
    hide EntriesOk, PagesOk, SlotsOk, DirOk, ThreadsOk, Init, Run, Reserving, Occupied;
    RunInv(c, states, moves, i);
  }

  lemma UnfixAlone(c: Cfg, states: seq<State>, moves: seq<Move>, t: Thread, i: nat, k: nat)
    requires Run(c, states, moves) && i <= k < |states|
    requires t in states[i].pcs && states[i].pcs[t].at == Holding
    requires forall m :: i <= m < k ==> moves[m].thread == t && t in states[m].pcs && states[m].pcs[t].at != Idle
    requires t in states[k].pcs && states[k].pcs[t].at == Idle
    ensures states[i].count >= 0 && states[k].count >= 0 && states[i].pcs[t].slot < |states[i].slots|
    ensures ViewOf(states[k]) == Clock.AfterUnfix(ViewOf(states[i]), states[i].pcs[t].slot)
  {
    hide Run, Clock.AfterUnfix;
    UnfixRunAlong(c, states, moves, t, i, k);
  }
}
