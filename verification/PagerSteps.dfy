/**
  The pager of src/pager.c as a step relation: any number of threads that fix and
  unfix pages, one atomic operation a step. What a latch protects is read or written
  in one step; a latch is taken in the step in which its compare-and-swap succeeds,
  see `Latch.Atomic`.

  A thread here has one page at a time; who fixes several pages is several threads.
*/
module PagerSteps {
  import opened Common
  import opened LatchWord
  import opened Cells

  datatype Flags = Flags(dirty: bool, ref: bool, exclusive: bool)

  /** A slot of the ring with the header that, once allocated, stays with it. Two
      fields exist only in the proofs: the thread that is about to finish or undo the
      creation or eviction of the page, and whether the header is still as `malloc`
      returned it. */
  datatype Slot = Slot(page: PageId, present: bool, id: PageId, word: int, flags: Flags,
                       owner: Option<Thread>, raw: bool)

  /** The number of ring slots and of directory entries, and the hash function. */
  datatype Cfg = Cfg(size: nat, buckets: nat, hash: PageId -> nat)
  {
    ghost predicate Ok() {
      size >= 2 && forall id :: hash(id) < buckets
    }
  }

  /** The atomic operation that a thread does next. */
  datatype At =
    | Idle
    // fast pass
    | FastLatch | FastLook | FastPage | FastMark | FastDone | FastLeave
    // reservation
    | CountLoad | CountTry
    // eviction
    | EvictNext | EvictLoad | EvictLatch | EvictCheck | EvictBack
    | EvictAvail | EvictFlags | EvictClear | EvictSkip
    | EvictRemove | EvictFree | EvictDone
    // second lookup
    | SlowLatch | SlowLook | SlowPage | SlowMark | SlowUnreserve | SlowDone
    // creation
    | CreateNext | CreateClaim | CreateAlloc | CreateId | CreateFlags | CreateInit | CreateInsert
    | CreateUndo | CreateFailed | FailLeave | NewPage | NewMark
    // page in use
    | Holding | UnfixStore | UnfixWrite | UnfixOr | UnfixRead

  /** A thread: the page that it fixes and how, the slot that it is at, and in an
      eviction the page that it looks at, the page that it found there instead, and the
      number of tries. `seen` is the count that it last saw. */
  datatype Pc = Pc(at: At, id: PageId, exclusive: bool, slot: nat, victim: PageId, other: PageId, seen: int, tries: nat)

  datatype State = State(slots: seq<Slot>, entries: seq<int>, dir: map<PageId, nat>, count: int,
                         evictHead: nat, createHead: nat, pcs: map<Thread, Pc>)

  /** What a step does not decide: the arguments of a call, whether a weak
      compare-and-swap or an allocation fails, and the bytes of new memory. */
  datatype Choice = Choice(id: PageId, exclusive: bool, fails: bool, word: int, flags: Flags)

  ghost predicate Shape(c: Cfg, s: State) {
    && c.Ok() && |s.slots| == c.size && |s.entries| == c.buckets
    && (forall p :: p in s.dir ==> s.dir[p] < c.size)
    && (forall t :: t in s.pcs ==> s.pcs[t].slot < c.size)
  }

  /** The entry latch that the thread holds or asks for is that of this page. */
  function EntryPage(pc: Pc): PageId {
    match pc.at
    case EvictLatch | EvictCheck | EvictBack | EvictAvail | EvictFlags => pc.victim
    case EvictClear | EvictSkip | EvictRemove | EvictFree | EvictDone => pc.victim
    case _ => pc.id
  }

  /** A thread that waits for a latch has no step. */
  ghost predicate Enabled(c: Cfg, s: State, t: Thread, choice: Choice) {
    && Shape(c, s) && t in s.pcs
    && match s.pcs[t].at
       case Idle => choice.id != 0
       case FastLatch => Takeable(s.entries[c.hash(s.pcs[t].id)], false)
       case SlowLatch => Takeable(s.entries[c.hash(s.pcs[t].id)], true)
       case EvictLatch => Takeable(s.entries[c.hash(s.pcs[t].victim)], true)
       case FastPage => Takeable(s.slots[s.pcs[t].slot].word, s.pcs[t].exclusive)
       case SlowPage => Takeable(s.slots[s.pcs[t].slot].word, s.pcs[t].exclusive)
       case NewPage => Takeable(s.slots[s.pcs[t].slot].word, s.pcs[t].exclusive)
       case _ => true
  }

  /** What one atomic operation of a thread leaves behind: the thread, the slot that it
      was at, the word of its entry latch, and the rest of the pager. */
  datatype Effect = Effect(pc: Pc, slot: Slot, entry: int, dir: map<PageId, nat>, count: int,
                           evictHead: nat, createHead: nat)

  function EntryOf(c: Cfg, pc: Pc): nat {
    c.hash(EntryPage(pc))
  }

  function Unchanged(c: Cfg, s: State, pc: Pc): Effect
    requires pc.slot < |s.slots| && EntryOf(c, pc) < |s.entries|
  {
    Effect(pc, s.slots[pc.slot], s.entries[EntryOf(c, pc)], s.dir, s.count, s.evictHead, s.createHead)
  }

  function Apply(c: Cfg, s: State, t: Thread, e: Effect): State
    requires t in s.pcs && s.pcs[t].slot < |s.slots| && EntryOf(c, s.pcs[t]) < |s.entries|
  {
    var pc := s.pcs[t];
    State(s.slots[pc.slot := e.slot], s.entries[EntryOf(c, pc) := e.entry], e.dir, e.count,
          e.evictHead, e.createHead, s.pcs[t := e.pc])
  }

  /** One atomic operation of thread t. */
  function Step(c: Cfg, s: State, t: Thread, choice: Choice): State
    requires Enabled(c, s, t, choice)
  {
    Apply(c, s, t, Operation(c, s, s.pcs[t], t, choice))
  }

  /** The operation of a thread that is at pc. */
  function Operation(c: Cfg, s: State, pc: Pc, t: Thread, choice: Choice): Effect
    requires Shape(c, s) && pc.slot < |s.slots|
  {
    match FunctionOf(pc.at)
    case Fix => FixOperation(c, s, pc, choice)
    case Reserve => ReserveOperation(c, s, pc, choice)
    case Enter => EnterOperation(c, s, pc)
    case Claim => ClaimOperation(c, s, pc, t, choice)
    case Create => CreateOperation(c, s, pc, choice)
    case FindEntry => FindEntryOperation(c, s, pc)
    case Evict => EvictOperation(c, s, pc, t)
    case Unfix => UnfixOperation(c, s, pc)
  }

  datatype Function = Fix | Reserve | Enter | Claim | Create | FindEntry | Evict | Unfix

  function FunctionOf(at: At): Function {
    match at
    case Idle | FastLatch | FastLook | FastPage | FastMark | FastDone | FastLeave => Fix
    case CreateNext | CreateClaim | CreateAlloc => Claim
    case CreateId | CreateFlags | CreateInit | CreateInsert | CreateUndo => Create
    case EvictNext | EvictLoad | EvictLatch | EvictCheck | EvictBack => FindEntry
    case EvictAvail | EvictFlags | EvictClear | EvictSkip | EvictRemove | EvictFree | EvictDone => Evict
    case Holding | UnfixStore | UnfixWrite | UnfixOr | UnfixRead => Unfix
    case CountLoad | CountTry => Reserve
    case _ => Enter
  }

  /** `pager_fix`, the fast pass. */
  function FixOperation(c: Cfg, s: State, pc: Pc, choice: Choice): Effect
    requires Shape(c, s) && pc.slot < |s.slots|
  {
    var e := Unchanged(c, s, pc);
    match pc.at
    case Idle => e.(pc := pc.(at := FastLatch, id := choice.id, exclusive := choice.exclusive))
    case FastLatch => e.(pc := pc.(at := FastLook), entry := Taken(e.entry, false))
    case FastLook =>
      if pc.id in s.dir then e.(pc := pc.(at := FastPage, slot := s.dir[pc.id])) else e.(pc := pc.(at := FastLeave))
    case FastPage => Lock(e, FastMark, FastDone)
    case FastMark => Mark(e, FastDone)
    case FastDone => e.(pc := pc.(at := Holding), entry := Released(e.entry, false))
    case FastLeave => e.(pc := pc.(at := CountLoad), entry := Released(e.entry, false))
    case _ => e
  }

  /** The reservation. */
  function ReserveOperation(c: Cfg, s: State, pc: Pc, choice: Choice): Effect
    requires Shape(c, s) && pc.slot < |s.slots|
  {
    var e := Unchanged(c, s, pc);
    match pc.at
    case CountLoad => e.(pc := pc.(at := CountTry, seen := s.count))
    case CountTry =>
      if pc.seen >= c.size - 1 then e.(pc := pc.(at := EvictNext, tries := 0))
      else if s.count == pc.seen && !choice.fails then e.(pc := pc.(at := SlowLatch), count := s.count + 1)
      else e.(pc := pc.(seen := s.count))
    case _ => e
  }

  /** `pager_fix` after the reservation, but for `pager_create`. */
  function EnterOperation(c: Cfg, s: State, pc: Pc): Effect
    requires Shape(c, s) && pc.slot < |s.slots|
  {
    var e := Unchanged(c, s, pc);
    match pc.at
    case SlowLatch => e.(pc := pc.(at := SlowLook), entry := Taken(e.entry, true))
    case SlowLook =>
      if pc.id in s.dir then e.(pc := pc.(at := SlowPage, slot := s.dir[pc.id])) else e.(pc := pc.(at := CreateNext))
    case SlowPage => Lock(e, SlowMark, SlowUnreserve)
    case SlowMark => Mark(e, SlowUnreserve)
    case SlowUnreserve => e.(pc := pc.(at := SlowDone), count := s.count - 1)
    case SlowDone => e.(pc := pc.(at := Holding), entry := Released(e.entry, true))
    case CreateFailed => e.(pc := pc.(at := FailLeave), count := s.count - 1)
    case FailLeave => e.(pc := pc.(at := Idle), entry := Released(e.entry, true))
    case NewPage => Lock(e, NewMark, SlowDone)
    case NewMark => Mark(e, SlowDone)
    case _ => e
  }

  /** `pager_create` until there is a slot and a header for the page. */
  function ClaimOperation(c: Cfg, s: State, pc: Pc, t: Thread, choice: Choice): Effect
    requires Shape(c, s) && pc.slot < |s.slots|
  {
    var e := Unchanged(c, s, pc);
    var slot := e.slot;
    match pc.at
    case CreateNext => e.(pc := pc.(at := CreateClaim, slot := s.createHead % c.size), createHead := s.createHead + 1)
    case CreateClaim =>
      if slot.page == 0 && !choice.fails then
        e.(pc := pc.(at := CreateAlloc), slot := slot.(page := pc.id, owner := Some(t)))
      else e.(pc := pc.(at := CreateNext))
    case CreateAlloc =>
      if slot.present then e.(pc := pc.(at := CreateId))
      else if choice.fails then e.(pc := pc.(at := CreateUndo))
      else e.(pc := pc.(at := CreateId),
              slot := slot.(present := true, raw := true, id := choice.id, word := choice.word, flags := choice.flags))
    case _ => e
  }

  /** The rest of `pager_create`. */
  function CreateOperation(c: Cfg, s: State, pc: Pc, choice: Choice): Effect
    requires Shape(c, s) && pc.slot < |s.slots|
  {
    var e := Unchanged(c, s, pc);
    var slot := e.slot;
    match pc.at
    case CreateId => e.(pc := pc.(at := CreateFlags), slot := slot.(id := pc.id))
    case CreateFlags => e.(pc := pc.(at := CreateInit), slot := slot.(flags := Flags(false, false, false)))
    case CreateInit => e.(pc := pc.(at := CreateInsert), slot := slot.(word := 0, raw := false))
    case CreateInsert =>
      if choice.fails then e.(pc := pc.(at := CreateUndo))
      else e.(pc := pc.(at := NewPage), slot := slot.(owner := None), dir := s.dir[slot.id := pc.slot])
    case CreateUndo => e.(pc := pc.(at := CreateFailed), slot := slot.(page := 0, owner := None))
    case _ => e
  }

  /** `pager_evict` up to and with `pager_directory_find_entry`. */
  function FindEntryOperation(c: Cfg, s: State, pc: Pc): Effect
    requires Shape(c, s) && pc.slot < |s.slots|
  {
    var e := Unchanged(c, s, pc);
    var slot := e.slot;
    match pc.at
    case EvictNext =>
      if pc.tries >= c.size * 2 then e.(pc := pc.(at := Idle))
      else e.(pc := pc.(at := EvictLoad, slot := s.evictHead % c.size, tries := pc.tries + 1),
              evictHead := s.evictHead + 1)
    case EvictLoad =>
      if slot.page == 0 then e.(pc := pc.(at := EvictNext)) else e.(pc := pc.(at := EvictLatch, victim := slot.page))
    case EvictLatch => e.(pc := pc.(at := EvictCheck), entry := Taken(e.entry, true))
    case EvictCheck =>
      if slot.page == pc.victim then e.(pc := pc.(at := EvictAvail))
      else e.(pc := pc.(at := EvictBack, other := slot.page))
    case EvictBack =>
      if pc.other == 0 then e.(pc := pc.(at := EvictNext), entry := Released(e.entry, true))
      else e.(pc := pc.(at := EvictLatch, victim := pc.other), entry := Released(e.entry, true))
    case _ => e
  }

  /** The rest of `pager_evict`. */
  function EvictOperation(c: Cfg, s: State, pc: Pc, t: Thread): Effect
    requires Shape(c, s) && pc.slot < |s.slots|
  {
    var e := Unchanged(c, s, pc);
    var slot := e.slot;
    match pc.at
    case EvictAvail => e.(pc := pc.(at := if slot.word == 0 then EvictFlags else EvictSkip))
    case EvictFlags => e.(pc := pc.(at := if slot.flags.ref then EvictClear else EvictRemove))
    case EvictClear => e.(pc := pc.(at := EvictSkip), slot := slot.(flags := slot.flags.(ref := false)))
    case EvictSkip => e.(pc := pc.(at := EvictNext), entry := Released(e.entry, true))
    case EvictRemove => e.(pc := pc.(at := EvictFree), slot := slot.(owner := Some(t)), dir := s.dir - {slot.page})
    case EvictFree => e.(pc := pc.(at := EvictDone), slot := slot.(page := 0, owner := None))
    case EvictDone => e.(pc := pc.(at := SlowLatch), entry := Released(e.entry, true))
    case _ => e
  }

  /** `pager_unfix`. */
  function UnfixOperation(c: Cfg, s: State, pc: Pc): Effect
    requires Shape(c, s) && pc.slot < |s.slots|
  {
    var e := Unchanged(c, s, pc);
    var slot := e.slot;
    match pc.at
    case Holding => e.(pc := pc.(at := if slot.flags.exclusive then UnfixStore else UnfixOr))
    case UnfixStore => e.(pc := pc.(at := UnfixWrite), slot := slot.(flags := Flags(true, true, false)))
    case UnfixWrite => e.(pc := pc.(at := Idle), slot := slot.(word := Released(slot.word, true)))
    case UnfixOr => e.(pc := pc.(at := UnfixRead), slot := slot.(flags := slot.flags.(ref := true)))
    case UnfixRead => e.(pc := pc.(at := Idle), slot := slot.(word := Released(slot.word, false)))
    case _ => e
  }

  /** `latch_acquire` of the page. */
  function Lock(e: Effect, marks: At, done: At): Effect {
    e.(pc := e.pc.(at := if e.pc.exclusive then marks else done),
       slot := e.slot.(word := Taken(e.slot.word, e.pc.exclusive)))
  }

  /** The page is marked as fixed exclusively. */
  function Mark(e: Effect, done: At): Effect {
    e.(pc := e.pc.(at := done), slot := e.slot.(flags := e.slot.flags.(exclusive := true)))
  }
}
