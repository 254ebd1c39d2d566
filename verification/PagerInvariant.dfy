/**
  What holds of the pager between any two steps of any threads.
*/
module PagerInvariant {
  import opened Common
  import opened LatchWord
  import opened Cells
  import opened PagerSteps

  // -------------------------------------------------- who holds which latch

  /** How a thread holds the latch of the directory entry of its `EntryPage`. */
  function EntryHeld(at: At): Mode {
    match at
    case FastLook | FastPage | FastMark | FastDone | FastLeave => Shared
    case EvictCheck | EvictBack | EvictAvail | EvictFlags | EvictClear | EvictSkip => Exclusive
    case EvictRemove | EvictFree | EvictDone => Exclusive
    case SlowLook | SlowPage | SlowMark | SlowUnreserve | SlowDone => Exclusive
    case CreateNext | CreateClaim | CreateAlloc | CreateId | CreateFlags | CreateInit | CreateInsert => Exclusive
    case CreateUndo | CreateFailed | FailLeave | NewPage | NewMark => Exclusive
    case _ => Free
  }

  function EntryMode(c: Cfg, pc: Pc, b: nat): Mode {
    if c.hash(EntryPage(pc)) == b then EntryHeld(pc.at) else Free
  }

  function EntryModes(c: Cfg, pcs: map<Thread, Pc>, b: nat): (h: Modes)
    ensures h.Keys == pcs.Keys
  {
    map t | t in pcs :: EntryMode(c, pcs[t], b)
  }

  /** The thread has the latch of the page at its slot, shared or exclusive as asked. */
  predicate HasPage(at: At) {
    match at
    case FastMark | FastDone | SlowMark | SlowUnreserve | SlowDone | NewMark => true
    case Holding | UnfixStore | UnfixWrite | UnfixOr | UnfixRead => true
    case _ => false
  }

  function PageMode(pc: Pc, i: nat): Mode {
    if pc.slot == i && HasPage(pc.at) then Held(pc.exclusive) else Free
  }

  function PageModes(pcs: map<Thread, Pc>, i: nat): (h: Modes)
    ensures h.Keys == pcs.Keys
  {
    map t | t in pcs :: PageMode(pcs[t], i)
  }

  // ------------------------------------------------------------ where threads are

  /** The thread holds or waits for the page that it fixes. */
  predicate Reaches(at: At) {
    HasPage(at) || at == FastPage || at == SlowPage || at == NewPage
  }

  /** The mark of an exclusive fix has been set and not yet been removed. */
  predicate Marked(at: At) {
    match at
    case FastDone | SlowUnreserve | SlowDone | Holding | UnfixStore => true
    case _ => false
  }

  predicate Marking(at: At) {
    match at
    case FastMark | SlowMark | NewMark => true
    case _ => false
  }

  /** A page was found that may be evicted. */
  predicate Evicting(at: At) {
    match at
    case EvictAvail | EvictFlags | EvictClear | EvictRemove => true
    case _ => false
  }

  /** A slot is being filled or emptied. */
  predicate Working(at: At) {
    match at
    case CreateAlloc | CreateId | CreateFlags | CreateInit | CreateInsert | CreateUndo | EvictFree => true
    case _ => false
  }

  /** The thread has counted a page that is not in the ring yet. */
  predicate Reserved(at: At) {
    match at
    case SlowLatch | SlowLook | SlowPage | SlowMark | SlowUnreserve | EvictDone | CreateNext => true
    case CreateClaim | CreateFailed => true
    case _ => false
  }

  // ---------------------------------------------------------------- invariant

  ghost predicate EntriesOk(c: Cfg, s: State) {
    && |s.entries| == c.buckets
    && forall b :: 0 <= b < c.buckets ==> Agrees(s.entries[b], EntryModes(c, s.pcs, b))
  }

  ghost predicate PagesOk(s: State) {
    forall i :: 0 <= i < |s.slots| && s.slots[i].present && !s.slots[i].raw ==>
                  Agrees(s.slots[i].word, PageModes(s.pcs, i))
  }

  /** A marked page is latched exclusively. */
  predicate FlagsOk(slot: Slot) {
    slot.present && !slot.raw && slot.flags.exclusive ==> slot.word == -1
  }

  /** A slot is empty, or mapped, or some thread is at work on it. */
  predicate SlotFits(slot: Slot, i: nat, dir: map<PageId, nat>) {
    && FlagsOk(slot)
    && (slot.page == 0 ==> slot.owner.None?)
    && (slot.page != 0 && slot.owner.None? ==> Maps(dir, slot.page, i))
    && (slot.owner.Some? ==> slot.page !in dir)
  }

  predicate WorksOn(pc: Pc, slot: Slot, i: nat) {
    Working(pc.at) && pc.slot == i && slot.page == EntryPage(pc)
  }

  predicate SlotOk(s: State, i: nat)
    requires i < |s.slots|
  {
    var slot := s.slots[i];
    && SlotFits(slot, i, s.dir)
    && (slot.owner.Some? ==> slot.owner.value in s.pcs && WorksOn(s.pcs[slot.owner.value], slot, i))
  }

  predicate SlotsOk(s: State) {
    forall i :: 0 <= i < |s.slots| ==> SlotOk(s, i)
  }

  predicate MappingOk(s: State, p: PageId)
    requires p in s.dir
  {
    && p != 0 && s.dir[p] < |s.slots|
    && var slot := s.slots[s.dir[p]];
       slot.page == p == slot.id && slot.present && !slot.raw
  }

  predicate DirOk(s: State) {
    forall p :: p in s.dir ==> MappingOk(s, p)
  }

  predicate Maps(dir: map<PageId, nat>, p: PageId, i: nat) {
    p in dir && dir[p] == i
  }

  /** What a thread can rely on, by where it is, about its slot and the directory. */
  predicate Relies(t: Thread, pc: Pc, slot: Slot, dir: map<PageId, nat>) {
    && (pc.at != Idle ==> pc.id != 0)
    && (Reaches(pc.at) ==> Maps(dir, pc.id, pc.slot) && FixOk(pc, slot))
    && (EntryHeld(pc.at) != Free ==> EntryPage(pc) != 0)
    && (pc.at == EvictLatch ==> pc.victim != 0)
    && (Evicting(pc.at) ==> Maps(dir, pc.victim, pc.slot) && (pc.at != EvictAvail ==> slot.word == 0))
    && ((pc.at == CreateNext || pc.at == CreateClaim) ==> pc.id !in dir)
    && (Working(pc.at) ==> slot.owner == Some(t) && slot.page == EntryPage(pc) && CreationOk(pc, slot))
  }

  predicate ThreadOk(s: State, t: Thread)
    requires t in s.pcs && s.pcs[t].slot < |s.slots|
  {
    Relies(t, s.pcs[t], s.slots[s.pcs[t].slot], s.dir)
  }

  /** The mark of the page, for a thread that fixes it. */
  predicate FixOk(pc: Pc, slot: Slot) {
    && (Marked(pc.at) && pc.exclusive ==> slot.flags.exclusive)
    && (Marking(pc.at) || pc.at == UnfixWrite ==> pc.exclusive && !slot.flags.exclusive)
    && (pc.at == UnfixStore ==> pc.exclusive)
    && ((pc.at == UnfixOr || pc.at == UnfixRead) ==> !pc.exclusive)
  }

  predicate CreationOk(pc: Pc, slot: Slot) {
    && ((pc.at == CreateId || pc.at == CreateFlags || pc.at == CreateInit || pc.at == CreateInsert) ==> slot.present)
    && ((pc.at == CreateFlags || pc.at == CreateInit || pc.at == CreateInsert) ==> slot.id == pc.id)
    && ((pc.at == CreateInit || pc.at == CreateInsert) ==> !slot.flags.exclusive)
    && (pc.at == CreateInsert ==> !slot.raw)
  }

  predicate ThreadsOk(s: State)
    requires forall t :: t in s.pcs ==> s.pcs[t].slot < |s.slots|
  {
    forall t :: t in s.pcs ==> ThreadOk(s, t)
  }

  function Occupied(slots: seq<Slot>): set<nat> {
    set i | 0 <= i < |slots| && slots[i].page != 0
  }

  function Reserving(pcs: map<Thread, Pc>): set<Thread> {
    set t | t in pcs && Reserved(pcs[t].at)
  }

  /** Reservations are conserved. */
  predicate CountOk(c: Cfg, s: State) {
    s.count == |Occupied(s.slots)| + |Reserving(s.pcs)| <= c.size - 1
  }

  ghost predicate Inv(c: Cfg, s: State) {
    && Shape(c, s) && EntriesOk(c, s) && PagesOk(s)
    && SlotsOk(s) && DirOk(s) && ThreadsOk(s) && CountOk(c, s)
  }

  // ------------------------------------------------------------ consequences

  /** Two threads of which one has an entry latch exclusively do not both hold it. */
  lemma EntryExcludes(c: Cfg, s: State, t: Thread, u: Thread)
    requires Shape(c, s) && EntriesOk(c, s) && t in s.pcs && u in s.pcs && t != u
    requires EntryHeld(s.pcs[t].at) == Exclusive && EntryHeld(s.pcs[u].at) != Free
    ensures c.hash(EntryPage(s.pcs[t])) != c.hash(EntryPage(s.pcs[u]))
  {
    hide Agrees;
    var b := c.hash(EntryPage(s.pcs[t]));
    var h := EntryModes(c, s.pcs, b);
    assert h[t] == Exclusive;
    Holds(s.entries[b], h, t);
    assert h[u] == EntryMode(c, s.pcs[u], b);
  }

  /** A thread with a page latch shows in the word. */
  lemma PageShows(c: Cfg, s: State, t: Thread)
    requires Shape(c, s) && PagesOk(s) && DirOk(s) && ThreadsOk(s)
    requires t in s.pcs && HasPage(s.pcs[t].at)
    ensures var pc := s.pcs[t]; var slot := s.slots[pc.slot];
            && Releasable(slot.word, pc.exclusive) && slot.page == pc.id && slot.present && !slot.raw
            && forall u :: u in s.pcs && u != t && s.pcs[u].slot == pc.slot && HasPage(s.pcs[u].at) ==>
                             !pc.exclusive && !s.pcs[u].exclusive
  {
    hide Agrees, FixOk, CreationOk;
    var pc := s.pcs[t];
    assert ThreadOk(s, t) && MappingOk(s, pc.id);
    var h := PageModes(s.pcs, pc.slot);
    assert h[t] == Held(pc.exclusive);
    Holds(s.slots[pc.slot].word, h, t);
    forall u | u in s.pcs && u != t && s.pcs[u].slot == pc.slot && HasPage(s.pcs[u].at)
      ensures !pc.exclusive && !s.pcs[u].exclusive
    {
      assert h[u] == Held(s.pcs[u].exclusive);
    }
  }

  /** No page is in two slots. */
  lemma OneSlotPerPage(c: Cfg, s: State, i: nat, j: nat)
    requires Inv(c, s) && i < c.size && j < c.size
    requires s.slots[i].page == s.slots[j].page != 0
    ensures i == j
  {
    hide Agrees, FlagsOk, CreationOk, FixOk, CountOk, PagesOk, EntriesOk;
    assert SlotOk(s, i) && SlotOk(s, j);
    if s.slots[i].page !in s.dir {
      var t, u := s.slots[i].owner.value, s.slots[j].owner.value;
      if t != u {
        assert ThreadOk(s, t) && ThreadOk(s, u);
        EntryExcludes(c, s, t, u);
      }
    }
  }

  /** A page that is in the ring but not in the directory belongs to a thread that has
      its entry latch exclusively. */
  lemma UnmappedIsOwned(c: Cfg, s: State, i: nat)
    requires Inv(c, s) && i < c.size && s.slots[i].page != 0 && s.slots[i].page !in s.dir
    ensures exists t :: t in s.pcs && EntryHeld(s.pcs[t].at) == Exclusive && EntryPage(s.pcs[t]) == s.slots[i].page
                        && Working(s.pcs[t].at) && s.pcs[t].slot == i
  {
    hide Agrees, FlagsOk, CreationOk, FixOk, CountOk, PagesOk, EntriesOk;
    assert SlotOk(s, i);
    var t := s.slots[i].owner.value;
    assert ThreadOk(s, t);
  }
}
