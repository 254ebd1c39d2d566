/**
  The invariant of the pager is inductive.
*/
module PagerInduction {
  import opened Common
  import opened LatchWord
  import opened Cells
  import opened PagerSteps
  import opened PagerInvariant
  import opened PagerSafety

  /** What thread t's step at pc may do to the rest of the pager, whatever the step. */
  ghost predicate Moves(c: Cfg, s: State, s': State, t: Thread)
    requires t in s.pcs && s.pcs[t].slot < |s.slots|
  {
    var pc := s.pcs[t];
    && Shape(c, s') && s'.pcs.Keys == s.pcs.Keys && |s'.slots| == |s.slots|
    && (forall j :: 0 <= j < |s.slots| && j != pc.slot ==> s'.slots[j] == s.slots[j])
    && (forall u :: u in s.pcs && u != t ==> s'.pcs[u] == s.pcs[u])
    && MayChange(t, pc, s.slots[pc.slot], s'.slots[pc.slot]) && DirChange(s, s'.dir, pc)
  }

  lemma StepMoves(c: Cfg, s: State, t: Thread, choice: Choice)
    requires Enabled(c, s, t, choice)
    requires StaysInPlace(c, s, t, s.pcs[t], Operation(c, s, s.pcs[t], t, choice))
    ensures Moves(c, s, Step(c, s, t, choice), t) && Shape(c, Step(c, s, t, choice))
  {
    hide Operation, MayChange;
  }

  // ------------------------------------------------------ what a thread is told

  lemma TellsThread(c: Cfg, s: State, t: Thread, choice: Choice)
    requires Inv(c, s) && Enabled(c, s, t, choice)
    ensures Standing(c, s, t, s.pcs[t], choice)
  {
    hide EntriesOk, PagesOk, CountOk, FixOk, CreationOk, FlagsOk, Releasable;
    var pc := s.pcs[t];
    var slot := s.slots[pc.slot];
    assert ThreadOk(s, t) && SlotOk(s, pc.slot);
    assert pc.id in s.dir ==> MappingOk(s, pc.id);
    assert pc.victim in s.dir ==> MappingOk(s, pc.victim);
    if HasPage(pc.at) {
      PageShows(c, s, t);
    }
    if pc.at == EvictCheck && slot.page == pc.victim && slot.owner.Some? {
      var u := slot.owner.value;
      assert ThreadOk(s, u);
      EntryExcludes(c, s, t, u);
    }
  }

  // ------------------------------------------- what other threads rely on stays

  /** A mapping comes or goes only for the entry page of a thread that has its latch
      exclusively, and goes only while nobody has the page. */
  lemma DirSteps(c: Cfg, s: State, dir: map<PageId, nat>, t: Thread)
    requires Inv(c, s) && t in s.pcs && DirChange(s, dir, s.pcs[t])
    ensures dir != s.dir ==> EntryHeld(s.pcs[t].at) == Exclusive
    ensures forall p :: p in s.dir && p != EntryPage(s.pcs[t]) ==> p in dir && dir[p] == s.dir[p]
    ensures forall p :: p in dir && p != EntryPage(s.pcs[t]) ==> p in s.dir
    ensures dir != s.dir && EntryPage(s.pcs[t]) in s.dir ==>
              s.dir[EntryPage(s.pcs[t])] == s.pcs[t].slot && s.slots[s.pcs[t].slot].word == 0
  {
    hide EntriesOk, PagesOk, CountOk, FixOk, CreationOk, FlagsOk;
    assert ThreadOk(s, t) && SlotOk(s, s.pcs[t].slot);
  }

  lemma MappingStays(c: Cfg, s: State, s': State, t: Thread, u: Thread)
    requires Inv(c, s) && t in s.pcs && u in s.pcs && u != t && Moves(c, s, s', t)
    requires Reaches(s.pcs[u].at)
    ensures Maps(s'.dir, s.pcs[u].id, s.pcs[u].slot)
  {
    hide EntriesOk, PagesOk, SlotsOk, CountOk, FixOk, CreationOk, MayChange, Releasable, DirChange;
    var pc := s.pcs[u];
    assert ThreadOk(s, u);
    DirSteps(c, s, s'.dir, t);
    if HasPage(pc.at) {
      PageShows(c, s, u);
      NonZero(s.slots[pc.slot].word, pc.exclusive);
    } else if EntryHeld(s.pcs[t].at) == Exclusive {
      EntryExcludes(c, s, t, u);
    }
  }

  lemma NonZero(word: int, exclusive: bool)
    requires Releasable(word, exclusive)
    ensures word != 0 && (exclusive <==> word == -1)
  {
  }

  /** The mark of a page that u has exclusively is set and removed by u alone. */
  lemma MarkStays(c: Cfg, s: State, s': State, t: Thread, u: Thread)
    requires Inv(c, s) && t in s.pcs && u in s.pcs && u != t && Moves(c, s, s', t)
    requires Reaches(s.pcs[u].at)
    ensures FixOk(s.pcs[u], s'.slots[s.pcs[u].slot])
  {
    hide EntriesOk, PagesOk, CountOk, CreationOk, FlagsOk, DirChange, Releasable;
    var pc := s.pcs[u];
    assert ThreadOk(s, u) && ThreadOk(s, t) && SlotOk(s, pc.slot) && MappingOk(s, pc.id);
    if HasPage(pc.at) {
      PageShows(c, s, u);
    }
  }

  /** A page that u may evict stays where it is ... */
  lemma VictimStays(c: Cfg, s: State, s': State, t: Thread, u: Thread)
    requires Inv(c, s) && t in s.pcs && u in s.pcs && u != t && Moves(c, s, s', t)
    requires Evicting(s.pcs[u].at)
    ensures Maps(s'.dir, s.pcs[u].victim, s.pcs[u].slot)
  {
    hide EntriesOk, PagesOk, SlotsOk, CountOk, CreationOk, FixOk, DirChange, MayChange;
    assert ThreadOk(s, u);
    DirSteps(c, s, s'.dir, t);
    if EntryHeld(s.pcs[t].at) == Exclusive {
      EntryExcludes(c, s, t, u);
    }
  }

  /** Nobody works on a page that may be evicted, and who reaches its slot reaches it. */
  lemma AtVictim(c: Cfg, s: State, u: Thread, t: Thread)
    requires Inv(c, s) && u in s.pcs && t in s.pcs && Evicting(s.pcs[u].at)
    ensures s.slots[s.pcs[u].slot].owner.None?
    ensures Reaches(s.pcs[t].at) && s.pcs[t].slot == s.pcs[u].slot ==>
              EntryPage(s.pcs[t]) == s.pcs[t].id == s.pcs[u].victim == EntryPage(s.pcs[u])
  {
    hide EntriesOk, PagesOk, CountOk, CreationOk, FixOk, FlagsOk, WorksOn;
    assert ThreadOk(s, u) && ThreadOk(s, t) && SlotOk(s, s.pcs[u].slot) && MappingOk(s, s.pcs[u].victim);
    assert s.pcs[t].id in s.dir ==> MappingOk(s, s.pcs[t].id);
  }

  /** While u holds the latch of a free page's entry, nobody can be reaching it. */
  lemma NobodyReaches(c: Cfg, s: State, u: Thread, t: Thread)
    requires Inv(c, s) && u in s.pcs && t in s.pcs && u != t && Evicting(s.pcs[u].at)
    requires s.slots[s.pcs[u].slot].word == 0 && s.pcs[t].slot == s.pcs[u].slot
    ensures !Reaches(s.pcs[t].at)
  {
    hide Inv;
    if Reaches(s.pcs[t].at) {
      AtVictim(c, s, u, t);
      ReachesHolds(c, s, u, t);
    }
  }

  lemma ReachesHolds(c: Cfg, s: State, u: Thread, t: Thread)
    requires Inv(c, s) && u in s.pcs && t in s.pcs && u != t && Evicting(s.pcs[u].at) && Reaches(s.pcs[t].at)
    requires EntryPage(s.pcs[t]) == EntryPage(s.pcs[u])
    ensures s.slots[s.pcs[t].slot].word != 0
  {
    hide EntriesOk, PagesOk, SlotsOk, DirOk, ThreadsOk, CountOk, Releasable;
    if EntryHeld(s.pcs[t].at) != Free {
      EntryExcludes(c, s, u, t);
    } else {
      PageShows(c, s, t);
      NonZero(s.slots[s.pcs[t].slot].word, s.pcs[t].exclusive);
    }
  }

  lemma WordChanges(t: Thread, pc: Pc, a: Slot, b: Slot)
    requires MayChange(t, pc, a, b) && b.word != a.word
    ensures a.owner == Some(t) || Reaches(pc.at)
  {
  }

  /** ... and free once u has found it so. */
  lemma VictimStaysFree(c: Cfg, s: State, s': State, t: Thread, u: Thread)
    requires Inv(c, s) && t in s.pcs && u in s.pcs && u != t && Moves(c, s, s', t)
    requires Evicting(s.pcs[u].at) && s.pcs[u].at != EvictAvail
    ensures s'.slots[s.pcs[u].slot].word == 0
  {
    hide EntriesOk, PagesOk, SlotsOk, DirOk, CountOk, CreationOk, FixOk, DirChange, MayChange, Reaches;
    assert ThreadOk(s, u);
    AtVictim(c, s, u, t);
    var i := s.pcs[t].slot;
    if i == s.pcs[u].slot && s'.slots[i].word != 0 {
      WordChanges(t, s.pcs[t], s.slots[i], s'.slots[i]);
      NobodyReaches(c, s, u, t);
    }
  }

  /** A slot that u works on is changed by u alone. */
  lemma OwnedStays(c: Cfg, s: State, s': State, t: Thread, u: Thread)
    requires Inv(c, s) && t in s.pcs && u in s.pcs && u != t && Moves(c, s, s', t)
    requires Working(s.pcs[u].at)
    ensures s'.slots[s.pcs[u].slot] == s.slots[s.pcs[u].slot]
  {
    hide EntriesOk, PagesOk, CountOk, CreationOk, FixOk, FlagsOk, DirChange;
    assert ThreadOk(s, u) && ThreadOk(s, t) && SlotOk(s, s.pcs[u].slot);
    if s.pcs[t].slot == s.pcs[u].slot {
      NotAtOwned(c, s, t);
    }
  }

  lemma OthersRely(c: Cfg, s: State, s': State, t: Thread, u: Thread)
    requires Inv(c, s) && t in s.pcs && u in s.pcs && u != t && Moves(c, s, s', t)
    ensures ThreadOk(s', u)
  {
    hide EntriesOk, PagesOk, CountOk, CreationOk, FixOk, SlotFits, DirChange, MayChange;
    var pc := s.pcs[u];
    assert ThreadOk(s, u) && SlotOk(s, pc.slot);
    if Reaches(pc.at) {
      MappingStays(c, s, s', t, u);
      MarkStays(c, s, s', t, u);
    }
    if Evicting(pc.at) {
      VictimStays(c, s, s', t, u);
      if pc.at != EvictAvail {
        VictimStaysFree(c, s, s', t, u);
      }
    }
    if Working(pc.at) {
      OwnedStays(c, s, s', t, u);
    }
    if pc.at == CreateNext || pc.at == CreateClaim {
      DirSteps(c, s, s'.dir, t);
      if EntryHeld(s.pcs[t].at) == Exclusive {
        EntryExcludes(c, s, t, u);
      }
    }
  }

  // ------------------------------------------------------------ slots and mappings

  lemma SlotsStay(c: Cfg, s: State, s': State, t: Thread, e: Effect)
    requires Inv(c, s) && t in s.pcs && Moves(c, s, s', t)
    requires e.slot == s'.slots[s.pcs[t].slot] && e.pc == s'.pcs[t] && e.dir == s'.dir
    requires SlotNext(t, s.pcs[t], s.slots[s.pcs[t].slot], e)
    ensures SlotsOk(s')
  {
    hide EntriesOk, PagesOk, CountOk, FlagsOk, DirChange, MayChange, CreationOk, FixOk;
    var i := s.pcs[t].slot;
    forall j | 0 <= j < |s'.slots| ensures SlotOk(s', j) {
      assert SlotOk(s, j);
      if j == i {
        OwnSlot(c, s, s', t, e);
      } else {
        DirSteps(c, s, s'.dir, t);
        OtherSlot(c, s, s', t, j);
      }
    }
  }

  lemma OwnSlot(c: Cfg, s: State, s': State, t: Thread, e: Effect)
    requires Inv(c, s) && t in s.pcs && Moves(c, s, s', t)
    requires e.slot == s'.slots[s.pcs[t].slot] && e.pc == s'.pcs[t] && e.dir == s'.dir
    requires SlotNext(t, s.pcs[t], s.slots[s.pcs[t].slot], e)
    ensures SlotOk(s', s.pcs[t].slot)
  {
    hide EntriesOk, PagesOk, CountOk, FlagsOk, DirChange, CreationOk, FixOk, SlotFits;
    assert SlotOk(s, s.pcs[t].slot) && ThreadOk(s, t);
    var slot := s.slots[s.pcs[t].slot];
    if slot.owner.Some? && slot.owner != Some(t) {
      NotAtOwned(c, s, t);
    }
  }

  /** A thread does not change a slot that another thread works on. */
  lemma NotAtOwned(c: Cfg, s: State, t: Thread)
    requires Inv(c, s) && t in s.pcs
    ensures var slot := s.slots[s.pcs[t].slot];
            slot.owner.Some? && slot.owner != Some(t) ==>
              slot.page != 0 && !Reaches(s.pcs[t].at) && !Evicting(s.pcs[t].at)
  {
    hide EntriesOk, PagesOk, CountOk, FlagsOk, CreationOk, FixOk;
    assert SlotOk(s, s.pcs[t].slot) && ThreadOk(s, t);
    var pc := s.pcs[t];
    assert pc.id in s.dir ==> MappingOk(s, pc.id);
    assert pc.victim in s.dir ==> MappingOk(s, pc.victim);
  }

  lemma OtherSlot(c: Cfg, s: State, s': State, t: Thread, j: nat)
    requires Inv(c, s) && t in s.pcs && Moves(c, s, s', t) && j < c.size && j != s.pcs[t].slot
    ensures SlotOk(s', j)
  {
    hide EntriesOk, PagesOk, CountOk, FlagsOk, DirChange, MayChange, CreationOk, FixOk;
    assert SlotOk(s, j);
    DirSteps(c, s, s'.dir, t);
    var slot := s.slots[j];
    if s'.dir != s.dir && slot.page == EntryPage(s.pcs[t]) && slot.owner.Some? {
      var u := slot.owner.value;
      EntryExcludes(c, s, t, u);
    }
  }

  lemma DirStays(c: Cfg, s: State, s': State, t: Thread, e: Effect)
    requires Inv(c, s) && t in s.pcs && Moves(c, s, s', t)
    requires e.slot == s'.slots[s.pcs[t].slot] && e.pc == s'.pcs[t] && e.dir == s'.dir
    requires SlotNext(t, s.pcs[t], s.slots[s.pcs[t].slot], e)
    ensures DirOk(s')
  {
    hide Inv, MayChange, DirChange, SlotNext, MappingOk;
    forall p | p in s'.dir ensures MappingOk(s', p) {
      if p in s.dir {
        MappedStays(c, s, s', t, p);
      } else {
        NewMapping(c, s, s', t, e, p);
      }
    }
  }

  lemma MappedStays(c: Cfg, s: State, s': State, t: Thread, p: PageId)
    requires Inv(c, s) && t in s.pcs && Moves(c, s, s', t) && p in s.dir && p in s'.dir
    ensures MappingOk(s', p)
  {
    hide EntriesOk, PagesOk, CountOk, FlagsOk, FixOk, WorksOn, CreationOk, DirChange;
    assert MappingOk(s, p) && SlotOk(s, s.dir[p]);
    DirSteps(c, s, s'.dir, t);
    StillMapped(c, s, s'.dir, t, p);
  }

  /** A mapping that stays leads to the same slot. */
  lemma StillMapped(c: Cfg, s: State, dir: map<PageId, nat>, t: Thread, p: PageId)
    requires Inv(c, s) && t in s.pcs && DirChange(s, dir, s.pcs[t]) && p in s.dir && p in dir
    ensures dir[p] == s.dir[p]
  {
    hide EntriesOk, PagesOk, CountOk, FlagsOk, FixOk, CreationOk;
    assert ThreadOk(s, t) && SlotOk(s, s.pcs[t].slot);
  }

  lemma NewMapping(c: Cfg, s: State, s': State, t: Thread, e: Effect, p: PageId)
    requires Inv(c, s) && t in s.pcs && Moves(c, s, s', t) && p in s'.dir && p !in s.dir
    requires e.slot == s'.slots[s.pcs[t].slot] && SlotNext(t, s.pcs[t], s.slots[s.pcs[t].slot], e)
    ensures MappingOk(s', p)
  {
    hide EntriesOk, PagesOk, SlotsOk, DirOk, CountOk, FlagsOk, FixOk, WorksOn, MayChange, SlotFits;
    assert ThreadOk(s, t);
  }

  // ------------------------------------------------------------------ latches

  lemma EntriesStay(c: Cfg, s: State, t: Thread, e: Effect)
    requires Shape(c, s) && EntriesOk(c, s) && t in s.pcs && EntryFollows(c, s, s.pcs[t], e)
    ensures EntriesOk(c, Apply(c, s, t, e))
  {
    hide Agrees, Follows, EntryHeld, EntryPage;
    var pc, s' := s.pcs[t], Apply(c, s, t, e);
    forall b | 0 <= b < c.buckets ensures Agrees(s'.entries[b], EntryModes(c, s'.pcs, b)) {
      var h := EntryModes(c, s.pcs, b);
      assert EntryModes(c, s'.pcs, b) == h[t := EntryMode(c, e.pc, b)];
      if b == EntryOf(c, pc) {
        FollowsKeeps(s.entries[b], e.entry, h, t, EntryHeld(e.pc.at));
      } else {
        assert EntryModes(c, s'.pcs, b) == h;
      }
    }
  }

  lemma PagesStay(c: Cfg, s: State, t: Thread, e: Effect)
    requires Inv(c, s) && t in s.pcs && PageFollows(s.pcs[t], s.slots[s.pcs[t].slot], e)
    ensures PagesOk(Apply(c, s, t, e))
  {
    hide Agrees, Follows, HasPage, EntriesOk, CountOk, SlotsOk, DirOk, Relies;
    var pc, s' := s.pcs[t], Apply(c, s, t, e);
    var i := pc.slot;
    forall j | 0 <= j < |s'.slots| && s'.slots[j].present && !s'.slots[j].raw
      ensures Agrees(s'.slots[j].word, PageModes(s'.pcs, j))
    {
      var h := PageModes(s.pcs, j);
      assert PageModes(s'.pcs, j) == h[t := PageMode(e.pc, j)];
      if j != i || pc.at == CreateAlloc {
        assert PageModes(s'.pcs, j) == h;
      } else if pc.at == CreateInit {
        NobodyAtNew(c, s, t);
        AllFree(PageModes(s'.pcs, j));
      } else {
        FollowsKeeps(s.slots[i].word, e.slot.word, h, t, PageMode(e.pc, i));
      }
    }
  }

  lemma AllFree(h: Modes)
    requires forall t :: t in h ==> h[t] == Free
    ensures Agrees(0, h)
  {
    assert Sharers(h) == {};
  }

  /** Nobody has the page latch that `latch_init` is about to reset. */
  lemma NobodyAtNew(c: Cfg, s: State, t: Thread)
    requires Inv(c, s) && t in s.pcs && s.pcs[t].at == CreateInit
    ensures forall u :: u in s.pcs ==> PageMode(s.pcs[u], s.pcs[t].slot) == Free
    ensures forall u :: u in s.pcs && s.pcs[u].slot == s.pcs[t].slot ==> !Reaches(s.pcs[u].at)
  {
    hide EntriesOk, PagesOk, CountOk, FlagsOk, FixOk;
    assert ThreadOk(s, t) && SlotOk(s, s.pcs[t].slot);
    forall u | u in s.pcs && s.pcs[u].slot == s.pcs[t].slot ensures !Reaches(s.pcs[u].at) {
      assert ThreadOk(s, u);
      assert s.pcs[u].id in s.dir ==> MappingOk(s, s.pcs[u].id);
    }
  }

  // ---------------------------------------------------------------- reservations

  /** Two sets that differ in one element at most. */
  lemma SizeAfter(a: set<nat>, b: set<nat>, x: nat)
    requires a - {x} == b - {x}
    ensures |b| == |a| + One(x in b) - One(x in a)
  {
    assert |a| == |a - {x}| + One(x in a) && |b| == |b - {x}| + One(x in b);
  }

  lemma OccupiedAfter(slots: seq<Slot>, i: nat, slot: Slot)
    requires i < |slots|
    ensures |Occupied(slots[i := slot])| == |Occupied(slots)| + One(slot.page != 0) - One(slots[i].page != 0)
  {
    SizeAfter(Occupied(slots), Occupied(slots[i := slot]), i);
  }

  lemma ReservingAfter(pcs: map<Thread, Pc>, t: Thread, pc: Pc)
    requires t in pcs
    ensures |Reserving(pcs[t := pc])| == |Reserving(pcs)| + One(Reserved(pc.at)) - One(Reserved(pcs[t].at))
  {
    hide Reserved;
    SizeAfter(Reserving(pcs), Reserving(pcs[t := pc]), t);
  }

  lemma CountStays(c: Cfg, s: State, t: Thread, e: Effect)
    requires Inv(c, s) && t in s.pcs && CountFollows(c, s, s.pcs[t], e)
    ensures CountOk(c, Apply(c, s, t, e))
  {
    hide EntriesOk, PagesOk, SlotsOk, DirOk, ThreadsOk, Occupied, Reserving, Reserved;
    OccupiedAfter(s.slots, s.pcs[t].slot, e.slot);
    ReservingAfter(s.pcs, t, e.pc);
  }

  // -------------------------------------------------------------------- together

  /** The invariant is inductive. */
  lemma StepKeepsInv(c: Cfg, s: State, t: Thread, choice: Choice)
    requires Inv(c, s) && Enabled(c, s, t, choice)
    ensures Inv(c, Step(c, s, t, choice)) && Moves(c, s, Step(c, s, t, choice), t)
  {
    hide EntriesOk, PagesOk, SlotsOk, DirOk, CountOk, Operation, Moves, Standing, MayChange, DirChange, Relies;
    var e := Operation(c, s, s.pcs[t], t, choice);
    TellsThread(c, s, t, choice);
    OperationFollows(c, s, t, s.pcs[t], choice);
    StepMoves(c, s, t, choice);
    var s' := Step(c, s, t, choice);
    SlotsStay(c, s, s', t, e);
    DirStays(c, s, s', t, e);
    EntriesStay(c, s, t, e);
    PagesStay(c, s, t, e);
    CountStays(c, s, t, e);
    ThreadsStay(c, s, s', t, e);
  }

  lemma ThreadsStay(c: Cfg, s: State, s': State, t: Thread, e: Effect)
    requires Inv(c, s) && t in s.pcs && Moves(c, s, s', t)
    requires e.slot == s'.slots[s.pcs[t].slot] && e.pc == s'.pcs[t] && e.dir == s'.dir
    requires e.pc.slot < |s.slots| && ReliesNext(s, t, s.pcs[t], e)
    ensures ThreadsOk(s')
  {
    hide EntriesOk, PagesOk, SlotsOk, DirOk, CountOk, MayChange, DirChange, Relies;
    forall u | u in s'.pcs ensures ThreadOk(s', u) {
      if u != t {
        OthersRely(c, s, s', t, u);
      }
    }
  }
}
