/**
  What the pager promises in every run, whatever the interleaving.
*/
module PagerRuns {
  import opened Common
  import opened LatchWord
  import opened Cells
  import opened PagerSteps
  import opened PagerInvariant
  import opened PagerSafety
  import opened PagerInduction

  /** After `pager_open`. */
  ghost predicate Init(c: Cfg, s: State) {
    && c.Ok() && |s.slots| == c.size && |s.entries| == c.buckets && s.dir == map[] && s.count == 0
    && (forall i :: 0 <= i < c.size ==> s.slots[i].page == 0 && s.slots[i].owner.None? && !s.slots[i].present)
    && (forall b :: 0 <= b < c.buckets ==> s.entries[b] == 0)
    && (forall t :: t in s.pcs ==> s.pcs[t].at == Idle && s.pcs[t].slot < c.size)
  }

  datatype Move = Move(thread: Thread, choice: Choice)

  ghost predicate Run(c: Cfg, states: seq<State>, moves: seq<Move>) {
    && |states| == |moves| + 1 && Init(c, states[0])
    && forall i :: 0 <= i < |moves| ==>
                     && Enabled(c, states[i], moves[i].thread, moves[i].choice)
                     && states[i + 1] == Step(c, states[i], moves[i].thread, moves[i].choice)
  }

  lemma InitInv(c: Cfg, s: State)
    requires Init(c, s)
    ensures Inv(c, s)
  {
    forall b | 0 <= b < c.buckets ensures Agrees(s.entries[b], EntryModes(c, s.pcs, b)) {
      AllFree(EntryModes(c, s.pcs, b));
    }
    assert Occupied(s.slots) == {} && Reserving(s.pcs) == {};
  }

  lemma {:induction false} RunInv(c: Cfg, states: seq<State>, moves: seq<Move>, i: nat)
    requires Run(c, states, moves) && i < |states|
    ensures Inv(c, states[i])
  {
    hide Inv, Init, Enabled, Step;
    if i == 0 {
      InitInv(c, states[0]);
    } else {
      RunInv(c, states, moves, i - 1);
      StepKeepsInv(c, states[i - 1], moves[i - 1].thread, moves[i - 1].choice);
    }
  }

  // ------------------------------------------------- pages in use are not evicted

  /** The next operation of a thread at pc takes part in creating or evicting the page
      of slot i. */
  predicate Recycles(pc: Pc, i: nat) {
    pc.slot == i && (Working(pc.at) || pc.at == EvictRemove)
  }

  /** A page that a thread holds or waits for is mapped to its slot, under its id, and
      nobody is about to evict or re-create it. */
  ghost predicate InPlace(c: Cfg, s: State, id: PageId, i: nat) {
    && i < |s.slots| && Maps(s.dir, id, i) && s.slots[i].page == id == s.slots[i].id
    && forall u :: u in s.pcs ==> !Recycles(s.pcs[u], i)
  }

  lemma UsedIsInPlace(c: Cfg, s: State, t: Thread)
    requires Inv(c, s) && t in s.pcs && Reaches(s.pcs[t].at)
    ensures InPlace(c, s, s.pcs[t].id, s.pcs[t].slot)
  {
    hide EntriesOk, PagesOk, CountOk, FixOk, CreationOk, FlagsOk, Releasable;
    var pc := s.pcs[t];
    assert ThreadOk(s, t) && MappingOk(s, pc.id);
    if HasPage(pc.at) {
      PageShows(c, s, t);
      NonZero(s.slots[pc.slot].word, pc.exclusive);
    }
    forall u | u in s.pcs ensures !Recycles(s.pcs[u], pc.slot) {
      assert ThreadOk(s, u) && SlotOk(s, pc.slot);
      if u != t && s.pcs[u].at == EvictRemove && s.pcs[u].slot == pc.slot && !HasPage(pc.at) {
        EntryExcludes(c, s, u, t);
      }
    }
  }

  /** A thread goes on with the same page until it has let go of it. */
  lemma SamePage(c: Cfg, s: State, t: Thread, choice: Choice)
    requires Enabled(c, s, t, choice)
    requires Reaches(s.pcs[t].at) && Reaches(Step(c, s, t, choice).pcs[t].at)
    ensures Step(c, s, t, choice).pcs[t].id == s.pcs[t].id
    ensures Step(c, s, t, choice).pcs[t].slot == s.pcs[t].slot
  {
    hide ReserveOperation, ClaimOperation, CreateOperation, FindEntryOperation, EvictOperation;
  }

  /** From the moment a thread reaches a page until it unfixes it, in every
      interleaving: the directory, the ring and the header keep the page where it is,
      and no step evicts it, re-creates it or initialises its latch. */
  lemma {:induction false} FixedPageStays(c: Cfg, states: seq<State>, moves: seq<Move>, t: Thread, i: nat, j: nat)
    requires Run(c, states, moves) && i <= j < |states|
    requires forall k :: i <= k <= j ==> t in states[k].pcs && Reaches(states[k].pcs[t].at)
    ensures states[j].pcs[t].id == states[i].pcs[t].id && states[j].pcs[t].slot == states[i].pcs[t].slot
    ensures forall k :: i <= k <= j ==> InPlace(c, states[k], states[i].pcs[t].id, states[i].pcs[t].slot)
  {
    hide Inv, InPlace, Init, Enabled, Step, Reaches;
    RunInv(c, states, moves, j);
    UsedIsInPlace(c, states[j], t);
    if i < j {
      FixedPageStays(c, states, moves, t, i, j - 1);
      RunInv(c, states, moves, j - 1);
      var u := moves[j - 1].thread;
      assert states[j] == Step(c, states[j - 1], u, moves[j - 1].choice);
      if u == t {
        SamePage(c, states[j - 1], t, moves[j - 1].choice);
      } else {
        StepKeepsInv(c, states[j - 1], u, moves[j - 1].choice);
        assert states[j].pcs[t] == states[j - 1].pcs[t];
      }
    }
  }

  // ------------------------------------------------------ ring and directory agree

  /** A page id whose directory entry is not write-latched is in the directory exactly
      if it is in the ring, once, and the header there has the same id. */
  lemma RingMatchesDirectory(c: Cfg, states: seq<State>, moves: seq<Move>, k: nat, p: PageId)
    requires Run(c, states, moves) && k < |states| && p != 0
    ensures Inv(c, states[k])
    ensures var s := states[k];
            && (forall i, j :: 0 <= i < c.size && 0 <= j < c.size && s.slots[i].page == s.slots[j].page == p ==> i == j)
            && (p in s.dir ==> s.dir[p] < c.size && s.slots[s.dir[p]].page == p == s.slots[s.dir[p]].id)
            && (s.entries[c.hash(p)] != -1 ==> (p in s.dir <==> exists i :: 0 <= i < c.size && s.slots[i].page == p))
  {
    hide EntriesOk, PagesOk, CountOk, SlotsOk, ThreadsOk, Init, Run;
    RunInv(c, states, moves, k);
    var s := states[k];
    forall i, j | 0 <= i < c.size && 0 <= j < c.size && s.slots[i].page == s.slots[j].page == p ensures i == j {
      OneSlotPerPage(c, s, i, j);
    }
    if p in s.dir {
      assert MappingOk(s, p);
    } else if i :| 0 <= i < c.size && s.slots[i].page == p {
      UnmappedIsOwned(c, s, i);
      var t :| t in s.pcs && EntryHeld(s.pcs[t].at) == Exclusive && EntryPage(s.pcs[t]) == p;
      EntryShows(c, s, t);
    }
  }

  /** Who holds an entry latch shows in its word; so the assertions of the latch and of
      the directory functions hold. */
  lemma EntryShows(c: Cfg, s: State, t: Thread)
    requires Inv(c, s) && t in s.pcs && EntryHeld(s.pcs[t].at) != Free
    ensures var word := s.entries[EntryOf(c, s.pcs[t])];
            if EntryHeld(s.pcs[t].at) == Exclusive then word == -1 else word > 0
  {
    hide Agrees, EntryHeld, EntryPage, PagesOk, SlotsOk, ThreadsOk, DirOk, CountOk;
    var b := EntryOf(c, s.pcs[t]);
    Holds(s.entries[b], EntryModes(c, s.pcs, b), t);
  }

  // ---------------------------------------------------------------- page latches

  /** Two threads with the same page have the same header, and both share it. */
  lemma PageExclusion(c: Cfg, states: seq<State>, moves: seq<Move>, k: nat, t: Thread, u: Thread)
    requires Run(c, states, moves) && k < |states| && t in states[k].pcs && u in states[k].pcs && t != u
    requires HasPage(states[k].pcs[t].at) && HasPage(states[k].pcs[u].at)
    requires states[k].pcs[t].id == states[k].pcs[u].id
    ensures states[k].pcs[t].slot == states[k].pcs[u].slot
    ensures !states[k].pcs[t].exclusive && !states[k].pcs[u].exclusive
  {
    hide EntriesOk, PagesOk, CountOk, SlotsOk, Init, Run, FixOk, CreationOk;
    RunInv(c, states, moves, k);
    var s := states[k];
    assert ThreadOk(s, t) && ThreadOk(s, u);
    PageShows(c, s, t);
  }

  /** The EXCLUSIVE flag is set exactly while some thread has the page, marked, from an
      exclusive fix, and then the page latch is -1. */
  lemma ExclusiveFlag(c: Cfg, states: seq<State>, moves: seq<Move>, k: nat, i: nat)
    requires Run(c, states, moves) && k < |states| && i < c.size
    ensures Inv(c, states[k])
    ensures var s := states[k]; var slot := s.slots[i];
            slot.present && !slot.raw ==>
              && (slot.flags.exclusive <==> exists t :: t in s.pcs && MarkedAt(s.pcs[t], i))
              && (slot.flags.exclusive ==> slot.word == -1)
  {
    hide EntriesOk, CountOk, Init, Run, Agrees, CreationOk;
    RunInv(c, states, moves, k);
    var s := states[k];
    var slot := s.slots[i];
    assert SlotOk(s, i);
    if slot.present && !slot.raw && slot.flags.exclusive {
      var h := PageModes(s.pcs, i);
      Meaning(slot.word, h);
      var t :| t in h && h[t] == Exclusive;
      assert ThreadOk(s, t) && MarkedAt(s.pcs[t], i);
    }
    if t :| t in s.pcs && MarkedAt(s.pcs[t], i) {
      assert ThreadOk(s, t);
    }
  }

  predicate MarkedAt(pc: Pc, i: nat) {
    pc.slot == i && Marked(pc.at) && pc.exclusive
  }

  /** `pager_unfix` takes the branch of the mode in which the page was fixed, and the
      assertion of the release there holds. */
  lemma UnfixAgrees(c: Cfg, states: seq<State>, moves: seq<Move>, k: nat, t: Thread)
    requires Run(c, states, moves) && k < |states| && t in states[k].pcs
    ensures Inv(c, states[k])
    ensures var pc := states[k].pcs[t]; var slot := states[k].slots[pc.slot];
            && (pc.at == Holding ==> (slot.flags.exclusive <==> pc.exclusive))
            && (pc.at == UnfixStore || pc.at == UnfixWrite ==> pc.exclusive && slot.word == -1)
            && (pc.at == UnfixOr || pc.at == UnfixRead ==> !pc.exclusive && slot.word > 0)
  {
    hide EntriesOk, PagesOk, CountOk, SlotsOk, DirOk, Init, Run, Relies;
    RunInv(c, states, moves, k);
    if HasPage(states[k].pcs[t].at) {
      PageShows(c, states[k], t);
      ReachedPage(c, states[k], t);
    }
  }

  // -------------------------------------------------------------------- waiting

  /** Thread u has a latch that t waits for, in a mode that excludes t. */
  predicate Blocks(c: Cfg, t: Pc, u: Pc) {
    match t.at
    case FastLatch => EntryHeld(u.at) == Exclusive && EntryOf(c, u) == EntryOf(c, t)
    case SlowLatch | EvictLatch => EntryHeld(u.at) != Free && EntryOf(c, u) == EntryOf(c, t)
    case FastPage | SlowPage | NewPage =>
      HasPage(u.at) && u.slot == t.slot && u.id == t.id && (t.exclusive || u.exclusive)
    case _ => false
  }

  /** No latch is left taken: a thread that has no step waits for a thread that has the
      latch. */
  lemma WaitsForHolder(c: Cfg, states: seq<State>, moves: seq<Move>, k: nat, t: Thread)
    requires Run(c, states, moves) && k < |states| && t in states[k].pcs
    requires forall choice: Choice :: choice.id != 0 ==> !Enabled(c, states[k], t, choice)
    ensures exists u :: u in states[k].pcs && u != t && Blocks(c, states[k].pcs[t], states[k].pcs[u])
  {
    hide Init, Run, Agrees, Takeable, PagesOk, EntriesOk, SlotsOk, DirOk, CountOk, Relies;
    RunInv(c, states, moves, k);
    var s := states[k];
    var pc := s.pcs[t];
    assert !Enabled(c, s, t, Choice(1, false, false, 0, Flags(false, false, false)));
    if pc.at == FastPage || pc.at == SlowPage || pc.at == NewPage {
      PageHolder(c, s, t);
    } else {
      EntryHolder(c, s, t, pc.at != FastLatch);
    }
  }

  lemma EntryHolder(c: Cfg, s: State, t: Thread, exclusive: bool)
    requires Inv(c, s) && t in s.pcs && EntryHeld(s.pcs[t].at) == Free
    requires !Takeable(s.entries[EntryOf(c, s.pcs[t])], exclusive)
    ensures exists u :: u in s.pcs && u != t && EntryHeld(s.pcs[u].at) != Free
              && EntryOf(c, s.pcs[u]) == EntryOf(c, s.pcs[t])
                        && (!exclusive ==> EntryHeld(s.pcs[u].at) == Exclusive)
  {
    hide Agrees, EntryHeld, EntryPage, PagesOk, SlotsOk, ThreadsOk, DirOk, CountOk;
    var b := EntryOf(c, s.pcs[t]);
    var h := EntryModes(c, s.pcs, b);
    Meaning(s.entries[b], h);
    var u :| u in h && h[u] != Free && (!exclusive ==> h[u] == Exclusive);
    assert h[u] == EntryMode(c, s.pcs[u], b);
  }

  lemma PageHolder(c: Cfg, s: State, t: Thread)
    requires Inv(c, s) && t in s.pcs && Reaches(s.pcs[t].at) && !HasPage(s.pcs[t].at)
    requires !Takeable(s.slots[s.pcs[t].slot].word, s.pcs[t].exclusive)
    ensures exists u :: u in s.pcs && u != t && HasPage(s.pcs[u].at) && s.pcs[u].slot == s.pcs[t].slot
                        && s.pcs[u].id == s.pcs[t].id && (s.pcs[t].exclusive || s.pcs[u].exclusive)
  {
    hide Agrees, EntriesOk, SlotsOk, CountOk, DirOk, Relies;
    var pc := s.pcs[t];
    ReachedPage(c, s, t);
    var h := PageModes(s.pcs, pc.slot);
    Meaning(s.slots[pc.slot].word, h);
    var u :| u in h && h[u] != Free && (!pc.exclusive ==> h[u] == Exclusive);
    assert h[u] == PageMode(s.pcs[u], pc.slot);
    ReachedPage(c, s, u);
  }

  lemma ReachedPage(c: Cfg, s: State, t: Thread)
    requires Inv(c, s) && t in s.pcs && Reaches(s.pcs[t].at)
    ensures var slot := s.slots[s.pcs[t].slot];
            slot.page == s.pcs[t].id && slot.present && !slot.raw && FixOk(s.pcs[t], slot) && FlagsOk(slot)
  {
    hide EntriesOk, PagesOk, CountOk, FixOk, CreationOk, FlagsOk;
    assert ThreadOk(s, t) && MappingOk(s, s.pcs[t].id) && SlotOk(s, s.pcs[t].slot);
  }

  // ---------------------------------------------------------------- reservations

  function Below(n: nat): (r: set<nat>)
    ensures |r| == n && forall i :: i in r <==> 0 <= i < n
  {
    if n == 0 then {} else Below(n - 1) + {n - 1}
  }

  function FreeSlots(slots: seq<Slot>): set<nat> {
    set i | 0 <= i < |slots| && slots[i].page == 0
  }

  lemma FreeOrOccupied(slots: seq<Slot>)
    ensures |FreeSlots(slots)| == |slots| - |Occupied(slots)|
  {
    assert FreeSlots(slots) == Below(|slots|) - Occupied(slots);
    assert Occupied(slots) <= Below(|slots|);
    assert FreeSlots(slots) + Occupied(slots) == Below(|slots|);
  }

  /** `page_count` is the number of pages in the ring and of reservations, at most
      size - 1; so there are more free slots than reservations, and a thread in
      `pager_create` that looks for one has one to find. */
  lemma Conservation(c: Cfg, states: seq<State>, moves: seq<Move>, k: nat)
    requires Run(c, states, moves) && k < |states|
    ensures Inv(c, states[k])
    ensures var s := states[k];
            && s.count == |Occupied(s.slots)| + |Reserving(s.pcs)| <= c.size - 1
            && |FreeSlots(s.slots)| > |Reserving(s.pcs)|
            && exists i :: 0 <= i < c.size && s.slots[i].page == 0
  {
    hide EntriesOk, PagesOk, SlotsOk, DirOk, ThreadsOk, Init, Run, Reserving, Occupied;
    RunInv(c, states, moves, k);
    FreeOrOccupied(states[k].slots);
    var i :| i in FreeSlots(states[k].slots);
  }

  // ------------------------------------------------- calls of the directory functions

  /** The directory is written only under the exclusive entry latch; an insert is of a
      nonzero id that is not there, and a removal of one that is. */
  lemma DirectoryCalls(c: Cfg, states: seq<State>, moves: seq<Move>, k: nat, t: Thread)
    requires Run(c, states, moves) && k < |states| && t in states[k].pcs
    ensures Inv(c, states[k])
    ensures var s := states[k]; var pc := s.pcs[t];
            && (pc.at == FastLook ==> s.entries[c.hash(pc.id)] > 0)
            && (pc.at == SlowLook || pc.at == CreateInsert ==> s.entries[c.hash(pc.id)] == -1)
            && (pc.at == EvictRemove ==> s.entries[c.hash(pc.victim)] == -1)
            && (pc.at == CreateInsert ==> s.slots[pc.slot].id == pc.id != 0 && pc.id !in s.dir)
            && (pc.at == EvictRemove ==> s.slots[pc.slot].page == pc.victim && pc.victim in s.dir)
  {
    hide EntriesOk, PagesOk, CountOk, Init, Run, FixOk;
    RunInv(c, states, moves, k);
    var s := states[k];
    var pc := s.pcs[t];
    assert ThreadOk(s, t) && SlotOk(s, pc.slot);
    assert pc.victim in s.dir ==> MappingOk(s, pc.victim);
    if EntryHeld(pc.at) != Free {
      EntryShows(c, s, t);
    }
  }
}
