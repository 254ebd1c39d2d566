/**
  Every step of every thread keeps the invariant. A step touches one slot, one
  directory mapping and one entry latch at most, and only what its thread may touch;
  what other threads rely on stays.
*/
module PagerSafety {
  import opened Common
  import opened LatchWord
  import opened Cells
  import opened PagerSteps
  import opened PagerInvariant

  /** How thread t, at pc in slot i, may change the slot from a to b. */
  predicate MayChange(t: Thread, pc: Pc, a: Slot, b: Slot) {
    || b == a
    || a.owner == Some(t)
    || (Reaches(pc.at) && b == a.(word := b.word, flags := b.flags)
        && (b.flags.exclusive != a.flags.exclusive ==> HasPage(pc.at) && pc.exclusive))
    || (Evicting(pc.at) && b == a.(flags := b.flags, owner := b.owner)
        && b.flags.exclusive == a.flags.exclusive)
    || (pc.at == CreateClaim && a.page == 0 && b == a.(page := pc.id, owner := Some(t)))
  }

  /** Mappings come and go only under the exclusive entry latch, and go only while
      nobody has the page. */
  predicate DirChange(s: State, dir: map<PageId, nat>, pc: Pc)
    requires pc.slot < |s.slots|
  {
    || dir == s.dir
    || (pc.at == CreateInsert && dir == s.dir[EntryPage(pc) := pc.slot])
    || (pc.at == EvictRemove && dir == s.dir - {EntryPage(pc)} && s.slots[pc.slot].word == 0)
  }

  // ---------------------------------------------------- one operation, locally

  /** What the rest of the pager tells a thread about its slot. */
  predicate Told(t: Thread, pc: Pc, slot: Slot, dir: map<PageId, nat>) {
    && SlotFits(slot, pc.slot, dir)
    && (slot.owner == Some(t) ==> WorksOn(pc, slot, pc.slot))
    && (Reaches(pc.at) ==> slot.present && !slot.raw && slot.page == pc.id)
    && (HasPage(pc.at) ==> Releasable(slot.word, pc.exclusive))
    && (pc.at == EvictCheck && slot.page == pc.victim ==> Maps(dir, pc.victim, pc.slot))
    && (Evicting(pc.at) ==> slot.page == pc.victim)
  }

  /** The entry latch follows the thread. */
  predicate EntryFollows(c: Cfg, s: State, pc: Pc, e: Effect)
    requires EntryOf(c, pc) < |s.entries|
  {
    && Follows(s.entries[EntryOf(c, pc)], e.entry, EntryHeld(pc.at), EntryHeld(e.pc.at))
    && (EntryHeld(e.pc.at) != Free ==> EntryPage(e.pc) == EntryPage(pc))
  }

  function Has(pc: Pc): Mode {
    if HasPage(pc.at) then Held(pc.exclusive) else Free
  }

  /** The page latch follows the thread, once the header is initialised. */
  predicate PageFollows(pc: Pc, slot: Slot, e: Effect) {
    && (pc.at != CreateAlloc && pc.at != CreateInit ==>
          && e.slot.present == slot.present && e.slot.raw == slot.raw
          && Follows(slot.word, e.slot.word, Has(pc), Has(e.pc)))
    && (pc.at == CreateAlloc && !e.slot.raw ==> e.slot == slot)
    && (pc.at == CreateInit ==> e.slot.word == 0)
    && (pc.at == CreateAlloc || pc.at == CreateInit || e.pc.slot != pc.slot ==> !HasPage(e.pc.at) && !HasPage(pc.at))
  }

  function One(b: bool): int {
    if b then 1 else 0
  }

  predicate CountFollows(c: Cfg, s: State, pc: Pc, e: Effect)
    requires pc.slot < |s.slots|
  {
    var slot := s.slots[pc.slot];
    && e.count - s.count == One(Reserved(e.pc.at)) - One(Reserved(pc.at)) + One(e.slot.page != 0) - One(slot.page != 0)
    && (e.count <= s.count || e.count <= c.size - 1)
  }

  predicate StaysInPlace(c: Cfg, s: State, t: Thread, pc: Pc, e: Effect)
    requires pc.slot < |s.slots|
  {
    && e.pc.slot < c.size
    && MayChange(t, pc, s.slots[pc.slot], e.slot) && DirChange(s, e.dir, pc)
    && (e.pc.slot != pc.slot ==> e.slot == s.slots[pc.slot])
  }

  function NextSlot(s: State, pc: Pc, e: Effect): Slot
    requires e.pc.slot < |s.slots|
  {
    if e.pc.slot == pc.slot then e.slot else s.slots[e.pc.slot]
  }

  predicate ReliesNext(s: State, t: Thread, pc: Pc, e: Effect)
    requires e.pc.slot < |s.slots|
  {
    Relies(t, e.pc, NextSlot(s, pc, e), e.dir)
  }

  ghost predicate Standing(c: Cfg, s: State, t: Thread, pc: Pc, choice: Choice) {
    && Enabled(c, s, t, choice) && pc == s.pcs[t]
    && pc.slot < |s.slots| == c.size && EntryOf(c, pc) < |s.entries|
    && Relies(t, pc, s.slots[pc.slot], s.dir) && Told(t, pc, s.slots[pc.slot], s.dir)
  }

  /** The slot is in order after the step. */
  predicate SlotNext(t: Thread, pc: Pc, slot: Slot, e: Effect) {
    && SlotFits(e.slot, pc.slot, e.dir)
    && (e.slot.owner == Some(t) ==> WorksOn(e.pc, e.slot, pc.slot))
    && (e.slot.owner == Some(t) || e.slot.owner == None || e.slot.owner == slot.owner)
    && (pc.at == CreateInsert ==> e.slot == slot.(owner := e.slot.owner))
  }

  predicate Follow(c: Cfg, s: State, t: Thread, pc: Pc, e: Effect)
    requires pc.slot < |s.slots| && EntryOf(c, pc) < |s.entries|
  {
    EntryFollows(c, s, pc, e) && CountFollows(c, s, pc, e) && StaysInPlace(c, s, t, pc, e)
  }

  lemma FixFollows(c: Cfg, s: State, t: Thread, pc: Pc, choice: Choice)
    requires Standing(c, s, t, pc, choice) && FunctionOf(pc.at) == Fix
    ensures Follow(c, s, t, pc, FixOperation(c, s, pc, choice))
  {
    hide EntryFollows, CountFollows, StaysInPlace;
    FixEntry(c, s, t, pc, choice);
    FixCounts(c, s, t, pc, choice);
    FixStays(c, s, t, pc, choice);
  }

  lemma FixEntry(c: Cfg, s: State, t: Thread, pc: Pc, choice: Choice)
    requires Standing(c, s, t, pc, choice) && FunctionOf(pc.at) == Fix
    ensures EntryFollows(c, s, pc, FixOperation(c, s, pc, choice))
  {
    hide Relies, Told;
  }

  lemma FixCounts(c: Cfg, s: State, t: Thread, pc: Pc, choice: Choice)
    requires Standing(c, s, t, pc, choice) && FunctionOf(pc.at) == Fix
    ensures CountFollows(c, s, pc, FixOperation(c, s, pc, choice))
  {
    hide Told, FixOk, Maps;
  }

  lemma FixStays(c: Cfg, s: State, t: Thread, pc: Pc, choice: Choice)
    requires Standing(c, s, t, pc, choice) && FunctionOf(pc.at) == Fix
    ensures StaysInPlace(c, s, t, pc, FixOperation(c, s, pc, choice))
  {
    hide SlotFits, WorksOn;
  }

  lemma FixSlot(c: Cfg, s: State, t: Thread, pc: Pc, choice: Choice)
    requires Standing(c, s, t, pc, choice) && FunctionOf(pc.at) == Fix
    ensures SlotNext(t, pc, s.slots[pc.slot], FixOperation(c, s, pc, choice))
  {
  }

  lemma FixPage(c: Cfg, s: State, t: Thread, pc: Pc, choice: Choice)
    requires Standing(c, s, t, pc, choice) && FunctionOf(pc.at) == Fix
    ensures PageFollows(pc, s.slots[pc.slot], FixOperation(c, s, pc, choice))
  {
  }

  lemma FixRelies(c: Cfg, s: State, t: Thread, pc: Pc, choice: Choice)
    requires Standing(c, s, t, pc, choice) && FunctionOf(pc.at) == Fix
    ensures FixOperation(c, s, pc, choice).pc.slot < c.size
    ensures ReliesNext(s, t, pc, FixOperation(c, s, pc, choice))
  {
    var e := FixOperation(c, s, pc, choice);
    assert FixOk(e.pc, NextSlot(s, pc, e));
    assert CreationOk(e.pc, NextSlot(s, pc, e));
    hide FixOk, CreationOk;
  }

  lemma ReserveFollows(c: Cfg, s: State, t: Thread, pc: Pc, choice: Choice)
    requires Standing(c, s, t, pc, choice) && FunctionOf(pc.at) == Reserve
    ensures Follow(c, s, t, pc, ReserveOperation(c, s, pc, choice))
  {
  }

  lemma ReserveSlot(c: Cfg, s: State, t: Thread, pc: Pc, choice: Choice)
    requires Standing(c, s, t, pc, choice) && FunctionOf(pc.at) == Reserve
    ensures SlotNext(t, pc, s.slots[pc.slot], ReserveOperation(c, s, pc, choice))
  {
  }

  lemma ReservePage(c: Cfg, s: State, t: Thread, pc: Pc, choice: Choice)
    requires Standing(c, s, t, pc, choice) && FunctionOf(pc.at) == Reserve
    ensures PageFollows(pc, s.slots[pc.slot], ReserveOperation(c, s, pc, choice))
  {
  }

  lemma ReserveRelies(c: Cfg, s: State, t: Thread, pc: Pc, choice: Choice)
    requires Standing(c, s, t, pc, choice) && FunctionOf(pc.at) == Reserve
    ensures ReserveOperation(c, s, pc, choice).pc.slot < c.size
    ensures ReliesNext(s, t, pc, ReserveOperation(c, s, pc, choice))
  {
    var e := ReserveOperation(c, s, pc, choice);
    assert FixOk(e.pc, NextSlot(s, pc, e));
    assert CreationOk(e.pc, NextSlot(s, pc, e));
    hide FixOk, CreationOk;
  }

  lemma EnterFollows(c: Cfg, s: State, t: Thread, pc: Pc, choice: Choice)
    requires Standing(c, s, t, pc, choice) && FunctionOf(pc.at) == Enter
    ensures Follow(c, s, t, pc, EnterOperation(c, s, pc))
  {
    hide EntryFollows, CountFollows, StaysInPlace;
    EnterEntry(c, s, t, pc, choice);
    EnterCounts(c, s, t, pc, choice);
    EnterStays(c, s, t, pc, choice);
  }

  lemma EnterEntry(c: Cfg, s: State, t: Thread, pc: Pc, choice: Choice)
    requires Standing(c, s, t, pc, choice) && FunctionOf(pc.at) == Enter
    ensures EntryFollows(c, s, pc, EnterOperation(c, s, pc))
  {
    hide Relies, Told;
  }

  lemma EnterCounts(c: Cfg, s: State, t: Thread, pc: Pc, choice: Choice)
    requires Standing(c, s, t, pc, choice) && FunctionOf(pc.at) == Enter
    ensures CountFollows(c, s, pc, EnterOperation(c, s, pc))
  {
    hide Told, FixOk, Maps;
  }

  lemma EnterStays(c: Cfg, s: State, t: Thread, pc: Pc, choice: Choice)
    requires Standing(c, s, t, pc, choice) && FunctionOf(pc.at) == Enter
    ensures StaysInPlace(c, s, t, pc, EnterOperation(c, s, pc))
  {
    hide SlotFits, WorksOn;
  }

  lemma EnterSlot(c: Cfg, s: State, t: Thread, pc: Pc, choice: Choice)
    requires Standing(c, s, t, pc, choice) && FunctionOf(pc.at) == Enter
    ensures SlotNext(t, pc, s.slots[pc.slot], EnterOperation(c, s, pc))
  {
  }

  lemma EnterPage(c: Cfg, s: State, t: Thread, pc: Pc, choice: Choice)
    requires Standing(c, s, t, pc, choice) && FunctionOf(pc.at) == Enter
    ensures PageFollows(pc, s.slots[pc.slot], EnterOperation(c, s, pc))
  {
  }

  lemma EnterRelies(c: Cfg, s: State, t: Thread, pc: Pc, choice: Choice)
    requires Standing(c, s, t, pc, choice) && FunctionOf(pc.at) == Enter
    ensures EnterOperation(c, s, pc).pc.slot < c.size
    ensures ReliesNext(s, t, pc, EnterOperation(c, s, pc))
  {
    hide FixOk, CreationOk, Told, Standing;
    EnterMarks(c, s, t, pc, choice);
  }

  lemma EnterMarks(c: Cfg, s: State, t: Thread, pc: Pc, choice: Choice)
    requires Standing(c, s, t, pc, choice) && FunctionOf(pc.at) == Enter
    ensures Shape(c, s) && pc.slot < c.size && Relies(t, pc, s.slots[pc.slot], s.dir)
    ensures var e := EnterOperation(c, s, pc);
            e.pc.slot < c.size && FixOk(e.pc, NextSlot(s, pc, e)) && CreationOk(e.pc, NextSlot(s, pc, e))
  {
  }

  lemma ClaimFollows(c: Cfg, s: State, t: Thread, pc: Pc, choice: Choice)
    requires Standing(c, s, t, pc, choice) && FunctionOf(pc.at) == Claim
    ensures Follow(c, s, t, pc, ClaimOperation(c, s, pc, t, choice))
  {
    hide EntryFollows, CountFollows, StaysInPlace;
    ClaimEntry(c, s, t, pc, choice);
    ClaimCounts(c, s, t, pc, choice);
    ClaimStays(c, s, t, pc, choice);
  }

  lemma ClaimEntry(c: Cfg, s: State, t: Thread, pc: Pc, choice: Choice)
    requires Standing(c, s, t, pc, choice) && FunctionOf(pc.at) == Claim
    ensures EntryFollows(c, s, pc, ClaimOperation(c, s, pc, t, choice))
  {
    hide Relies, Told;
  }

  lemma ClaimCounts(c: Cfg, s: State, t: Thread, pc: Pc, choice: Choice)
    requires Standing(c, s, t, pc, choice) && FunctionOf(pc.at) == Claim
    ensures CountFollows(c, s, pc, ClaimOperation(c, s, pc, t, choice))
  {
    hide Told, FixOk, Maps;
  }

  lemma ClaimStays(c: Cfg, s: State, t: Thread, pc: Pc, choice: Choice)
    requires Standing(c, s, t, pc, choice) && FunctionOf(pc.at) == Claim
    ensures StaysInPlace(c, s, t, pc, ClaimOperation(c, s, pc, t, choice))
  {
    hide SlotFits, WorksOn;
  }

  lemma ClaimSlot(c: Cfg, s: State, t: Thread, pc: Pc, choice: Choice)
    requires Standing(c, s, t, pc, choice) && FunctionOf(pc.at) == Claim
    ensures SlotNext(t, pc, s.slots[pc.slot], ClaimOperation(c, s, pc, t, choice))
  {
  }

  lemma ClaimPage(c: Cfg, s: State, t: Thread, pc: Pc, choice: Choice)
    requires Standing(c, s, t, pc, choice) && FunctionOf(pc.at) == Claim
    ensures PageFollows(pc, s.slots[pc.slot], ClaimOperation(c, s, pc, t, choice))
  {
  }

  lemma ClaimRelies(c: Cfg, s: State, t: Thread, pc: Pc, choice: Choice)
    requires Standing(c, s, t, pc, choice) && FunctionOf(pc.at) == Claim
    ensures ClaimOperation(c, s, pc, t, choice).pc.slot < c.size
    ensures ReliesNext(s, t, pc, ClaimOperation(c, s, pc, t, choice))
  {
    var e := ClaimOperation(c, s, pc, t, choice);
    assert FixOk(e.pc, NextSlot(s, pc, e));
    assert CreationOk(e.pc, NextSlot(s, pc, e));
    hide FixOk, CreationOk;
  }

  lemma CreateFollows(c: Cfg, s: State, t: Thread, pc: Pc, choice: Choice)
    requires Standing(c, s, t, pc, choice) && FunctionOf(pc.at) == Create
    ensures Follow(c, s, t, pc, CreateOperation(c, s, pc, choice))
  {
    hide EntryFollows, CountFollows, StaysInPlace;
    CreateEntry(c, s, t, pc, choice);
    CreateCounts(c, s, t, pc, choice);
    CreateStays(c, s, t, pc, choice);
  }

  lemma CreateEntry(c: Cfg, s: State, t: Thread, pc: Pc, choice: Choice)
    requires Standing(c, s, t, pc, choice) && FunctionOf(pc.at) == Create
    ensures EntryFollows(c, s, pc, CreateOperation(c, s, pc, choice))
  {
    hide Relies, Told;
  }

  lemma CreateCounts(c: Cfg, s: State, t: Thread, pc: Pc, choice: Choice)
    requires Standing(c, s, t, pc, choice) && FunctionOf(pc.at) == Create
    ensures CountFollows(c, s, pc, CreateOperation(c, s, pc, choice))
  {
    hide Told, FixOk, Maps;
  }

  lemma CreateStays(c: Cfg, s: State, t: Thread, pc: Pc, choice: Choice)
    requires Standing(c, s, t, pc, choice) && FunctionOf(pc.at) == Create
    ensures StaysInPlace(c, s, t, pc, CreateOperation(c, s, pc, choice))
  {
    hide SlotFits, WorksOn;
  }

  lemma CreateSlot(c: Cfg, s: State, t: Thread, pc: Pc, choice: Choice)
    requires Standing(c, s, t, pc, choice) && FunctionOf(pc.at) == Create
    ensures SlotNext(t, pc, s.slots[pc.slot], CreateOperation(c, s, pc, choice))
  {
  }

  lemma CreatePage(c: Cfg, s: State, t: Thread, pc: Pc, choice: Choice)
    requires Standing(c, s, t, pc, choice) && FunctionOf(pc.at) == Create
    ensures PageFollows(pc, s.slots[pc.slot], CreateOperation(c, s, pc, choice))
  {
  }

  lemma CreateRelies(c: Cfg, s: State, t: Thread, pc: Pc, choice: Choice)
    requires Standing(c, s, t, pc, choice) && FunctionOf(pc.at) == Create
    ensures CreateOperation(c, s, pc, choice).pc.slot < c.size
    ensures ReliesNext(s, t, pc, CreateOperation(c, s, pc, choice))
  {
    hide FixOk, CreationOk, Told, Standing;
    CreateMarks(c, s, t, pc, choice);
  }

  lemma CreateMarks(c: Cfg, s: State, t: Thread, pc: Pc, choice: Choice)
    requires Standing(c, s, t, pc, choice) && FunctionOf(pc.at) == Create
    ensures Shape(c, s) && pc.slot < c.size && Relies(t, pc, s.slots[pc.slot], s.dir)
    ensures pc.at == CreateInsert ==> s.slots[pc.slot].id == pc.id
    ensures var e := CreateOperation(c, s, pc, choice);
            e.pc.slot < c.size && FixOk(e.pc, NextSlot(s, pc, e)) && CreationOk(e.pc, NextSlot(s, pc, e))
  {
  }

  lemma FindEntryFollows(c: Cfg, s: State, t: Thread, pc: Pc, choice: Choice)
    requires Standing(c, s, t, pc, choice) && FunctionOf(pc.at) == FindEntry
    ensures Follow(c, s, t, pc, FindEntryOperation(c, s, pc))
  {
  }

  lemma FindEntrySlot(c: Cfg, s: State, t: Thread, pc: Pc, choice: Choice)
    requires Standing(c, s, t, pc, choice) && FunctionOf(pc.at) == FindEntry
    ensures SlotNext(t, pc, s.slots[pc.slot], FindEntryOperation(c, s, pc))
  {
  }

  lemma FindEntryPage(c: Cfg, s: State, t: Thread, pc: Pc, choice: Choice)
    requires Standing(c, s, t, pc, choice) && FunctionOf(pc.at) == FindEntry
    ensures PageFollows(pc, s.slots[pc.slot], FindEntryOperation(c, s, pc))
  {
  }

  lemma FindEntryRelies(c: Cfg, s: State, t: Thread, pc: Pc, choice: Choice)
    requires Standing(c, s, t, pc, choice) && FunctionOf(pc.at) == FindEntry
    ensures FindEntryOperation(c, s, pc).pc.slot < c.size
    ensures ReliesNext(s, t, pc, FindEntryOperation(c, s, pc))
  {
    var e := FindEntryOperation(c, s, pc);
    assert FixOk(e.pc, NextSlot(s, pc, e));
    assert CreationOk(e.pc, NextSlot(s, pc, e));
    hide FixOk, CreationOk;
  }

  lemma EvictFollows(c: Cfg, s: State, t: Thread, pc: Pc, choice: Choice)
    requires Standing(c, s, t, pc, choice) && FunctionOf(pc.at) == Evict
    ensures Follow(c, s, t, pc, EvictOperation(c, s, pc, t))
  {
    hide EntryFollows, CountFollows, StaysInPlace;
    EvictEntry(c, s, t, pc, choice);
    EvictCounts(c, s, t, pc, choice);
    EvictStays(c, s, t, pc, choice);
  }

  lemma EvictEntry(c: Cfg, s: State, t: Thread, pc: Pc, choice: Choice)
    requires Standing(c, s, t, pc, choice) && FunctionOf(pc.at) == Evict
    ensures EntryFollows(c, s, pc, EvictOperation(c, s, pc, t))
  {
    hide Relies, Told;
  }

  lemma EvictCounts(c: Cfg, s: State, t: Thread, pc: Pc, choice: Choice)
    requires Standing(c, s, t, pc, choice) && FunctionOf(pc.at) == Evict
    ensures CountFollows(c, s, pc, EvictOperation(c, s, pc, t))
  {
    hide Told, FixOk, Maps;
  }

  lemma EvictStays(c: Cfg, s: State, t: Thread, pc: Pc, choice: Choice)
    requires Standing(c, s, t, pc, choice) && FunctionOf(pc.at) == Evict
    ensures StaysInPlace(c, s, t, pc, EvictOperation(c, s, pc, t))
  {
    hide SlotFits, WorksOn;
  }

  lemma EvictSlot(c: Cfg, s: State, t: Thread, pc: Pc, choice: Choice)
    requires Standing(c, s, t, pc, choice) && FunctionOf(pc.at) == Evict
    ensures SlotNext(t, pc, s.slots[pc.slot], EvictOperation(c, s, pc, t))
  {
  }

  lemma EvictPage(c: Cfg, s: State, t: Thread, pc: Pc, choice: Choice)
    requires Standing(c, s, t, pc, choice) && FunctionOf(pc.at) == Evict
    ensures PageFollows(pc, s.slots[pc.slot], EvictOperation(c, s, pc, t))
  {
  }

  lemma EvictRelies(c: Cfg, s: State, t: Thread, pc: Pc, choice: Choice)
    requires Standing(c, s, t, pc, choice) && FunctionOf(pc.at) == Evict
    ensures EvictOperation(c, s, pc, t).pc.slot < c.size
    ensures ReliesNext(s, t, pc, EvictOperation(c, s, pc, t))
  {
    var e := EvictOperation(c, s, pc, t);
    assert FixOk(e.pc, NextSlot(s, pc, e));
    assert CreationOk(e.pc, NextSlot(s, pc, e));
    hide FixOk, CreationOk;
  }

  lemma UnfixFollows(c: Cfg, s: State, t: Thread, pc: Pc, choice: Choice)
    requires Standing(c, s, t, pc, choice) && FunctionOf(pc.at) == Unfix
    ensures Follow(c, s, t, pc, UnfixOperation(c, s, pc))
  {
    hide EntryFollows, CountFollows, StaysInPlace;
    UnfixEntry(c, s, t, pc, choice);
    UnfixCounts(c, s, t, pc, choice);
    UnfixStays(c, s, t, pc, choice);
  }

  lemma UnfixEntry(c: Cfg, s: State, t: Thread, pc: Pc, choice: Choice)
    requires Standing(c, s, t, pc, choice) && FunctionOf(pc.at) == Unfix
    ensures EntryFollows(c, s, pc, UnfixOperation(c, s, pc))
  {
    hide Relies, Told;
  }

  lemma UnfixCounts(c: Cfg, s: State, t: Thread, pc: Pc, choice: Choice)
    requires Standing(c, s, t, pc, choice) && FunctionOf(pc.at) == Unfix
    ensures CountFollows(c, s, pc, UnfixOperation(c, s, pc))
  {
    hide Told, FixOk, Maps;
  }

  lemma UnfixStays(c: Cfg, s: State, t: Thread, pc: Pc, choice: Choice)
    requires Standing(c, s, t, pc, choice) && FunctionOf(pc.at) == Unfix
    ensures StaysInPlace(c, s, t, pc, UnfixOperation(c, s, pc))
  {
    hide SlotFits, WorksOn;
  }

  lemma UnfixSlot(c: Cfg, s: State, t: Thread, pc: Pc, choice: Choice)
    requires Standing(c, s, t, pc, choice) && FunctionOf(pc.at) == Unfix
    ensures SlotNext(t, pc, s.slots[pc.slot], UnfixOperation(c, s, pc))
  {
    hide Shape, Enabled, Maps, CreationOk;
  }

  lemma UnfixPage(c: Cfg, s: State, t: Thread, pc: Pc, choice: Choice)
    requires Standing(c, s, t, pc, choice) && FunctionOf(pc.at) == Unfix
    ensures PageFollows(pc, s.slots[pc.slot], UnfixOperation(c, s, pc))
  {
    hide PageFollows, UnfixOperation, Standing;
    if pc.at == UnfixWrite {
      UnfixWrites(c, s, t, pc, choice);
    } else if pc.at == UnfixRead {
      UnfixReads(c, s, t, pc, choice);
    } else {
      UnfixHolds(c, s, t, pc, choice);
    }
  }

  lemma UnfixWrites(c: Cfg, s: State, t: Thread, pc: Pc, choice: Choice)
    requires Standing(c, s, t, pc, choice) && pc.at == UnfixWrite
    ensures PageFollows(pc, s.slots[pc.slot], UnfixOperation(c, s, pc))
  {
    hide Shape, Enabled, Maps, CreationOk, SlotFits;
  }

  lemma UnfixReads(c: Cfg, s: State, t: Thread, pc: Pc, choice: Choice)
    requires Standing(c, s, t, pc, choice) && pc.at == UnfixRead
    ensures PageFollows(pc, s.slots[pc.slot], UnfixOperation(c, s, pc))
  {
    hide Shape, Enabled, Relies, Told;
    assert !pc.exclusive by { ReadsShared(c, s, t, pc, choice); }
  }

  lemma ReadsShared(c: Cfg, s: State, t: Thread, pc: Pc, choice: Choice)
    requires Standing(c, s, t, pc, choice) && pc.at == UnfixRead
    ensures !pc.exclusive
  {
    hide Shape, Enabled, Told;
  }

  lemma UnfixHolds(c: Cfg, s: State, t: Thread, pc: Pc, choice: Choice)
    requires Standing(c, s, t, pc, choice) && (pc.at == Holding || pc.at == UnfixStore || pc.at == UnfixOr)
    ensures PageFollows(pc, s.slots[pc.slot], UnfixOperation(c, s, pc))
  {
    hide Shape, Enabled, Relies, Told;
  }

  lemma UnfixRelies(c: Cfg, s: State, t: Thread, pc: Pc, choice: Choice)
    requires Standing(c, s, t, pc, choice) && FunctionOf(pc.at) == Unfix
    ensures UnfixOperation(c, s, pc).pc.slot < c.size
    ensures ReliesNext(s, t, pc, UnfixOperation(c, s, pc))
  {
    hide FixOk, CreationOk, Told, Standing, Maps, Shape, UnfixOperation;
    UnfixMarks(c, s, t, pc, choice);
    UnfixKeepsPage(c, s, t, pc, choice);
  }

  lemma UnfixKeepsPage(c: Cfg, s: State, t: Thread, pc: Pc, choice: Choice)
    requires Standing(c, s, t, pc, choice) && FunctionOf(pc.at) == Unfix
    ensures Shape(c, s) && pc.slot < c.size
    ensures var e := UnfixOperation(c, s, pc);
            && e.dir == s.dir && e.pc == pc.(at := e.pc.at) && HasPage(pc.at)
            && (e.pc.at == Idle || e.pc.at == UnfixStore || e.pc.at == UnfixWrite || e.pc.at == UnfixOr
                      || e.pc.at == UnfixRead)
  {
    hide FixOk, CreationOk, Told, Maps, Relies;
  }

  lemma UnfixMarks(c: Cfg, s: State, t: Thread, pc: Pc, choice: Choice)
    requires Standing(c, s, t, pc, choice) && FunctionOf(pc.at) == Unfix
    ensures Shape(c, s) && pc.slot < c.size && Relies(t, pc, s.slots[pc.slot], s.dir)
    ensures var e := UnfixOperation(c, s, pc);
            e.pc.slot < c.size && FixOk(e.pc, NextSlot(s, pc, e)) && CreationOk(e.pc, NextSlot(s, pc, e))
  {
  }

  /** One operation of a thread, in its own slot and entry. */
  lemma OperationFollows(c: Cfg, s: State, t: Thread, pc: Pc, choice: Choice)
    requires Standing(c, s, t, pc, choice)
    ensures var e := Operation(c, s, pc, t, choice);
            Follow(c, s, t, pc, e) && PageFollows(pc, s.slots[pc.slot], e)
            && SlotNext(t, pc, s.slots[pc.slot], e)
            && e.pc.slot < c.size && ReliesNext(s, t, pc, e)
  {
    hide Standing, Follow, PageFollows, SlotNext, ReliesNext, FunctionOf;
    hide FixOperation, ReserveOperation, EnterOperation, ClaimOperation, CreateOperation, FindEntryOperation,
         EvictOperation, UnfixOperation;
    match FunctionOf(pc.at)
    case Fix =>
      FixFollows(c, s, t, pc, choice);
      FixSlot(c, s, t, pc, choice);
      FixPage(c, s, t, pc, choice);
      FixRelies(c, s, t, pc, choice);
    case Reserve =>
      ReserveFollows(c, s, t, pc, choice);
      ReserveSlot(c, s, t, pc, choice);
      ReservePage(c, s, t, pc, choice);
      ReserveRelies(c, s, t, pc, choice);
    case Enter =>
      EnterFollows(c, s, t, pc, choice);
      EnterSlot(c, s, t, pc, choice);
      EnterPage(c, s, t, pc, choice);
      EnterRelies(c, s, t, pc, choice);
    case Claim =>
      ClaimFollows(c, s, t, pc, choice);
      ClaimSlot(c, s, t, pc, choice);
      ClaimPage(c, s, t, pc, choice);
      ClaimRelies(c, s, t, pc, choice);
    case Create =>
      CreateFollows(c, s, t, pc, choice);
      CreateSlot(c, s, t, pc, choice);
      CreatePage(c, s, t, pc, choice);
      CreateRelies(c, s, t, pc, choice);
    case FindEntry =>
      FindEntryFollows(c, s, t, pc, choice);
      FindEntrySlot(c, s, t, pc, choice);
      FindEntryPage(c, s, t, pc, choice);
      FindEntryRelies(c, s, t, pc, choice);
    case Evict =>
      EvictFollows(c, s, t, pc, choice);
      EvictSlot(c, s, t, pc, choice);
      EvictPage(c, s, t, pc, choice);
      EvictRelies(c, s, t, pc, choice);
    case Unfix =>
      UnfixFollows(c, s, t, pc, choice);
      UnfixSlot(c, s, t, pc, choice);
      UnfixPage(c, s, t, pc, choice);
      UnfixRelies(c, s, t, pc, choice);
  }
}
