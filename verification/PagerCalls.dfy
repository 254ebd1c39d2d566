/**
  What a call of `pager_fix` comes to, whatever the interleaving.
*/
module PagerCalls {
  import opened Common
  import opened LatchWord
  import opened Cells
  import opened PagerSteps
  import opened PagerInvariant
  import opened PagerSafety
  import opened PagerInduction
  import opened PagerRuns

  /** Thread t calls `pager_fix` with move i and has not come back to where it was by
      state k. */
  ghost predicate InCall(c: Cfg, states: seq<State>, moves: seq<Move>, t: Thread, i: nat, k: nat) {
    && Run(c, states, moves) && i < k < |states|
    && moves[i].thread == t && t in states[i].pcs && states[i].pcs[t].at == Idle
    && forall m :: i < m <= k ==> t in states[m].pcs && states[m].pcs[t].at != Idle
  }

  /** Thread t had the page that it asked for, in the mode that it asked for. */
  ghost predicate HadPage(states: seq<State>, moves: seq<Move>, t: Thread, i: nat, k: nat)
    requires i < |moves| && k < |states|
  {
    exists m :: i < m <= k && Asked(states[m], t, moves[i].choice.id, moves[i].choice.exclusive)
  }

  predicate Asked(s: State, t: Thread, id: PageId, exclusive: bool) {
    t in s.pcs && s.pcs[t].at == Holding && s.pcs[t].id == id && s.pcs[t].exclusive == exclusive
  }

  /** Move m is of thread t, and memory for a header or for the directory lacks. */
  predicate LacksMemory(s: State, move: Move, t: Thread) {
    && move.thread == t && t in s.pcs && move.choice.fails
    && (s.pcs[t].at == CreateInsert
        || (s.pcs[t].at == CreateAlloc && s.pcs[t].slot < |s.slots| && !s.slots[s.pcs[t].slot].present))
  }

  ghost predicate LackedMemory(states: seq<State>, moves: seq<Move>, t: Thread, i: nat, k: nat)
    requires k < |states| == |moves| + 1
  {
    exists m :: i < m < k && LacksMemory(states[m], moves[m], t)
  }

  /** Move m looks at one more slot of the ring for a page to evict. */
  predicate IsVisit(s: State, move: Move, s': State, t: Thread) {
    && move.thread == t && t in s.pcs && t in s'.pcs
    && s.pcs[t].at == EvictNext && s'.pcs[t].at == EvictLoad
  }

  function Visits(states: seq<State>, moves: seq<Move>, t: Thread, i: nat, k: nat): (r: set<nat>)
    requires k < |states| == |moves| + 1
    ensures forall m :: m in r ==> m < k
  {
    set m | i < m < k && IsVisit(states[m], moves[m], states[m + 1], t)
  }

  /** How far a call is: before any eviction, in one, after it, on the way back without
      memory, or with the page. */
  datatype Phase = Out | Starting | Looking | Entering | Failing | Using

  function PhaseOf(at: At): Phase {
    match at
    case Idle => Out
    case FastLatch | FastLook | FastPage | FastMark | FastDone | FastLeave | CountLoad | CountTry => Starting
    case EvictNext | EvictLoad | EvictLatch | EvictCheck | EvictBack | EvictAvail | EvictFlags => Looking
    case EvictClear | EvictSkip | EvictRemove | EvictFree | EvictDone => Looking
    case CreateUndo | CreateFailed | FailLeave => Failing
    case Holding | UnfixStore | UnfixWrite | UnfixOr | UnfixRead => Using
    case _ => Entering
  }

  /** How a thread goes on in its call. */
  predicate GoesOn(c: Cfg, present: bool, count: int, pc: Pc, fails: bool, pc': Pc) {
    && pc'.id == pc.id && pc'.exclusive == pc.exclusive
    && var before := PhaseOf(pc.at);
       match PhaseOf(pc'.at)
       case Out => before == Failing || before == Using || (pc.at == EvictNext && pc.tries >= 2 * c.size)
       case Starting => before == Starting && (pc'.at == CountTry ==> pc'.seen == count)
       case Looking =>
         if before == Looking then
           if pc.at == EvictNext && pc'.at == EvictLoad then pc'.tries == pc.tries + 1 <= 2 * c.size
           else pc'.tries == pc.tries
         else pc.at == CountTry && pc.seen >= c.size - 1 && pc'.tries == 0
       case Failing =>
         before == Failing || (fails && (pc.at == CreateInsert || (pc.at == CreateAlloc && !present)))
       case Using => before == Using || pc'.at == Holding
       case Entering => true
  }

  lemma FixGoesOn(c: Cfg, s: State, pc: Pc, choice: Choice)
    requires Shape(c, s) && pc.slot < |s.slots| && FunctionOf(pc.at) == Fix && pc.at != Idle
    ensures GoesOn(c, s.slots[pc.slot].present, s.count, pc, choice.fails, FixOperation(c, s, pc, choice).pc)
  {
  }

  lemma ReserveGoesOn(c: Cfg, s: State, pc: Pc, choice: Choice)
    requires Shape(c, s) && pc.slot < |s.slots| && FunctionOf(pc.at) == Reserve
    ensures GoesOn(c, s.slots[pc.slot].present, s.count, pc, choice.fails, ReserveOperation(c, s, pc, choice).pc)
  {
  }

  lemma EnterGoesOn(c: Cfg, s: State, pc: Pc, choice: Choice)
    requires Shape(c, s) && pc.slot < |s.slots| && FunctionOf(pc.at) == Enter
    ensures GoesOn(c, s.slots[pc.slot].present, s.count, pc, choice.fails, EnterOperation(c, s, pc).pc)
  {
    hide Shape, Taken, Released;
  }

  lemma ClaimGoesOn(c: Cfg, s: State, pc: Pc, t: Thread, choice: Choice)
    requires Shape(c, s) && pc.slot < |s.slots| && FunctionOf(pc.at) == Claim
    ensures GoesOn(c, s.slots[pc.slot].present, s.count, pc, choice.fails, ClaimOperation(c, s, pc, t, choice).pc)
  {
  }

  lemma CreateGoesOn(c: Cfg, s: State, pc: Pc, choice: Choice)
    requires Shape(c, s) && pc.slot < |s.slots| && FunctionOf(pc.at) == Create
    ensures GoesOn(c, s.slots[pc.slot].present, s.count, pc, choice.fails, CreateOperation(c, s, pc, choice).pc)
  {
  }

  lemma FindEntryGoesOn(c: Cfg, s: State, pc: Pc, choice: Choice)
    requires Shape(c, s) && pc.slot < |s.slots| && FunctionOf(pc.at) == FindEntry
    ensures GoesOn(c, s.slots[pc.slot].present, s.count, pc, choice.fails, FindEntryOperation(c, s, pc).pc)
  {
  }

  lemma EvictGoesOn(c: Cfg, s: State, pc: Pc, t: Thread, choice: Choice)
    requires Shape(c, s) && pc.slot < |s.slots| && FunctionOf(pc.at) == Evict
    ensures GoesOn(c, s.slots[pc.slot].present, s.count, pc, choice.fails, EvictOperation(c, s, pc, t).pc)
  {
  }

  lemma UnfixGoesOn(c: Cfg, s: State, pc: Pc, choice: Choice)
    requires Shape(c, s) && pc.slot < |s.slots| && FunctionOf(pc.at) == Unfix
    ensures GoesOn(c, s.slots[pc.slot].present, s.count, pc, choice.fails, UnfixOperation(c, s, pc).pc)
  {
  }

  lemma OwnStep(c: Cfg, s: State, t: Thread, choice: Choice)
    requires Enabled(c, s, t, choice) && s.pcs[t].at != Idle
    ensures t in Step(c, s, t, choice).pcs && s.pcs[t].slot < |s.slots|
    ensures GoesOn(c, s.slots[s.pcs[t].slot].present, s.count, s.pcs[t], choice.fails, Step(c, s, t, choice).pcs[t])
  {
    hide GoesOn, FunctionOf, FixOperation, ReserveOperation, EnterOperation, ClaimOperation, CreateOperation,
         FindEntryOperation, EvictOperation, UnfixOperation;
    var pc := s.pcs[t];
    match FunctionOf(pc.at)
    case Fix => FixGoesOn(c, s, pc, choice);
    case Reserve => ReserveGoesOn(c, s, pc, choice);
    case Enter => EnterGoesOn(c, s, pc, choice);
    case Claim => ClaimGoesOn(c, s, pc, t, choice);
    case Create => CreateGoesOn(c, s, pc, choice);
    case FindEntry => FindEntryGoesOn(c, s, pc, choice);
    case Evict => EvictGoesOn(c, s, pc, t, choice);
    case Unfix => UnfixGoesOn(c, s, pc, choice);
  }

  lemma FirstStep(c: Cfg, s: State, t: Thread, choice: Choice)
    requires Enabled(c, s, t, choice) && s.pcs[t].at == Idle
    ensures t in Step(c, s, t, choice).pcs
    ensures var pc' := Step(c, s, t, choice).pcs[t];
            && pc'.id == choice.id && pc'.exclusive == choice.exclusive
            && PhaseOf(pc'.at) == Starting && pc'.at != CountTry
  {
  }

  lemma OtherStep(c: Cfg, s: State, u: Thread, choice: Choice, t: Thread)
    requires Enabled(c, s, u, choice) && u != t && t in s.pcs
    ensures t in Step(c, s, u, choice).pcs && Step(c, s, u, choice).pcs[t] == s.pcs[t]
  {
    hide Operation;
  }

  lemma VisitsNext(states: seq<State>, moves: seq<Move>, t: Thread, i: nat, k: nat)
    requires i < k - 1 && k < |states| == |moves| + 1
    ensures Visits(states, moves, t, i, k)
            == Visits(states, moves, t, i, k - 1)
               + (if IsVisit(states[k - 1], moves[k - 1], states[k], t) then {k - 1} else {})
    ensures |Visits(states, moves, t, i, k)|
            == |Visits(states, moves, t, i, k - 1)| + One(IsVisit(states[k - 1], moves[k - 1], states[k], t))
  {
    hide IsVisit;
    var before := Visits(states, moves, t, i, k - 1);
    assert Visits(states, moves, t, i, k)
        == before + (if IsVisit(states[k - 1], moves[k - 1], states[k], t) then {k - 1} else {});
    assert k - 1 !in before;
  }

  /** The count was so at some moment of the call. */
  predicate SawCount(states: seq<State>, i: nat, k: nat, count: int)
    requires k < |states|
  {
    exists m :: i < m <= k && states[m].count == count
  }

  predicate SawFull(c: Cfg, states: seq<State>, i: nat, k: nat)
    requires k < |states|
  {
    exists m :: i < m <= k && states[m].count >= c.size - 1
  }

  /** What a call has come to so far. */
  ghost predicate SoFar(c: Cfg, states: seq<State>, moves: seq<Move>, t: Thread, i: nat, k: nat)
    requires i < k < |states| == |moves| + 1 && t in states[k].pcs
  {
    var pc, visits := states[k].pcs[t], Visits(states, moves, t, i, k);
    && pc.id == moves[i].choice.id && pc.exclusive == moves[i].choice.exclusive
    && match PhaseOf(pc.at)
       case Starting => visits == {} && (pc.at == CountTry ==> SawCount(states, i, k, pc.seen))
       case Looking => |visits| == pc.tries <= 2 * c.size && SawFull(c, states, i, k)
       case Failing => LackedMemory(states, moves, t, i, k)
       case Using => HadPage(states, moves, t, i, k)
       case _ => true
  }

  lemma {:induction false} CallSoFar(c: Cfg, states: seq<State>, moves: seq<Move>, t: Thread, i: nat, k: nat)
    requires InCall(c, states, moves, t, i, k)
    ensures SoFar(c, states, moves, t, i, k)
  {
    hide Step, Enabled, Init, FunctionOf, SoFar;
    var s, move := states[k - 1], moves[k - 1];
    assert states[k] == Step(c, s, move.thread, move.choice) && Enabled(c, s, move.thread, move.choice);
    if k == i + 1 {
      SoFarFirst(c, states, moves, t, i);
    } else {
      CallSoFar(c, states, moves, t, i, k - 1);
      if move.thread == t {
        SoFarOwn(c, states, moves, t, i, k);
      } else {
        SoFarOther(c, states, moves, t, i, k);
      }
    }
  }

  lemma SoFarFirst(c: Cfg, states: seq<State>, moves: seq<Move>, t: Thread, i: nat)
    requires InCall(c, states, moves, t, i, i + 1)
    ensures SoFar(c, states, moves, t, i, i + 1)
  {
    hide Step, Enabled, Init, FunctionOf, LackedMemory, HadPage, Visits;
    assert Enabled(c, states[i], t, moves[i].choice);
    FirstStep(c, states[i], t, moves[i].choice);
    NoVisits(states, moves, t, i);
  }

  lemma SoFarOwn(c: Cfg, states: seq<State>, moves: seq<Move>, t: Thread, i: nat, k: nat)
    requires InCall(c, states, moves, t, i, k) && i + 1 < k && moves[k - 1].thread == t
    requires SoFar(c, states, moves, t, i, k - 1)
    ensures SoFar(c, states, moves, t, i, k)
  {
    hide Step, Enabled, Init, FunctionOf, Visits;
    var s, move := states[k - 1], moves[k - 1];
    assert Enabled(c, s, t, move.choice) && move == Move(t, move.choice);
    OwnStep(c, s, t, move.choice);
    VisitsNext(states, moves, t, i, k);
  }

  lemma SoFarOther(c: Cfg, states: seq<State>, moves: seq<Move>, t: Thread, i: nat, k: nat)
    requires InCall(c, states, moves, t, i, k) && i + 1 < k && moves[k - 1].thread != t
    requires SoFar(c, states, moves, t, i, k - 1)
    ensures SoFar(c, states, moves, t, i, k)
  {
    hide Step, Enabled, Init, FunctionOf, Visits;
    var s, move := states[k - 1], moves[k - 1];
    assert Enabled(c, s, move.thread, move.choice);
    OtherStep(c, s, move.thread, move.choice, t);
    VisitsNext(states, moves, t, i, k);
  }

  lemma NoVisits(states: seq<State>, moves: seq<Move>, t: Thread, i: nat)
    requires i + 1 < |states| == |moves| + 1
    ensures Visits(states, moves, t, i, i + 1) == {}
  {
  }

  /** A thread looks for a page to evict only if at some moment of its call there were
      size - 1 pages and reservations. */
  lemma EvictsOnlyIfFull(c: Cfg, states: seq<State>, moves: seq<Move>, t: Thread, i: nat, k: nat)
    requires InCall(c, states, moves, t, i, k) && PhaseOf(states[k].pcs[t].at) == Looking
    ensures SawFull(c, states, i, k)
  {
    hide Run, PhaseOf;
    CallSoFar(c, states, moves, t, i, k);
  }

  /** A call ends with the page that it asked for, in the mode that it asked for; or
      without it, for one of two reasons: memory lacked for a header or for the
      directory, or the pager was full and two rounds of the ring were looked at in vain
      for a page to evict. */
  lemma CallComesTo(c: Cfg, states: seq<State>, moves: seq<Move>, t: Thread, i: nat, k: nat)
    requires InCall(c, states, moves, t, i, k) && k < |moves|
    requires moves[k].thread == t && t in states[k + 1].pcs && states[k + 1].pcs[t].at == Idle
    ensures || HadPage(states, moves, t, i, k)
            || LackedMemory(states, moves, t, i, k)
            || (|Visits(states, moves, t, i, k)| == 2 * c.size && SawFull(c, states, i, k))
  {
    hide Step, Enabled, Init, FunctionOf, Visits, HadPage, LackedMemory;
    CallSoFar(c, states, moves, t, i, k);
    assert Enabled(c, states[k], t, moves[k].choice) && states[k + 1] == Step(c, states[k], t, moves[k].choice);
    OwnStep(c, states[k], t, moves[k].choice);
  }

  /** A weak compare-and-swap may fail for no reason; then nothing changes but where the
      thread is and what it knows. */
  lemma WeakExchange(c: Cfg, s: State, t: Thread, choice: Choice)
    requires Enabled(c, s, t, choice) && choice.fails
    requires s.pcs[t].at == CreateClaim || (s.pcs[t].at == CountTry && s.pcs[t].seen < c.size - 1)
    ensures var s' := Step(c, s, t, choice); var at := s.pcs[t].at;
            && t in s'.pcs && s'.pcs[t].at == (if at == CountTry then CountTry else CreateNext)
            && s' == s.(pcs := s.pcs[t := s'.pcs[t]])
  {
  }

  // ------------------------------------------------------- what is passed over

  /** A slot that the clock may pass over: empty, in use, or used since it came by. */
  predicate Passable(slot: Slot) {
    slot.page == 0 || slot.word != 0 || slot.flags.ref
  }

  /** Thread t looks at a slot from move j on, and has not gone on to another by state k. */
  ghost predicate InVisit(c: Cfg, states: seq<State>, moves: seq<Move>, t: Thread, j: nat, k: nat) {
    && Run(c, states, moves) && j < k < |states| && IsVisit(states[j], moves[j], states[j + 1], t)
    && forall m :: j < m < k ==> t in states[m].pcs && states[m].pcs[t].at != EvictNext
                                 && PhaseOf(states[m].pcs[t].at) == Looking
  }

  ghost predicate WasPassable(states: seq<State>, j: nat, k: nat, i: nat)
    requires k < |states|
  {
    exists m :: j < m <= k && i < |states[m].slots| && Passable(states[m].slots[i])
  }

  /** What the thread knows of the slot that it looks at. */
  ghost predicate Knows(states: seq<State>, t: Thread, j: nat, k: nat)
    requires j < k < |states| && t in states[k].pcs && t in states[j + 1].pcs
  {
    var pc := states[k].pcs[t];
    && pc.slot == states[j + 1].pcs[t].slot
    && ((pc.at == EvictBack && pc.other == 0) || pc.at == EvictClear || pc.at == EvictSkip ==>
          WasPassable(states, j, k, pc.slot))
  }

  /** One step of a visit: it ends only at a slot that may be passed over. */
  lemma VisitStep(c: Cfg, s: State, t: Thread, choice: Choice)
    requires Enabled(c, s, t, choice) && PhaseOf(s.pcs[t].at) == Looking && s.pcs[t].at != EvictNext
    ensures t in Step(c, s, t, choice).pcs && s.pcs[t].slot < |s.slots|
    ensures var pc, pc' := s.pcs[t], Step(c, s, t, choice).pcs[t]; var slot := s.slots[pc.slot];
            && (PhaseOf(pc'.at) == Looking ==> pc'.slot == pc.slot)
            && (pc'.at == EvictNext ==> slot.page == 0 || (pc.at == EvictBack && pc.other == 0) || pc.at == EvictSkip)
            && ((pc'.at == EvictBack && pc'.other == 0) || pc'.at == EvictClear || pc'.at == EvictSkip ==>
                  Passable(slot) || pc.at == EvictClear)
  {
    hide FixOperation, ReserveOperation, EnterOperation, ClaimOperation, CreateOperation, UnfixOperation;
  }

  lemma {:induction false} VisitKnows(c: Cfg, states: seq<State>, moves: seq<Move>, t: Thread, j: nat, k: nat)
    requires InVisit(c, states, moves, t, j, k)
    requires t in states[k].pcs && states[k].pcs[t].at != EvictNext && PhaseOf(states[k].pcs[t].at) == Looking
    ensures Knows(states, t, j, k)
  {
    hide Step, Enabled, Init, PhaseOf, Passable;
    var s, move := states[k - 1], moves[k - 1];
    assert states[k] == Step(c, s, move.thread, move.choice) && Enabled(c, s, move.thread, move.choice);
    if k > j + 1 {
      VisitKnows(c, states, moves, t, j, k - 1);
      if move.thread == t {
        VisitStep(c, s, t, move.choice);
      } else {
        OtherStep(c, s, move.thread, move.choice, t);
      }
    }
  }

  /** In every interleaving, a visit passes over a slot only if at some moment of it the
      slot was empty, or its page was in use or had its reference bit. */
  lemma VisitPasses(c: Cfg, states: seq<State>, moves: seq<Move>, t: Thread, j: nat, k: nat)
    requires InVisit(c, states, moves, t, j, k) && j + 1 < k
    requires t in states[k].pcs && states[k].pcs[t].at == EvictNext && t in states[j + 1].pcs
    ensures WasPassable(states, j, k, states[j + 1].pcs[t].slot)
  {
    hide Step, Enabled, Init, PhaseOf;
    var s, move := states[k - 1], moves[k - 1];
    assert states[k] == Step(c, s, move.thread, move.choice) && Enabled(c, s, move.thread, move.choice);
    VisitKnows(c, states, moves, t, j, k - 1);
    if move.thread == t {
      VisitStep(c, s, t, move.choice);
    } else {
      OtherStep(c, s, move.thread, move.choice, t);
    }
  }
}
