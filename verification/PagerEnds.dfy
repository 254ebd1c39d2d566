/**
  A thread that no other one interferes with comes to the end of its call, from a pager
  of which `Clock` speaks.
*/
module PagerEnds {
  import opened Common
  import opened LatchWord
  import opened Cells
  import opened PagerSteps
  import opened PagerInvariant
  import opened PagerInduction
  import opened PagerRuns
  import opened PagerAlone
  import Clock

  /** Nobody but t is in the middle of a call. */
  predicate Quiet(s: State, t: Thread) {
    forall u :: u in s.pcs && u != t ==> s.pcs[u].at == Idle || s.pcs[u].at == Holding
  }

  /** Nobody but t has the page in a mode that keeps t out. */
  predicate ToBeHad(s: State, t: Thread, id: PageId, exclusive: bool) {
    forall u :: u in s.pcs && u != t && s.pcs[u].at == Holding && s.pcs[u].id == id ==>
                  !exclusive && !s.pcs[u].exclusive
  }

  // ------------------------------------------------------------------ it goes on

  /** In the quiet a thread always has a step, unless somebody keeps its page. */
  lemma HasStep(c: Cfg, states: seq<State>, moves: seq<Move>, k: nat, t: Thread, choice: Choice)
    requires Run(c, states, moves) && k < |states| && t in states[k].pcs && choice.id != 0
    requires Quiet(states[k], t) && ToBeHad(states[k], t, states[k].pcs[t].id, states[k].pcs[t].exclusive)
    ensures Enabled(c, states[k], t, choice)
  {
    hide Init, Run, Agrees, Takeable, PagesOk, EntriesOk, SlotsOk, DirOk, CountOk, Relies;
    RunInv(c, states, moves, k);
    var s := states[k];
    var pc := s.pcs[t];
    if !Enabled(c, s, t, choice) {
      if pc.at == FastPage || pc.at == SlowPage || pc.at == NewPage {
        PageHolder(c, s, t);
      } else {
        EntryHolder(c, s, t, pc.at != FastLatch);
      }
      assert false;
    }
  }

  // ------------------------------------------------------------------ it ends

  /** Every step alone takes this down; `visits` are those of the search for a free slot. */
  function Left(size: nat, visits: int, pc: Pc): int {
    var search, scan := 2 * (size - visits), 10 * (2 * size - pc.tries);
    var created, counted := 8 + 2 * size, 8 + 2 * size + 6 + 20 * size;
    match pc.at
    case Idle | Holding => 0
    case FailLeave | SlowDone => 1
    case CreateFailed | NewMark => 2
    case NewPage | CreateUndo => 3
    case CreateInsert => 4
    case CreateInit => 5
    case CreateFlags => 6
    case CreateId => 7
    case CreateAlloc => 8
    case CreateClaim => 9 + search
    case CreateNext => 8 + search
    case SlowLook => created + 1
    case SlowLatch => created + 2
    case EvictDone => created + 3
    case EvictFree => created + 4
    case EvictRemove => created + 5
    case EvictNext => created + 6 + scan
    case EvictLoad => created + 6 + scan + 9
    case EvictLatch => created + 6 + scan + 8
    case EvictCheck => created + 6 + scan + 7
    case EvictAvail => created + 6 + scan + 6
    case EvictFlags => created + 6 + scan + 5
    case EvictClear => created + 6 + scan + 4
    case EvictSkip => created + 6 + scan + 3
    case CountTry => counted + 1
    case CountLoad => counted + 2
    case FastLeave => counted + 3
    case FastDone => 1
    case FastMark => 2
    case FastPage => 3
    case FastLook => counted + 4
    case FastLatch => counted + 5
    case _ => 0
  }

  lemma ReserveKeepsHead(v: Clock.View)
    requires |v.ring| > 0
    ensures Clock.AfterReserve(v).0.createHead == v.createHead
  {
  }

  /** A search for a free slot has some of its round left. */
  lemma SearchLeft(w: Clock.View, v: Clock.View, pc: Pc, call: Call, i: nat)
    requires AlongCreate(w, v, pc, call) && i < |v.ring| && v.ring[i].page == 0
    ensures pc.at == CreateNext ==> v.createHead - w.createHead < |w.ring|
    ensures pc.at == CreateClaim ==> v.createHead - w.createHead <= |w.ring|
  {
    hide Clock.Visited, Clock.FreeTurn, AtCreation;
    var n := Clock.Turn(|w.ring|, w.createHead, i);
  }

  lemma SomeLeft(v0: Clock.View, v: Clock.View, pc: Pc, call: Call, i: nat)
    requires Along(v0, v, pc, call) && i < |v.ring| && v.ring[i].page == 0
    ensures pc.at != Idle && pc.at != Holding ==> Left(|v0.ring|, v.createHead - v0.createHead, pc) > 0
    ensures pc.at == CreateClaim ==> Left(|v0.ring|, v.createHead - v0.createHead, pc) > 8
  {
    hide AlongFast, AlongNew, Result;
    if pc.at == CreateNext || pc.at == CreateClaim {
      CreationView(v0, v, pc, call);
      ReserveKeepsHead(v0);
      SearchLeft(Clock.AfterReserve(v0).0, v, pc, call, i);
    }
    assert pc.at != SlowPage && pc.at != SlowMark && pc.at != SlowUnreserve by { NotThere(v0, v, pc, call); }
  }

  /** Where a thread alone does not come. */
  lemma NotThere(v0: Clock.View, v: Clock.View, pc: Pc, call: Call)
    requires Along(v0, v, pc, call)
    ensures pc.at != SlowPage && pc.at != SlowMark && pc.at != SlowUnreserve && pc.at != EvictBack
    ensures FunctionOf(pc.at) == Unfix ==> pc.at == Holding
    ensures pc.at == SlowLook ==> v.createHead == v0.createHead && call.id !in v.dir
    ensures |v.ring| == |v0.ring| && pc.id == call.id && (pc.at == EvictCheck ==> v.ring[pc.slot].page == pc.victim)
    ensures InScan(pc.at) ==> pc.tries <= 2 * |v0.ring|
  {
    hide Clock.AfterReserve, Clock.AfterCreate, Result, AlongCreate, Scanned;
    if FunctionOf(pc.at) == Enter {
      ReserveKeepsHead(v0);
    }
  }

  predicate InScan(at: At) {
    (FunctionOf(at) == FindEntry || FunctionOf(at) == Evict) && at != EvictDone
  }

  /** What a thread needs to know for its step to lead on. */
  predicate LeadsOn(c: Cfg, s: State, visits: int, pc: Pc) {
    && pc.at != SlowPage && pc.at != SlowMark && pc.at != SlowUnreserve && pc.at != EvictBack
    && FunctionOf(pc.at) != Unfix && pc.at != Idle && pc.slot < |s.slots|
    && (pc.at == CountTry ==> pc.seen == s.count)
    && (pc.at == SlowLook ==> visits == 0 && pc.id !in s.dir)
    && (pc.at == EvictCheck ==> s.slots[pc.slot].page == pc.victim)
    && (InScan(pc.at) ==> pc.tries <= 2 * c.size)
    && (pc.at == CreateClaim ==> visits <= c.size)
  }

  predicate Shrunk(c: Cfg, s: State, pc: Pc, e: Effect, head: nat) {
    Left(c.size, e.createHead - head, e.pc) < Left(c.size, s.createHead - head, pc)
  }

  lemma FixShrinks(c: Cfg, s: State, pc: Pc, choice: Choice, head: nat)
    requires Shape(c, s) && pc.slot < |s.slots| && LeadsOn(c, s, s.createHead - head, pc)
    requires FunctionOf(pc.at) == Fix
    ensures Shrunk(c, s, pc, FixOperation(c, s, pc, choice), head)
  {
    hide Shape;
  }

  lemma ReserveShrinks(c: Cfg, s: State, pc: Pc, choice: Choice, head: nat)
    requires Shape(c, s) && pc.slot < |s.slots| && LeadsOn(c, s, s.createHead - head, pc)
    requires FunctionOf(pc.at) == Reserve && (pc.at == CountTry ==> !choice.fails)
    ensures Shrunk(c, s, pc, ReserveOperation(c, s, pc, choice), head)
  {
    hide Shape;
  }

  lemma EnterShrinks(c: Cfg, s: State, pc: Pc, head: nat)
    requires Shape(c, s) && pc.slot < |s.slots| && LeadsOn(c, s, s.createHead - head, pc)
    requires FunctionOf(pc.at) == Enter
    ensures Shrunk(c, s, pc, EnterOperation(c, s, pc), head)
  {
    hide Shape;
  }

  lemma ClaimShrinks(c: Cfg, s: State, pc: Pc, t: Thread, choice: Choice, head: nat)
    requires Shape(c, s) && pc.slot < |s.slots| && LeadsOn(c, s, s.createHead - head, pc)
    requires FunctionOf(pc.at) == Claim
    ensures Shrunk(c, s, pc, ClaimOperation(c, s, pc, t, choice), head)
  {
    hide Shape;
  }

  lemma CreateShrinks(c: Cfg, s: State, pc: Pc, choice: Choice, head: nat)
    requires Shape(c, s) && pc.slot < |s.slots| && LeadsOn(c, s, s.createHead - head, pc)
    requires FunctionOf(pc.at) == Create
    ensures Shrunk(c, s, pc, CreateOperation(c, s, pc, choice), head)
  {
    hide Shape;
  }

  lemma FindEntryShrinks(c: Cfg, s: State, pc: Pc, head: nat)
    requires Shape(c, s) && pc.slot < |s.slots| && LeadsOn(c, s, s.createHead - head, pc)
    requires FunctionOf(pc.at) == FindEntry
    ensures Shrunk(c, s, pc, FindEntryOperation(c, s, pc), head)
  {
    hide Shape;
  }

  lemma EvictShrinks(c: Cfg, s: State, pc: Pc, t: Thread, head: nat)
    requires Shape(c, s) && pc.slot < |s.slots| && LeadsOn(c, s, s.createHead - head, pc)
    requires FunctionOf(pc.at) == Evict
    ensures Shrunk(c, s, pc, EvictOperation(c, s, pc, t), head)
  {
    hide Shape;
  }

  lemma Shrinks(c: Cfg, s: State, pc: Pc, t: Thread, choice: Choice, head: nat)
    requires Shape(c, s) && pc.slot < |s.slots| && LeadsOn(c, s, s.createHead - head, pc)
    requires pc.at == CountTry ==> !choice.fails
    ensures Shrunk(c, s, pc, Operation(c, s, pc, t, choice), head)
  {
    assert FunctionOf(pc.at) != Unfix;
    hide FunctionOf, LeadsOn, Shrunk, FixOperation, ReserveOperation, EnterOperation, ClaimOperation, CreateOperation,
         FindEntryOperation, EvictOperation, UnfixOperation;
    match FunctionOf(pc.at)
    case Fix => FixShrinks(c, s, pc, choice, head);
    case Reserve => ReserveShrinks(c, s, pc, choice, head);
    case Enter => EnterShrinks(c, s, pc, head);
    case Claim => ClaimShrinks(c, s, pc, t, choice, head);
    case Create => CreateShrinks(c, s, pc, choice, head);
    case FindEntry => FindEntryShrinks(c, s, pc, head);
    case Evict => EvictShrinks(c, s, pc, t, head);
    case Unfix => assert false;
  }

  lemma StepShrinks(c: Cfg, v0: Clock.View, s: State, t: Thread, choice: Choice, call: Call, i: nat)
    requires Enabled(c, s, t, choice) && s.count >= 0 && s.pcs[t].at != Idle && s.pcs[t].at != Holding
    requires Along(v0, ViewOf(s), s.pcs[t], call) && Fits(s.pcs[t].at, choice, call)
    requires i < |s.slots| && s.slots[i].page == 0
    ensures var s' := Step(c, s, t, choice);
            && t in s'.pcs
            && Left(c.size, s'.createHead - v0.createHead, s'.pcs[t])
               < Left(c.size, s.createHead - v0.createHead, s.pcs[t])
  {
    hide Operation, Left, LeadsOn, Along, Fits;
    var v, pc := ViewOf(s), s.pcs[t];
    AlongLeads(c, v0, s, pc, choice, call, i);
    Shrinks(c, s, pc, t, choice, v0.createHead);
  }

  lemma AlongLeads(c: Cfg, v0: Clock.View, s: State, pc: Pc, choice: Choice, call: Call, i: nat)
    requires Shape(c, s) && s.count >= 0 && pc.at != Idle && pc.at != Holding && i < |s.slots| && s.slots[i].page == 0
    requires Along(v0, ViewOf(s), pc, call) && Fits(pc.at, choice, call)
    ensures pc.slot < |s.slots| && LeadsOn(c, s, s.createHead - v0.createHead, pc)
    ensures pc.at == CountTry ==> !choice.fails
  {
    hide AlongFull, AlongNew, Result;
    NotThere(v0, ViewOf(s), pc, call);
    ClaimLeft(v0, ViewOf(s), pc, call, i);
  }

  lemma ClaimLeft(v0: Clock.View, v: Clock.View, pc: Pc, call: Call, i: nat)
    requires Along(v0, v, pc, call) && i < |v.ring| && v.ring[i].page == 0
    ensures pc.at == CreateClaim ==> v.createHead - v0.createHead <= |v0.ring|
  {
    hide AlongFast, AlongNew, AlongFull, Result;
    if pc.at == CreateClaim {
      CreationView(v0, v, pc, call);
      ReserveKeepsHead(v0);
      SearchLeft(Clock.AfterReserve(v0).0, v, pc, call, i);
    }
  }

  lemma FreeSlotAt(c: Cfg, states: seq<State>, moves: seq<Move>, k: nat) returns (i: nat)
    requires Run(c, states, moves) && k < |states|
    ensures i < |states[k].slots| == c.size && states[k].slots[i].page == 0
  {
    hide EntriesOk, PagesOk, SlotsOk, DirOk, ThreadsOk, CountOk, Init, Run;
    Conservation(c, states, moves, k);
    i :| 0 <= i < c.size && states[k].slots[i].page == 0;
  }

  /** A call alone is over after at most 22 steps a slot and 20. */
  lemma {:induction false} AloneEnds(c: Cfg, states: seq<State>, moves: seq<Move>, t: Thread, call: Call, i: nat,
                                     k: nat)
    requires Alone(c, states, moves, t, call, i, k)
    ensures t in states[k].pcs && k - i <= 20 + 22 * c.size
    ensures Left(c.size, states[k].createHead - states[i].createHead, states[k].pcs[t]) <= 20 + 22 * c.size - (k - i)
  {
    hide Along, Step, Enabled, Init, Fits, Inv, Left;
    var s := states[k - 1];
    assert states[k] == Step(c, s, t, moves[k - 1].choice) && Enabled(c, s, t, moves[k - 1].choice);
    if k == i + 1 {
      LeftAtStart(c, s, t, moves[i].choice);
    } else {
      AloneEnds(c, states, moves, t, call, i, k - 1);
      LeftAfter(c, states, moves, t, call, i, k);
    }
  }

  lemma LeftAfter(c: Cfg, states: seq<State>, moves: seq<Move>, t: Thread, call: Call, i: nat, k: nat)
    requires Alone(c, states, moves, t, call, i, k) && i < k - 1
    ensures t in states[k].pcs && t in states[k - 1].pcs
    ensures 0 <= Left(c.size, states[k].createHead - states[i].createHead, states[k].pcs[t])
              < Left(c.size, states[k - 1].createHead - states[i].createHead, states[k - 1].pcs[t])
  {
    hide Along, Step, Enabled, Init, Fits, Inv, Left;
    RunAlong(c, states, moves, t, call, i, k);
    RunAlong(c, states, moves, t, call, i, k - 1);
    var free := FreeSlotAt(c, states, moves, k);
    var last := FreeSlotAt(c, states, moves, k - 1);
    var v0, s := ViewOf(states[i]), states[k - 1];
    assert Enabled(c, s, t, moves[k - 1].choice);
    StepShrinks(c, v0, s, t, moves[k - 1].choice, call, last);
    LeftAtEnd(v0, ViewOf(states[k]), states[k].pcs[t], call, free);
  }

  lemma LeftAtStart(c: Cfg, s: State, t: Thread, choice: Choice)
    requires Enabled(c, s, t, choice) && s.pcs[t].at == Idle
    ensures var s' := Step(c, s, t, choice);
            t in s'.pcs && s'.createHead == s.createHead && Left(c.size, 0, s'.pcs[t]) == 19 + 22 * c.size
  {
  }

  lemma LeftAtEnd(v0: Clock.View, v: Clock.View, pc: Pc, call: Call, i: nat)
    requires Along(v0, v, pc, call) && i < |v.ring| && v.ring[i].page == 0
    ensures |v0.ring| == |v.ring| && Left(|v0.ring|, v.createHead - v0.createHead, pc) >= 0
  {
    hide AlongFast, AlongNew, AlongFull, Result;
    SomeLeft(v0, v, pc, call, i);
  }

  // ---------------------------------------------------------- what Clock speaks of

  lemma {:induction false} InverseSize(dir: map<PageId, nat>, back: map<nat, PageId>)
    requires forall p :: p in dir ==> dir[p] in back && back[dir[p]] == p
    requires forall i :: i in back ==> back[i] in dir && dir[back[i]] == i
    ensures |dir| == |back|
    decreases |dir|
  {
    if p :| p in dir {
      InverseSize(dir - {p}, back - {dir[p]});
      assert dir.Keys == (dir - {p}).Keys + {p};
      assert back.Keys == (back - {dir[p]}).Keys + {dir[p]};
      assert |dir.Keys| == |dir| && |back.Keys| == |back|;
      assert |(dir - {p}).Keys| == |dir - {p}| && |(back - {dir[p]}).Keys| == |back - {dir[p]}|;
    } else {
      assert dir.Keys == {} && back.Keys == {};
    }
  }

  predicate AllQuiet(s: State) {
    forall u :: u in s.pcs ==> s.pcs[u].at == Idle || s.pcs[u].at == Holding
  }

  /** While nobody is in the middle of a call, the pager is as `Clock.Pager.Valid` has it. */
  lemma QuietPager(c: Cfg, states: seq<State>, moves: seq<Move>, k: nat)
    requires Run(c, states, moves) && k < |states| && AllQuiet(states[k])
    ensures states[k].count >= 0 && |states[k].slots| == c.size >= 2
    ensures var v := ViewOf(states[k]); Clock.Consistent(v.ring, v.dir) && v.count == |v.dir| < |v.ring|
  {
    hide Inv, Run, AllQuiet, Clock.Mapped, Clock.HeaderOk;
    RunInv(c, states, moves, k);
    QuietMapped(c, states[k]);
    forall i | 0 <= i < c.size ensures Clock.HeaderOk(FrameOf(states[k].slots[i])) {
      QuietHeader(c, states, moves, k, i);
    }
  }

  lemma QuietMapped(c: Cfg, s: State)
    requires Inv(c, s) && AllQuiet(s)
    ensures |s.slots| == c.size >= 2 && s.count == |s.dir| < c.size
    ensures Clock.Mapped(RingOf(s.slots), s.dir)
  {
    hide EntriesOk, PagesOk, SlotsOk, DirOk, FlagsOk, ThreadsOk, AllQuiet;
    SlotsAgree(c, s);
    assert Reserving(s.pcs) == {} by { NoneReserving(s); }
    hide Reserving;
    SlotsOfPages(s);
  }

  lemma NoneReserving(s: State)
    requires AllQuiet(s)
    ensures Reserving(s.pcs) == {}
  {
  }

  lemma SlotsAgree(c: Cfg, s: State)
    requires Inv(c, s) && AllQuiet(s)
    ensures Clock.Mapped(RingOf(s.slots), s.dir)
  {
    hide EntriesOk, PagesOk, FlagsOk, ThreadsOk, CountOk;
    forall i | 0 <= i < |s.slots|
      ensures s.slots[i].page != 0 ==> s.slots[i].page in s.dir && s.dir[s.slots[i].page] == i
    {
      assert SlotOk(s, i);
    }
    forall p | p in s.dir ensures MappingOk(s, p) {
    }
  }

  lemma SlotsOfPages(s: State)
    requires Clock.Mapped(RingOf(s.slots), s.dir)
    ensures |Occupied(s.slots)| == |s.dir|
  {
    var back := map i | i in Occupied(s.slots) :: s.slots[i].page;
    assert forall i :: 0 <= i < |s.slots| ==> RingOf(s.slots)[i].page == s.slots[i].page;
    InverseSize(s.dir, back);
    assert back.Keys == Occupied(s.slots);
  }

  lemma QuietHeader(c: Cfg, states: seq<State>, moves: seq<Move>, k: nat, i: nat)
    requires Run(c, states, moves) && k < |states| && i < c.size && AllQuiet(states[k])
    ensures i < |states[k].slots| && Clock.HeaderOk(FrameOf(states[k].slots[i]))
  {
    hide Init, Run, EntriesOk, PagesOk, ThreadsOk, CountOk;
    RunInv(c, states, moves, k);
    var s := states[k];
    assert SlotOk(s, i);
    if s.slots[i].page != 0 {
      assert MappingOk(s, s.slots[i].page);
      ExclusiveFlag(c, states, moves, k, i);
      WriterMarks(c, s, i);
    }
  }

  /** Between calls the writer of a page has marked it. */
  lemma WriterMarks(c: Cfg, s: State, i: nat)
    requires Inv(c, s) && AllQuiet(s) && i < |s.slots| && s.slots[i].present && !s.slots[i].raw
    ensures s.slots[i].word >= -1
    ensures s.slots[i].word == -1 ==> exists t :: t in s.pcs && MarkedAt(s.pcs[t], i)
  {
    hide EntriesOk, SlotsOk, DirOk, ThreadsOk, CountOk, Agrees;
    var h := PageModes(s.pcs, i);
    Meaning(s.slots[i].word, h);
    if s.slots[i].word == -1 {
      var t :| t in h && h[t] == Exclusive;
      assert MarkedAt(s.pcs[t], i);
    }
  }

  // ------------------------------------------------------------------ pager_unfix

  function LeftOfUnfix(at: At): nat {
    match at
    case Holding => 3
    case UnfixStore | UnfixOr => 2
    case UnfixWrite | UnfixRead => 1
    case _ => 0
  }

  lemma UnfixShrinks(c: Cfg, s: State, t: Thread, choice: Choice)
    requires Enabled(c, s, t, choice) && LeftOfUnfix(s.pcs[t].at) > 0
    ensures t in Step(c, s, t, choice).pcs
    ensures LeftOfUnfix(Step(c, s, t, choice).pcs[t].at) < LeftOfUnfix(s.pcs[t].at)
  {
    hide FixOperation, ReserveOperation, EnterOperation, ClaimOperation, CreateOperation, FindEntryOperation,
         EvictOperation;
  }

  /** An unfix alone is over after three steps; it never waits. */
  lemma {:induction false} UnfixEnds(c: Cfg, states: seq<State>, moves: seq<Move>, t: Thread, i: nat, k: nat)
    requires Run(c, states, moves) && i <= k < |states|
    requires t in states[i].pcs && states[i].pcs[t].at == Holding
    requires forall m :: i <= m < k ==> moves[m].thread == t && t in states[m].pcs && states[m].pcs[t].at != Idle
    ensures t in states[k].pcs && LeftOfUnfix(states[k].pcs[t].at) <= 3 - (k - i)
  {
    hide Step, Enabled, Init, LeftOfUnfix, AlongUnfix;
    if i == k {
      assert LeftOfUnfix(Holding) == 3 by { UnfixSteps(); }
    } else {
      UnfixEnds(c, states, moves, t, i, k - 1);
      UnfixRunAlong(c, states, moves, t, i, k - 1);
      var s, choice := states[k - 1], moves[k - 1].choice;
      assert states[k] == Step(c, s, t, choice) && Enabled(c, s, t, choice);
      NotOver(ViewOf(states[i]), ViewOf(s), s.pcs[t], states[i].pcs[t].slot);
      UnfixShrinks(c, s, t, choice);
    }
  }

  lemma UnfixSteps()
    ensures LeftOfUnfix(Holding) == 3
  {
  }

  lemma NotOver(v0: Clock.View, v: Clock.View, pc: Pc, slot: nat)
    requires AlongUnfix(v0, v, pc, slot) && pc.at != Idle
    ensures LeftOfUnfix(pc.at) > 0
  {
  }
}
