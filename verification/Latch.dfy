/**
  The latch of src/latch.c: compare-and-swap loops of any number of threads over one
  32-bit word, one atomic operation a step, in any interleaving.
*/
module Latch {
  import opened Common
  import opened LatchWord

  /** Where a thread is. An acquiring thread carries the value that it believes the
      word to have; `once` is for the try variants. */
  datatype Pc =
    | Out
    | Acquiring(exclusive: bool, once: bool, value: int)
    | Holding(exclusive: bool)

  datatype State = State(word: int, pcs: map<Thread, Pc>)

  datatype Action =
    | Call(exclusive: bool, once: bool)
    | Look(spurious: bool)
    | Release

  /** Conversion to int32_t. */
  function ToInt32(v: int): int {
    var m := v % 0x1_0000_0000;
    if m < 0x8000_0000 then m else m - 0x1_0000_0000
  }

  predicate Enabled(s: State, t: Thread, action: Action) {
    t in s.pcs &&
    match action
    case Call(_, _) => s.pcs[t].Out?
    case Look(_) => s.pcs[t].Acquiring?
    case Release => s.pcs[t].Holding?
  }

  /** One atomic operation of thread t. A weak compare-and-swap may fail spuriously. */
  function Step(s: State, t: Thread, action: Action): State
    requires Enabled(s, t, action)
  {
    match action
    case Call(exclusive, once) => s.(pcs := s.pcs[t := Acquiring(exclusive, once, 0)])
    case Look(spurious) =>
      var pc := s.pcs[t];
      if Takeable(pc.value, pc.exclusive) then
        if s.word == pc.value && !spurious then
          State(ToInt32(Taken(pc.value, pc.exclusive)), s.pcs[t := Holding(pc.exclusive)])
        else
          s.(pcs := s.pcs[t := pc.(value := s.word)])
      else if pc.once then
        s.(pcs := s.pcs[t := Out])
      else
        s.(pcs := s.pcs[t := pc.(value := s.word)])
    case Release =>
      var exclusive := s.pcs[t].exclusive;
      State(if exclusive then 0 else ToInt32(s.word - 1), s.pcs[t := Out])
  }

  function ModeOf(pc: Pc): Mode {
    if pc.Holding? then Held(pc.exclusive) else Free
  }

  function ModesOf(s: State): (h: Modes)
    ensures h.Keys == s.pcs.Keys
  {
    map t | t in s.pcs :: ModeOf(s.pcs[t])
  }

  ghost predicate Ok(s: State) {
    Agrees(s.word, ModesOf(s)) && |s.pcs| < 0x8000_0000
  }

  /** To those who use the latch, a step takes it or releases it in one go, when the
      word allows that, or does nothing. */
  ghost predicate Atomic(s: State, s': State, t: Thread)
    requires t in s.pcs
  {
    var h, h' := ModesOf(s), ModesOf(s');
    || (s'.word == s.word && h' == h)
    || (exists x :: h[t] == Free && Takeable(s.word, x) && s'.word == Taken(s.word, x) && h' == h[t := Held(x)])
    || (exists x :: h[t] == Held(x) && Releasable(s.word, x) && s'.word == Released(s.word, x) && h' == h[t := Free])
  }

  /** Every step keeps the invariant and is atomic to users; a release never meets a
      word that fails its assertion. */
  lemma StepKeeps(s: State, t: Thread, action: Action)
    requires Ok(s) && Enabled(s, t, action)
    ensures Ok(Step(s, t, action)) && Atomic(s, Step(s, t, action), t)
    ensures action.Release? ==> Releasable(s.word, s.pcs[t].exclusive)
  {
    hide Agrees;
    var s' := Step(s, t, action);
    SameThreads(s, t, action);
    FewSharers(s);
    var pc := s.pcs[t];
    if pc.Holding? {
      LatchWord.Release(s.word, ModesOf(s), t, pc.exclusive);
      assert s'.word == Released(s.word, pc.exclusive);
    } else if s'.pcs[t].Holding? {
      Take(s.word, ModesOf(s), t, pc.exclusive);
      assert s'.word == Taken(s.word, pc.exclusive);
    }
  }

  lemma SameThreads(s: State, t: Thread, action: Action)
    requires Enabled(s, t, action)
    ensures var s' := Step(s, t, action);
            && |s'.pcs| == |s.pcs| && t in s'.pcs && ModesOf(s') == ModesOf(s)[t := ModeOf(s'.pcs[t])]
            && (s.pcs[t].Out? ==> !s'.pcs[t].Holding?)
            && (!s.pcs[t].Holding? && !s'.pcs[t].Holding? ==> s'.word == s.word && ModesOf(s') == ModesOf(s))
  {
    var s' := Step(s, t, action);
    assert s'.pcs.Keys == s.pcs.Keys && |s'.pcs.Keys| == |s'.pcs| && |s.pcs.Keys| == |s.pcs|;
    assert ModesOf(s') == ModesOf(s)[t := ModeOf(s'.pcs[t])];
  }

  /** No overflow: with a thread that does not hold the latch there are fewer readers
      than threads. */
  lemma FewSharers(s: State)
    requires Ok(s)
    ensures -1 <= s.word < 0x8000_0000
    ensures (exists t :: t in s.pcs && !s.pcs[t].Holding?) ==> s.word < 0x7fff_ffff
  {
    var r := Sharers(ModesOf(s));
    SubsetSize(r, s.pcs.Keys);
    if t :| t in s.pcs && !s.pcs[t].Holding? {
      SubsetSize(r, s.pcs.Keys - {t});
    }
  }

  // ------------------------------------------------------------------- runs

  datatype Move = Move(thread: Thread, action: Action)

  ghost predicate Run(states: seq<State>, moves: seq<Move>) {
    && |states| == |moves| + 1
    && forall i :: 0 <= i < |moves| ==>
                     && Enabled(states[i], moves[i].thread, moves[i].action)
                     && states[i + 1] == Step(states[i], moves[i].thread, moves[i].action)
  }

  /** `latch_init`, before any thread uses the latch. */
  predicate Init(s: State) {
    s.word == 0 && |s.pcs| < 0x8000_0000 && forall t :: t in s.pcs ==> s.pcs[t].Out?
  }

  lemma {:induction false} RunOk(states: seq<State>, moves: seq<Move>, i: nat)
    requires Run(states, moves) && Init(states[0]) && i < |states|
    ensures Ok(states[i]) && states[i].pcs.Keys == states[0].pcs.Keys
  {
    if i == 0 {
      assert forall t :: t in ModesOf(states[0]) ==> ModesOf(states[0])[t] == Free;
      Meaning(|Sharers(ModesOf(states[0]))|, ModesOf(states[0]));
    } else {
      RunOk(states, moves, i - 1);
      StepKeeps(states[i - 1], moves[i - 1].thread, moves[i - 1].action);
    }
  }

  function Writers(s: State): set<Thread> {
    set t | t in s.pcs && s.pcs[t] == Holding(true)
  }

  function Readers(s: State): set<Thread> {
    set t | t in s.pcs && s.pcs[t] == Holding(false)
  }

  /** Exclusion, at every moment of every run: the word is -1 exactly when one writer
      and no reader hold the latch, and otherwise it is the number of readers. */
  lemma Exclusion(states: seq<State>, moves: seq<Move>, i: nat)
    requires Run(states, moves) && Init(states[0]) && i < |states|
    ensures var s := states[i];
            && (s.word == -1 <==> |Writers(s)| == 1 && Readers(s) == {})
            && (s.word != -1 ==> Writers(s) == {} && s.word == |Readers(s)|)
  {
    hide Run, Init, Agrees;
    RunOk(states, moves, i);
    var s := states[i];
    var h := ModesOf(s);
    Meaning(s.word, h);
    assert Readers(s) == Sharers(h);
    if s.word == -1 {
      var t :| t in h && h[t] == Exclusive && forall u :: u in h && u != t ==> h[u] == Free;
      assert Writers(s) == {t};
      assert forall u :: u in h ==> h[u] != Shared;
    } else {
      assert forall u :: u in h ==> h[u] != Exclusive;
    }
  }

  /** Thread t is in one call of a try variant at states j + 1 to k. */
  ghost predicate InTry(states: seq<State>, t: Thread, x: bool, j: nat, k: nat)
    requires j < k < |states|
  {
    && t in states[j + 1].pcs && states[j + 1].pcs[t] == Acquiring(x, true, 0)
    && forall m :: j < m <= k ==> t in states[m].pcs && states[m].pcs[t].Acquiring?
  }

  /** What a thread believes is 0 or was true at some moment of its call. */
  lemma {:induction false} Believed(states: seq<State>, moves: seq<Move>, t: Thread, x: bool, j: nat, k: nat)
    requires Run(states, moves) && j < k < |states| && InTry(states, t, x, j, k)
    ensures states[k].pcs[t].exclusive == x && states[k].pcs[t].once
    ensures states[k].pcs[t].value == 0 || exists m :: j < m <= k && states[m].word == states[k].pcs[t].value
  {
    if k > j + 1 {
      Believed(states, moves, t, x, j, k - 1);
      assert states[k] == Step(states[k - 1], moves[k - 1].thread, moves[k - 1].action);
      if moves[k - 1].thread == t {
        assert states[k - 1].word == states[k].word;
      } else {
        assert states[k].pcs[t] == states[k - 1].pcs[t];
      }
    }
  }

  /** A failed try-acquire means that the word did not allow it at some moment between
      the call and the return. */
  lemma FailedTry(states: seq<State>, moves: seq<Move>, t: Thread, x: bool, j: nat, k: nat)
    requires Run(states, moves) && j < k < |moves| && InTry(states, t, x, j, k)
    requires moves[k].thread == t && states[k + 1].pcs[t].Out?
    ensures exists m :: j < m <= k && !Takeable(states[m].word, x)
  {
    Believed(states, moves, t, x, j, k);
    assert states[k + 1] == Step(states[k], t, moves[k].action);
    assert !Takeable(states[k].pcs[t].value, x);
    var m :| j < m <= k && states[m].word == states[k].pcs[t].value;
  }

  // --------------------------------------------------------------- progress

  /** What one look comes to: it takes the latch exactly if the thread believes the
      word, the word allows it and the compare-and-swap does not fail spuriously; a try
      ends exactly at a belief that forbids it; otherwise the thread knows the word. */
  lemma LookComesTo(s: State, t: Thread, spurious: bool)
    requires Ok(s) && Enabled(s, t, Look(spurious))
    ensures var pc := s.pcs[t]; var s' := Step(s, t, Look(spurious)); var x := pc.exclusive;
            && t in s'.pcs && s'.pcs == s.pcs[t := s'.pcs[t]]
            && (s'.pcs[t] == Holding(x) && s'.word == Taken(s.word, x)
                <==> pc.value == s.word && Takeable(s.word, x) && !spurious)
            && (s'.pcs[t] == Out <==> pc.once && !Takeable(pc.value, x))
            && (s'.pcs[t] == Holding(x)
                || (s'.word == s.word && (s'.pcs[t] == Out || s'.pcs[t] == pc.(value := s.word))))
  {
    hide Agrees;
    FewSharers(s);
  }

  /** A release lets go of the latch, in the mode in which the thread had it. */
  lemma ReleaseLetsGo(s: State, t: Thread)
    requires Ok(s) && Enabled(s, t, Action.Release)
    ensures Step(s, t, Action.Release) == State(Released(s.word, s.pcs[t].exclusive), s.pcs[t := Out])
  {
    hide Agrees;
    FewSharers(s);
    LatchWord.Release(s.word, ModesOf(s), t, s.pcs[t].exclusive);
  }

  /** The state once t has the latch. */
  function WithLatch(s: State, t: Thread, x: bool): State {
    State(Taken(s.word, x), s.pcs[t := Holding(x)])
  }

  /** Two looks without a spurious failure take a latch that is to be had, whatever the
      thread believes; a try must not believe that it is not to be had. */
  lemma TwoLooksTake(s: State, t: Thread)
    requires Ok(s) && Enabled(s, t, Look(false)) && Takeable(s.word, s.pcs[t].exclusive)
    requires s.pcs[t].once ==> Takeable(s.pcs[t].value, s.pcs[t].exclusive)
    ensures var x, s' := s.pcs[t].exclusive, Step(s, t, Look(false));
            s' == WithLatch(s, t, x)
            || (Enabled(s', t, Look(false)) && Step(s', t, Look(false)) == WithLatch(s, t, x))
  {
    hide Ok, Step;
    LookComesTo(s, t, false);
    StepKeeps(s, t, Look(false));
    var s' := Step(s, t, Look(false));
    if s'.pcs[t] != Holding(s.pcs[t].exclusive) {
      LookComesTo(s', t, false);
    }
  }

  /** A call and at most two looks: alone a thread gets a latch that is to be had, by the
      loops and by the tries, and its release leaves the word as it was. */
  lemma AloneTakesAndReleases(s: State, t: Thread, x: bool, once: bool)
    requires Ok(s) && Enabled(s, t, Call(x, once)) && Takeable(s.word, x)
    ensures var s1 := Step(s, t, Call(x, once)); var held := WithLatch(s, t, x);
            && Enabled(s1, t, Look(false))
            && var s2 := Step(s1, t, Look(false));
               && (s2 == held || (Enabled(s2, t, Look(false)) && Step(s2, t, Look(false)) == held))
               && Enabled(held, t, Action.Release) && Step(held, t, Action.Release) == s
  {
    hide Ok;
    StepKeeps(s, t, Call(x, once));
    var s1 := Step(s, t, Call(x, once));
    hide Step;
    TwoLooksTake(s1, t);
    var held := WithLatch(s, t, x);
    assert s1.pcs[t := Holding(x)] == held.pcs;
    if Step(s1, t, Look(false)) == held {
      StepKeeps(s1, t, Look(false));
    } else {
      StepKeeps(s1, t, Look(false));
      StepKeeps(Step(s1, t, Look(false)), t, Look(false));
    }
    ReleaseLetsGo(held, t);
    assert held.pcs[t := Out] == s.pcs;
  }

  lemma {:induction false} StaysPut(states: seq<State>, moves: seq<Move>, t: Thread, j: nat, k: nat)
    requires Run(states, moves) && j <= k < |states| && t in states[j].pcs
    requires forall m :: j <= m < k ==> moves[m].thread != t
    ensures t in states[k].pcs && states[k].pcs[t] == states[j].pcs[t]
  {
    if j < k {
      StaysPut(states, moves, t, j, k - 1);
      assert states[k] == Step(states[k - 1], moves[k - 1].thread, moves[k - 1].action);
    }
  }

  /** Progress in a run: a thread that looks twice at one word that allows what it wants,
      with no look of its own in between, has the latch. Others may look, and even take
      and release the latch, meanwhile. */
  lemma Progress(states: seq<State>, moves: seq<Move>, t: Thread, j: nat, k: nat)
    requires Run(states, moves) && Init(states[0]) && j < k < |moves|
    requires moves[j] == Move(t, Look(false)) && moves[k] == Move(t, Look(false))
    requires forall m :: j < m < k ==> moves[m].thread != t
    ensures t in states[j].pcs && states[j].pcs[t].Acquiring? && t in states[k + 1].pcs
    ensures states[k].word == states[j].word && Takeable(states[j].word, states[j].pcs[t].exclusive) ==>
              states[k + 1].pcs[t] == Holding(states[j].pcs[t].exclusive)
              && states[k + 1].word == Taken(states[k].word, states[j].pcs[t].exclusive)
  {
    hide Ok, Step, Init;
    RunOk(states, moves, j);
    RunOk(states, moves, k);
    assert Enabled(states[j], t, Look(false)) && Enabled(states[k], t, Look(false));
    LookComesTo(states[j], t, false);
    LookComesTo(states[k], t, false);
    StaysPut(states, moves, t, j + 1, k);
  }
}
