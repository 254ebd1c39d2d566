/**
  What the word of a readers-writer latch says about who holds it: -1 for a writer,
  otherwise the number of readers.
*/
module LatchWord {
  type Thread = nat

  datatype Mode = Free | Shared | Exclusive

  type Modes = map<Thread, Mode>

  function Sharers(h: Modes): set<Thread> {
    set t | t in h && h[t] == Shared
  }

  predicate HasWriter(h: Modes) {
    exists t :: t in h && h[t] == Exclusive
  }

  /** A writer is alone. */
  predicate WriterAlone(h: Modes) {
    forall t, u :: t in h && u in h && t != u && h[t] == Exclusive ==> h[u] == Free
  }

  predicate Agrees(word: int, h: Modes) {
    WriterAlone(h) && word == if HasWriter(h) then -1 else |Sharers(h)|
  }

  // ------------------------------------------------ taking and releasing it

  function Held(exclusive: bool): Mode {
    if exclusive then Exclusive else Shared
  }

  predicate Takeable(word: int, exclusive: bool) {
    if exclusive then word == 0 else word >= 0
  }

  function Taken(word: int, exclusive: bool): int {
    if exclusive then -1 else word + 1
  }

  /** The assertions of `latch_release_read` and `latch_release_write`. */
  predicate Releasable(word: int, exclusive: bool) {
    if exclusive then word == -1 else word > 0
  }

  function Released(word: int, exclusive: bool): int {
    if exclusive then 0 else word - 1
  }

  lemma Take(word: int, h: Modes, t: Thread, exclusive: bool)
    requires Agrees(word, h) && t in h && h[t] == Free && Takeable(word, exclusive)
    ensures Agrees(Taken(word, exclusive), h[t := Held(exclusive)])
  {
    var h' := h[t := Held(exclusive)];
    NoWriter(word, h);
    if exclusive {
      assert h'[t] == Exclusive;
      NoSharers(h);
    } else {
      assert Sharers(h') == Sharers(h) + {t};
      assert forall u :: u in h' ==> h'[u] != Exclusive;
    }
  }

  lemma Release(word: int, h: Modes, t: Thread, exclusive: bool)
    requires Agrees(word, h) && t in h && h[t] == Held(exclusive)
    ensures Releasable(word, exclusive) && Agrees(Released(word, exclusive), h[t := Free])
  {
    var h' := h[t := Free];
    if exclusive {
      assert Sharers(h') == {};
      assert forall u :: u in h' ==> h'[u] == Free;
    } else {
      NoWriter(word, h);
      assert t in Sharers(h) && Sharers(h') == Sharers(h) - {t};
      assert forall u :: u in h' ==> h'[u] != Exclusive;
    }
  }

  lemma NoWriter(word: int, h: Modes)
    requires Agrees(word, h) && (word >= 0 || exists t :: t in h && h[t] == Shared)
    ensures forall t :: t in h ==> h[t] != Exclusive
    ensures word == |Sharers(h)|
  {
  }

  lemma NoSharers(h: Modes)
    requires |Sharers(h)| == 0
    ensures forall t :: t in h ==> h[t] != Shared
  {
    assert forall t :: t in h ==> (t in Sharers(h) <==> h[t] == Shared);
    assert Sharers(h) == {};
  }

  /** The word decides: -1 exactly for one writer alone, 0 exactly for nobody, and
      otherwise the number of readers. */
  lemma Meaning(word: int, h: Modes)
    requires Agrees(word, h)
    ensures word == -1 <==> HasWriter(h)
    ensures word == -1 <==> exists t :: t in h && h[t] == Exclusive && forall u :: u in h && u != t ==> h[u] == Free
    ensures word == 0 <==> forall t :: t in h ==> h[t] == Free
    ensures word != -1 ==> word == |Sharers(h)|
  {
    if word == -1 {
      var t :| t in h && h[t] == Exclusive;
      assert forall u :: u in h && u != t ==> h[u] == Free;
    }
    if word == 0 {
      NoWriter(word, h);
      NoSharers(h);
    }
    if forall t :: t in h ==> h[t] == Free {
      assert Sharers(h) == {};
    }
  }

  /** Whoever holds the latch shows in the word, and excludes others. */
  lemma Holds(word: int, h: Modes, t: Thread)
    requires Agrees(word, h) && t in h && h[t] != Free
    ensures h[t] == Exclusive ==> word == -1 && forall u :: u in h && u != t ==> h[u] == Free
    ensures h[t] == Shared ==> word > 0 && forall u :: u in h ==> h[u] != Exclusive
  {
    Release(word, h, t, h[t] == Exclusive);
    if h[t] == Shared {
      NoWriter(word, h);
    }
  }

  /** The word changes as the thread's mode does. */
  predicate Follows(word: int, word': int, mode: Mode, mode': Mode) {
    if mode' == mode then word' == word
    else if mode == Free then Takeable(word, mode' == Exclusive) && word' == Taken(word, mode' == Exclusive)
    else mode' == Free && word' == Released(word, mode == Exclusive)
  }

  lemma FollowsKeeps(word: int, word': int, h: Modes, t: Thread, mode': Mode)
    requires Agrees(word, h) && t in h && Follows(word, word', h[t], mode')
    ensures Agrees(word', h[t := mode'])
  {
    hide Agrees, Takeable, Taken, Released;
    if mode' == h[t] {
      assert h[t := mode'] == h;
    } else if h[t] == Free {
      Take(word, h, t, mode' == Exclusive);
    } else {
      Release(word, h, t, h[t] == Exclusive);
    }
  }
}
