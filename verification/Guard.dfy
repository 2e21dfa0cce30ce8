/** The one-time construction guard of the C++ runtime, as atomic steps of any number of threads. */
module Guard {

  const INITIALIZED: nat := 1
  const IN_USE: nat := 256

  /** The lowest bit of the guard word. */
  predicate IsInitialized(word: nat) {
    word % 2 == 1
  }

  /** A thread is outside the protocol, about to do the first load, in the compare-and-swap loop,
      constructing (acquire returned 1), or past the object (acquire returned 0). */
  datatype Pc = Outside | Loading | Looping | Constructing | Ready

  datatype State = State(word: nat, threads: map<nat, Pc>, released: bool)

  datatype Step = Call | Load | Swap | Release | Abort | Return

  function With(s: State, i: nat, pc: Pc): State {
    s.(threads := s.threads[i := pc])
  }

  /** Thread `i` performs one atomic step. `released` records that some release store has happened. */
  ghost predicate StepBy(s: State, s': State, i: nat, step: Step) {
    && i in s.threads
    && match step
       case Call => s.threads[i] == Outside && s' == With(s, i, Loading)
       case Load => s.threads[i] == Loading && s' == With(s, i, if IsInitialized(s.word) then Ready else Looping)
       case Swap =>
         && s.threads[i] == Looping
         && s' == (if s.word == 0 then With(s, i, Constructing).(word := IN_USE)
                   else With(s, i, if IsInitialized(s.word) then Ready else Looping))
       case Release => s.threads[i] == Constructing && s' == With(s, i, Ready).(word := INITIALIZED, released := true)
       case Abort => s.threads[i] == Constructing && s' == With(s, i, Outside).(word := 0)
       case Return => s.threads[i] == Ready && s' == With(s, i, Outside)
  }

  ghost predicate Builds(s: State, i: nat) {
    i in s.threads && s.threads[i] == Constructing
  }

  ghost predicate Next(s: State, s': State) {
    exists i: nat, step :: StepBy(s, s', i, step)
  }

  ghost predicate Inv(s: State) {
    && s.word in {0, INITIALIZED, IN_USE} && (s.word == INITIALIZED <==> s.released)
    && (s.word == IN_USE <==> exists i: nat :: Builds(s, i))
    && (forall i: nat, j: nat :: Builds(s, i) && Builds(s, j) ==> i == j)
    && (forall i: nat :: i in s.threads && s.threads[i] == Ready ==> s.released)
  }

  lemma StepKeepsInv(s: State, s': State, i: nat, step: Step)
    requires Inv(s) && StepBy(s, s', i, step)
    ensures Inv(s') && (s.released ==> s'.released && step != Release && step != Abort)
    ensures s'.threads[i] == Constructing ==> !s.released && !s'.released
  {
    assert forall j: nat :: j in s.threads && j != i ==> s'.threads[j] == s.threads[j];
    assert forall j: nat :: j != i ==> (Builds(s', j) <==> Builds(s, j));
    assert s.threads[i] == Constructing ==> Builds(s, i);
    assert s'.threads[i] == Constructing ==> Builds(s', i);
    if s'.word == IN_USE && s'.threads[i] != Constructing {
      var j: nat :| Builds(s, j);
      assert Builds(s', j);
    }
  }

  ghost predicate Start(s: State) {
    s.word == 0 && !s.released && forall i: nat :: i in s.threads ==> s.threads[i] == Outside
  }

  ghost predicate Run(states: seq<State>) {
    states != [] && Start(states[0]) && forall k :: 0 <= k < |states| - 1 ==> Next(states[k], states[k + 1])
  }

  lemma {:induction false} RunKeepsInv(states: seq<State>, n: nat)
    requires Run(states) && n < |states|
    ensures Inv(states[n])
    decreases n
  {
    if n > 0 {
      RunKeepsInv(states, n - 1);
      assert Next(states[n - 1], states[n - 1 + 1]);
      var i: nat, step :| StepBy(states[n - 1], states[n], i, step);
      StepKeepsInv(states[n - 1], states[n], i, step);
    }
  }

  /** At most one thread constructs at a time, and nobody is past the object before a release. */
  lemma ConstructsAlone(states: seq<State>, n: nat)
    requires Run(states) && n < |states|
    ensures forall i: nat, j: nat :: Builds(states[n], i) && Builds(states[n], j) ==> i == j
    ensures forall i: nat :: i in states[n].threads && states[n].threads[i] == Ready ==> states[n].released
  {
    RunKeepsInv(states, n);
  }

  /** Once a release has happened no thread is ever told to construct again, whatever aborts came
      before it. */
  lemma {:induction false} ReleaseIsFinal(states: seq<State>, m: nat, n: nat)
    requires Run(states) && m <= n < |states| && states[m].released
    ensures states[n].released && forall i: nat :: !Builds(states[n], i)
    decreases n - m
  {
    RunKeepsInv(states, n);
    if m < n {
      ReleaseIsFinal(states, m, n - 1);
      RunKeepsInv(states, n - 1);
      assert Next(states[n - 1], states[n - 1 + 1]);
      var i: nat, step :| StepBy(states[n - 1], states[n], i, step);
      StepKeepsInv(states[n - 1], states[n], i, step);
    }
    assert states[n].word != IN_USE;
  }

  /** What a try of a thread leads to: it constructs exactly when nothing was released and nobody else
      constructs, it is done with the object exactly when something was released, and tries again
      otherwise. A first load is done exactly in the same case. */
  lemma TryIs(s: State, s': State, i: nat, step: Step)
    requires Inv(s) && StepBy(s, s', i, step) && (step == Swap || step == Load)
    ensures s'.threads[i] == Constructing <==> step == Swap && !s.released && !exists j: nat :: Builds(s, j)
    ensures s'.threads[i] == Ready <==> s.released
    ensures s'.threads[i] == Looping <==>
            !s.released && (step == Load || exists j: nat :: Builds(s, j))
  {
  }

  /** An abort reopens the guard: the next thread to try constructs. */
  lemma AbortReopens(s: State, s': State, s'': State, i: nat, j: nat)
    requires Inv(s) && StepBy(s, s', i, Abort) && StepBy(s', s'', j, Swap)
    ensures s''.threads[j] == Constructing && !s''.released
  {
    StepKeepsInv(s, s', i, Abort);
    StepKeepsInv(s', s'', j, Swap);
  }
}
