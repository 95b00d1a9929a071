/** A barrier of a mutex and a condition variable, as the steps of its threads. Threads 0 to N-1 each call block once;
    thread N calls releaseThreads once. A wait ends only by a broadcast. */
module Barrier {
  import opened Options

  /** Where a thread is in its call. From Locked to Leaving, save while waiting, it holds the mutex. */
  datatype Pc = Start | Locked | Counted | ResetCount | ResetTarget | Broadcast | Waiting | Woken | Leaving | Done

  /** holder is the thread with the mutex, or -1. */
  datatype State = State(pc: seq<Pc>, n: nat, waitFor: nat, holder: int)

  predicate Holding(p: Pc) { p in {Locked, Counted, ResetCount, ResetTarget, Broadcast, Leaving} }

  predicate Entered(p: Pc) { p != Start && p != Locked }

  function AllStart(k: nat): (pc: seq<Pc>)
    ensures |pc| == k && forall i {:trigger pc[i]} :: 0 <= i < k ==> pc[i] == Start
  {
    seq(k, i => Start)
  }

  function Initial(threads: nat): State { State(AllStart(threads + 1), 0, 0, -1) }

  function WakeAll(pc: seq<Pc>): (r: seq<Pc>)
    ensures |r| == |pc| && forall i {:trigger r[i]} :: 0 <= i < |pc| ==> r[i] == if pc[i] == Waiting then Woken else pc[i]
  {
    seq(|pc|, i requires 0 <= i < |pc| => if pc[i] == Waiting then Woken else pc[i])
  }

  /** One step of thread t, if it can take one. num is what releaseThreads was called with. */
  function Step(num: nat, s: State, t: nat): Option<State>
    requires t < |s.pc|
  {
    var releaser := t == |s.pc| - 1;
    match s.pc[t]
    case Start => if s.holder == -1 then Some(s.(pc := s.pc[t := Locked], holder := t)) else None
    case Locked =>
      if !releaser then Some(s.(pc := s.pc[t := Counted], n := s.n + 1))
      else if s.n >= num then Some(s.(pc := s.pc[t := ResetCount]))
      else Some(s.(pc := s.pc[t := Waiting], waitFor := num, holder := -1))
    case Counted =>
      if s.waitFor > 0 && s.n == s.waitFor then Some(s.(pc := s.pc[t := ResetCount]))
      else Some(s.(pc := s.pc[t := Waiting], holder := -1))
    case ResetCount => Some(s.(pc := s.pc[t := ResetTarget], n := 0))
    case ResetTarget => Some(s.(pc := s.pc[t := Broadcast], waitFor := 0))
    case Broadcast => Some(s.(pc := WakeAll(s.pc[t := Leaving])))
    case Woken => if s.holder == -1 then Some(s.(pc := s.pc[t := Leaving], holder := t)) else None
    case Leaving => Some(s.(pc := s.pc[t := Done], holder := -1))
    case Waiting => None
    case Done => None
  }

  /** A schedule runs if every step in it can be taken. */
  function Run(num: nat, s: State, schedule: seq<nat>): Option<State>
    decreases |schedule|
  {
    if schedule == [] then Some(s)
    else
      match Run(num, s, schedule[..|schedule| - 1])
      case None => None
      case Some(s') =>
        var t := schedule[|schedule| - 1];
        if t < |s'.pc| then Step(num, s', t) else None
  }

  ghost predicate Reachable(threads: nat, num: nat, s: State) {
    exists schedule :: Run(num, Initial(threads), schedule) == Some(s)
  }

  predicate CanStep(num: nat, s: State, t: nat) { t < |s.pc| && Step(num, s, t).Some? }

  ghost predicate Stuck(num: nat, s: State) { forall t {:trigger CanStep(num, s, t)} :: !CanStep(num, s, t) }

  predicate AllDone(s: State) { forall t {:trigger s.pc[t]} :: 0 <= t < |s.pc| ==> s.pc[t] == Done }

  predicate AllEntered(s: State) { forall t {:trigger s.pc[t]} :: 0 <= t < |s.pc| ==> Entered(s.pc[t]) }

  // ----- Counting -----

  /** Blocking threads below k that have been counted. */
  function CountedBelow(pc: seq<Pc>, k: nat): (c: nat)
    requires k <= |pc|
    ensures c <= k
  {
    if k == 0 then 0 else CountedBelow(pc, k - 1) + (if pc[k - 1] == Counted || pc[k - 1] == Waiting then 1 else 0)
  }

  lemma {:induction false} CountUpdate(pc: seq<Pc>, k: nat, t: nat, p: Pc)
    requires k <= |pc| && t < |pc|
    ensures CountedBelow(pc[t := p], k) - CountedBelow(pc, k) ==
            if t < k then (if p == Counted || p == Waiting then 1 else 0)
                          - (if pc[t] == Counted || pc[t] == Waiting then 1 else 0)
            else 0
    decreases k
  {
    if k > 0 { CountUpdate(pc, k - 1, t, p); }
  }

  lemma {:induction false} CountFull(pc: seq<Pc>, k: nat)
    requires k <= |pc|
    ensures CountedBelow(pc, k) == k ==> forall i {:trigger pc[i]} :: 0 <= i < k ==> pc[i] == Counted || pc[i] == Waiting
    decreases k
  {
    if k > 0 { CountFull(pc, k - 1); }
  }

  lemma {:induction false} CountNone(pc: seq<Pc>, k: nat)
    requires k <= |pc| && forall i {:trigger pc[i]} :: 0 <= i < k ==> pc[i] == Start
    ensures CountedBelow(pc, k) == 0
    decreases k
  {
    if k > 0 { CountNone(pc, k - 1); }
  }

  // ----- The invariant -----

  ghost predicate Exclusive(s: State) {
    && -1 <= s.holder < |s.pc|
    && forall t {:trigger s.pc[t]} :: 0 <= t < |s.pc| ==> (Holding(s.pc[t]) <==> t == s.holder)
  }

  /** Nobody has been released yet. */
  ghost predicate Gathering(num: nat, s: State) {
    && |s.pc| > 0
    && (forall t {:trigger s.pc[t]} :: 0 <= t < |s.pc| ==> s.pc[t] in {Start, Locked, Counted, Waiting})
    && s.pc[|s.pc| - 1] != Counted
    && s.n == CountedBelow(s.pc, |s.pc| - 1)
    && s.waitFor == (if s.pc[|s.pc| - 1] == Waiting then num else 0)
  }

  /** Whoever waits for the others is not the last. */
  ghost predicate NotLast(num: nat, s: State) {
    |s.pc| > 0 && (s.pc[|s.pc| - 1] == Waiting ==> s.n < num || (0 <= s.holder < |s.pc| && s.pc[s.holder] == Counted))
  }

  /** One thread is releasing all others, which wait. */
  ghost predicate Releasing(s: State) {
    && 0 <= s.holder < |s.pc| && s.pc[s.holder] in {ResetCount, ResetTarget, Broadcast}
    && forall t {:trigger s.pc[t]} :: 0 <= t < |s.pc| && t != s.holder ==> s.pc[t] == Waiting
  }

  /** All are on their way out. */
  ghost predicate Departing(s: State) {
    forall t {:trigger s.pc[t]} :: 0 <= t < |s.pc| ==> s.pc[t] in {Woken, Leaving, Done}
  }

  ghost predicate Inv(threads: nat, s: State) {
    && |s.pc| == threads + 1 && Exclusive(s)
    && ((Gathering(threads, s) && NotLast(threads, s)) || Releasing(s) || Departing(s))
  }

  lemma InitialInv(threads: nat)
    ensures Inv(threads, Initial(threads))
  {
    CountNone(Initial(threads).pc, threads);
  }

  lemma StepExclusive(num: nat, s: State, t: nat)
    requires Exclusive(s) && CanStep(num, s, t)
    ensures Exclusive(Step(num, s, t).value) && |Step(num, s, t).value.pc| == |s.pc|
  {
    var s' := Step(num, s, t).value;
    assert Holding(s.pc[t]) <==> t == s.holder;
    forall u | 0 <= u < |s'.pc| ensures Holding(s'.pc[u]) <==> u == s'.holder {
      assert Holding(s.pc[u]) <==> u == s.holder;
    }
  }

  lemma StepGathering(threads: nat, s: State, t: nat)
    requires |s.pc| == threads + 1 && Exclusive(s) && Gathering(threads, s) && NotLast(threads, s) && CanStep(threads, s, t)
    ensures var s' := Step(threads, s, t).value; (Gathering(threads, s') && NotLast(threads, s')) || Releasing(s')
  {
    var s' := Step(threads, s, t).value;
    assert s.pc[t] in {Start, Locked, Counted, Waiting};
    assert Holding(s.pc[t]) <==> t == s.holder;
    CountUpdate(s.pc, threads, t, s'.pc[t]);
    if s'.pc[t] == ResetCount {
      AllWait(threads, s, t);
    } else {
      hide CountedBelow;
      assert s'.pc == s.pc[t := s'.pc[t]];
      assert forall u {:trigger s'.pc[u]} :: 0 <= u < |s'.pc| && u != t ==> s'.pc[u] == s.pc[u];
    }
  }

  /** The thread that finds the count complete is the last to come. */
  lemma AllWait(threads: nat, s: State, t: nat)
    requires |s.pc| == threads + 1 && Exclusive(s) && Gathering(threads, s) && t < |s.pc| && t == s.holder
    requires (t == threads && s.n >= threads) || (t != threads && s.pc[t] == Counted && s.waitFor > 0 && s.n == s.waitFor)
    ensures forall u {:trigger s.pc[u]} :: 0 <= u < |s.pc| && u != t ==> s.pc[u] == Waiting
  {
    CountFull(s.pc, threads);
    forall u | 0 <= u < |s.pc| && u != t ensures s.pc[u] == Waiting {
      assert Holding(s.pc[u]) <==> u == s.holder;
    }
  }

  lemma StepInv(threads: nat, s: State, t: nat)
    requires Inv(threads, s) && CanStep(threads, s, t)
    ensures Inv(threads, Step(threads, s, t).value)
  {
    StepExclusive(threads, s, t);
    if Gathering(threads, s) && NotLast(threads, s) {
      StepGathering(threads, s, t);
    } else if Releasing(s) {
      StepReleasing(threads, s, t);
    } else {
      StepDeparting(threads, s, t);
    }
  }

  lemma StepReleasing(num: nat, s: State, t: nat)
    requires Releasing(s) && CanStep(num, s, t)
    ensures Releasing(Step(num, s, t).value) || Departing(Step(num, s, t).value)
  {
    assert t == s.holder;
  }

  lemma StepDeparting(num: nat, s: State, t: nat)
    requires Departing(s) && CanStep(num, s, t)
    ensures Departing(Step(num, s, t).value)
  {
    assert s.pc[t] in {Woken, Leaving, Done};
  }

  lemma {:induction false} RunInv(threads: nat, schedule: seq<nat>)
    requires Run(threads, Initial(threads), schedule).Some?
    ensures Inv(threads, Run(threads, Initial(threads), schedule).value)
    decreases |schedule|
  {
    hide Step, Inv;
    if schedule == [] {
      InitialInv(threads);
    } else {
      RunInv(threads, schedule[..|schedule| - 1]);
      StepInv(threads, Run(threads, Initial(threads), schedule[..|schedule| - 1]).value, schedule[|schedule| - 1]);
    }
  }

  // ----- What the barrier promises -----

  /** No call returns, or is about to, before all have entered. */
  lemma NobodyReturnsEarly(threads: nat, s: State, t: nat)
    requires Reachable(threads, threads, s) && t < |s.pc| && s.pc[t] in {Woken, Leaving, Done}
    ensures AllEntered(s)
  {
    var schedule :| Run(threads, Initial(threads), schedule) == Some(s);
    RunInv(threads, schedule);
  }

  /** The assertion in block. */
  lemma CountWithinTarget(threads: nat, s: State, t: nat)
    requires Reachable(threads, threads, s) && t < |s.pc| && s.pc[t] == Counted
    ensures s.waitFor == 0 || s.n <= s.waitFor
  {
    var schedule :| Run(threads, Initial(threads), schedule) == Some(s);
    RunInv(threads, schedule);
  }

  lemma InvNotStuck(threads: nat, s: State)
    requires Inv(threads, s) && !AllDone(s)
    ensures exists t :: CanStep(threads, s, t)
  {
    if s.holder != -1 {
      assert Holding(s.pc[s.holder]);
      assert CanStep(threads, s, s.holder);
    } else if Gathering(threads, s) {
      var t := SomeoneStarts(threads, s);
      assert CanStep(threads, s, t);
    } else {
      var t :| 0 <= t < |s.pc| && s.pc[t] != Done;
      assert Holding(s.pc[t]) <==> t == s.holder;
      assert CanStep(threads, s, t);
    }
  }

  lemma SomeoneStarts(threads: nat, s: State) returns (t: nat)
    requires |s.pc| == threads + 1 && Exclusive(s) && Gathering(threads, s) && NotLast(threads, s) && s.holder == -1
    ensures t < |s.pc| && s.pc[t] == Start
  {
    assert forall u {:trigger s.pc[u]} :: 0 <= u < |s.pc| ==> !Holding(s.pc[u]);
    if s.pc[threads] == Start {
      t := threads;
    } else {
      assert s.n < threads;
      t := Uncounted(s.pc, threads);
    }
  }

  lemma {:induction false} Uncounted(pc: seq<Pc>, k: nat) returns (t: nat)
    requires k <= |pc| && CountedBelow(pc, k) < k
    ensures t < k && pc[t] != Counted && pc[t] != Waiting
    decreases k
  {
    if pc[k - 1] != Counted && pc[k - 1] != Waiting { t := k - 1; } else { t := Uncounted(pc, k - 1); }
  }

  /** No reachable state is stuck before all have returned. */
  lemma NeverStuck(threads: nat, s: State)
    requires Reachable(threads, threads, s) && Stuck(threads, s)
    ensures AllDone(s)
  {
    var schedule :| Run(threads, Initial(threads), schedule) == Some(s);
    RunInv(threads, schedule);
    if !AllDone(s) {
      InvNotStuck(threads, s);
      assert false;
    }
  }
}
