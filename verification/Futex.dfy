/** The futex lock of atomic_ops: AO_wait_lock and AO_unlock, as steps of any number
    of threads.  The lock word holds the identity of its owner, or 0. */
module FutexLock {
  datatype Pc =
    | Outside       // does not have the lock and does not want it
    | Trying        // in AO_wait_lock, about to compare and swap
    | Looking       // about to read the lock word
    | Waiting       // about to call futex_wait with the value read
    | Asleep        // in futex_wait
    | Holding       // has the lock
    | Releasing     // in AO_unlock, about to store 0
    | Waking        // about to call futex_wake

  datatype Thread = Thread(pc: Pc, seen: nat)

  datatype Sys = Sys(word: nat, threads: map<nat, Thread>)

  datatype Act =
    | Begin             // a new thread
    | Wait              // call AO_wait_lock: returns at once if the caller has the lock
    | Run               // the next step
    | Unlock            // call AO_unlock: returns at once if the caller has not the lock
    | Wake(u: nat)      // futex_wake wakes thread u
    | WakeNone          // futex_wake finds nobody asleep
    | Spurious          // futex_wait returns for another reason

  predicate Enabled(s: Sys, t: nat, a: Act) {
    && t != 0
    && match a
       case Begin => t !in s.threads
       case Wait => t in s.threads && (s.threads[t].pc == Outside || s.threads[t].pc == Holding)
       case Run => t in s.threads && (Contends(s.threads[t].pc) || s.threads[t].pc == Releasing)
       case Unlock => t in s.threads && (s.threads[t].pc == Outside || s.threads[t].pc == Holding)
       case Wake(u) => t in s.threads && s.threads[t].pc == Waking && u in s.threads && s.threads[u].pc == Asleep
       case WakeNone => t in s.threads && s.threads[t].pc == Waking && forall u ::
               u in s.threads ==> s.threads[u].pc != Asleep
       case Spurious => t in s.threads && s.threads[t].pc == Asleep
  }

  function Put(s: Sys, t: nat, th: Thread): Sys { s.(threads := s.threads[t := th]) }

  function Next(s: Sys, t: nat, a: Act): Sys
    requires Enabled(s, t, a)
  {
    match a
    case Begin => Put(s, t, Thread(Outside, 0))
    case Wait => if s.word == t then s else Put(s, t, s.threads[t].(pc := Trying))
    case Unlock => if s.word != t then s else Put(s, t, s.threads[t].(pc := Releasing))
    case Wake(u) => Put(Put(s, u, s.threads[u].(pc := Trying)), t, s.threads[t].(pc := Outside))
    case WakeNone => Put(s, t, s.threads[t].(pc := Outside))
    case Spurious => Put(s, t, s.threads[t].(pc := Trying))
    case Run =>
      var th := s.threads[t];
      match th.pc
      case Trying => if s.word == 0 then Put(s.(word := t), t, th.(pc := Holding)) else Put(s, t, th.(pc := Looking))
      case Looking => Put(s, t, if s.word == 0 then th.(pc := Trying) else th.(pc := Waiting, seen := s.word))
      case Waiting => Put(s, t, if s.word == th.seen then th.(pc := Asleep) else th.(pc := Trying))
      case Releasing => Put(s.(word := 0), t, th.(pc := Waking))
      case _ => s
  }

  predicate Owner(pc: Pc) { pc == Holding || pc == Releasing }

  /** Awake and about to try for the lock. */
  predicate Contends(pc: Pc) { pc == Trying || pc == Looking || pc == Waiting }

  /** Somebody will act on a free lock: a thread that tries for it, or one about to
      wake a sleeper. */
  ghost predicate Noticed(s: Sys) {
    exists t :: t in s.threads && (Contends(s.threads[t].pc) || s.threads[t].pc == Waking)
  }

  ghost predicate SomeAsleep(s: Sys) { exists t :: t in s.threads && s.threads[t].pc == Asleep }

  ghost predicate Owned(s: Sys) {
    && 0 !in s.threads && (s.word != 0 ==> s.word in s.threads)
    && (forall t {:trigger s.threads[t]} :: t in s.threads ==>
          && (Owner(s.threads[t].pc) <==> s.word == t)
          && (s.threads[t].pc == Waiting ==> s.threads[t].seen != 0))
  }

  ghost predicate Inv(s: Sys) { Owned(s) && (s.word == 0 && SomeAsleep(s) ==> Noticed(s)) }

  lemma OwnedNext(s: Sys, t: nat, a: Act)
    requires Owned(s) && Enabled(s, t, a)
    ensures Owned(Next(s, t, a))
  {
  }

  lemma NoticedNext(s: Sys, t: nat, a: Act, u: nat)
    requires Inv(s) && Enabled(s, t, a)
    requires Next(s, t, a).word == 0 && u in Next(s, t, a).threads && Next(s, t, a).threads[u].pc == Asleep
    ensures Noticed(Next(s, t, a))
  {
    var s' := Next(s, t, a);
    if a == Run && s.threads[t].pc == Releasing {
      assert s'.threads[t].pc == Waking;
    } else if a.Wake? {
      assert Contends(s'.threads[a.u].pc);
    } else {
      assert s.threads[u].pc == Asleep;
      var w :| w in s.threads && (Contends(s.threads[w].pc) || s.threads[w].pc == Waking);
      assert w in s'.threads && (Contends(s'.threads[w].pc) || s'.threads[w].pc == Waking);
    }
  }

  /** Every step keeps the invariant. */
  lemma NextKeeps(s: Sys, t: nat, a: Act)
    requires Inv(s) && Enabled(s, t, a)
    ensures Inv(Next(s, t, a))
  {
    OwnedNext(s, t, a);
    if Next(s, t, a).word == 0 && SomeAsleep(Next(s, t, a)) {
      var u :| u in Next(s, t, a).threads && Next(s, t, a).threads[u].pc == Asleep;
      NoticedNext(s, t, a, u);
    }
  }

  const Init := Sys(0, map[])

  ghost predicate StepTo(s: Sys, s': Sys) { exists t: nat, a :: Enabled(s, t, a) && s' == Next(s, t, a) }

  ghost predicate IsRun(r: seq<Sys>) {
    |r| > 0 && r[0] == Init && forall i :: 0 <= i < |r| - 1 ==> StepTo(r[i], r[i + 1])
  }

  lemma {:induction false} RunInv(r: seq<Sys>, i: nat)
    requires IsRun(r) && i < |r|
    ensures Inv(r[i])
  {
    if i > 0 {
      RunInv(r, i - 1);
      assert StepTo(r[i - 1], r[i - 1 + 1]);
      var t: nat, a :| Enabled(r[i - 1], t, a) && r[i] == Next(r[i - 1], t, a);
      NextKeeps(r[i - 1], t, a);
    }
  }

  /** In every run at most one thread holds the lock. */
  lemma MutualExclusion(r: seq<Sys>, i: nat, t: nat, u: nat)
    requires IsRun(r) && i < |r| && t in r[i].threads && u in r[i].threads
    requires Owner(r[i].threads[t].pc) && Owner(r[i].threads[u].pc)
    ensures t == u
  {
    RunInv(r, i);
  }

  /** In every run, when the lock is free and a thread sleeps on it, some thread is
      about to try for the lock or to wake a sleeper, and can take a step. */
  lemma NoLostWakeup(r: seq<Sys>, i: nat) returns (t: nat, a: Act)
    requires IsRun(r) && i < |r| && r[i].word == 0 && SomeAsleep(r[i])
    ensures t in r[i].threads && Enabled(r[i], t, a)
    ensures (Contends(r[i].threads[t].pc) && a == Run) || (r[i].threads[t].pc == Waking && a.Wake?)
  {
    RunInv(r, i);
    t :| t in r[i].threads && (Contends(r[i].threads[t].pc) || r[i].threads[t].pc == Waking);
    var u :| u in r[i].threads && r[i].threads[u].pc == Asleep;
    a := if r[i].threads[t].pc == Waking then Wake(u) else Run;
  }

  /** Can the steps be taken one after the other? */
  predicate Possible(s: Sys, steps: seq<(nat, Act)>)
    decreases |steps|
  {
    steps == [] || (Enabled(s, steps[0].0, steps[0].1) && Possible(Next(s, steps[0].0, steps[0].1), steps[1..]))
  }

  function After(s: Sys, steps: seq<(nat, Act)>): Sys
    requires Possible(s, steps)
    decreases |steps|
  {
    if steps == [] then s else After(Next(s, steps[0].0, steps[0].1), steps[1..])
  }

  lemma AfterStep(s: Sys, steps: seq<(nat, Act)>)
    requires steps != [] && Enabled(s, steps[0].0, steps[0].1)
    requires Possible(Next(s, steps[0].0, steps[0].1), steps[1..])
    ensures Possible(s, steps) && After(s, steps) == After(Next(s, steps[0].0, steps[0].1), steps[1..])
  {
  }

  lemma AfterOne(s: Sys, t: nat, a: Act)
    requires Enabled(s, t, a)
    ensures Possible(s, [(t, a)]) && After(s, [(t, a)]) == Next(s, t, a)
  {
    var steps := [(t, a)];
    assert steps[1..] == [] && steps[0] == (t, a);
    AfterStep(s, steps);
  }

  lemma AfterTwo(s: Sys, t: nat, a: Act, u: nat, b: Act)
    requires Enabled(s, t, a) && Enabled(Next(s, t, a), u, b)
    ensures Possible(s, [(t, a), (u, b)]) && After(s, [(t, a), (u, b)]) == Next(Next(s, t, a), u, b)
  {
    var steps := [(t, a), (u, b)];
    assert steps[1..] == [(u, b)] && steps[0] == (t, a);
    AfterOne(Next(s, t, a), u, b);
    AfterStep(s, steps);
  }

  /** In every run, when the lock is free and some thread wants it, awake or asleep,
      it is never more than two steps from being taken. */
  lemma FreeIsTaken(r: seq<Sys>, i: nat, w: nat) returns (steps: seq<(nat, Act)>)
    requires IsRun(r) && i < |r| && r[i].word == 0
    requires w in r[i].threads && (Contends(r[i].threads[w].pc) || r[i].threads[w].pc == Asleep)
    ensures |steps| <= 2 && Possible(r[i], steps) && After(r[i], steps).word != 0
  {
    var s := r[i];
    RunInv(r, i);
    var t, a := w, Run;
    if s.threads[w].pc == Asleep {
      t, a := NoLostWakeup(r, i);
    }
    if s.threads[t].pc == Trying {
      steps := [(t, Run)];
      AfterOne(s, t, Run);
    } else {
      var u := if a.Wake? then a.u else t;
      steps := [(t, a), (u, Run)];
      AfterTwo(s, t, a, u, Run);
    }
  }
}
