/** Marking by several threads: work is stolen from the shared mark stack, marked
    from on local stacks and partly given back.  One step of a thread is one
    access to shared memory, or one critical section of the mark lock in which
    nothing but lock-protected data and one other word is used. */
module ParallelMarking {
  import opened SetSizes

  const ENTRIES_TO_GET: nat := 5

  /** Where a thread is in GC_mark_local, GC_steal_mark_stack and GC_do_local_mark. */
  datatype Pc =
    | Entering      // about to become active
    | LoadFirst     // top of the loop: about to read GC_first_nonempty
    | Swap          // about to compare-and-swap it
    | LoadTop       // about to read GC_mark_stack_top
    | WantLock      // found nothing; about to look again under the mark lock
    | Waiting       // holds the lock, inactive, at the test of the wait loop
    | Asleep        // in GC_wait_marker
    | Deciding      // holds the lock, past the wait loop
    | Stealing      // about to read the entry at p
    | Taking        // about to empty the entry at p, whose contents are in hand
    | Marking       // marking from the local stack
    | Gone

  datatype Thread = Thread(
    pc: Pc,
    first: nat,         // my_first_nonempty
    seen: nat,          // the value of GC_first_nonempty last read
    top: nat,           // one past my_top
    p: nat,
    got: nat,           // weight of the entries stolen so far
    max: nat,
    hand: int,
    local: seq<int>,
    notified: bool)

  /** Entries are nonzero numbers; an emptied slot of the shared stack holds 0. */
  datatype Sys = Sys(
    slots: seq<int>,    // the shared stack up to GC_mark_stack_top
    size: nat,          // GC_mark_stack_size
    first: nat,         // GC_first_nonempty
    active: int,
    helpers: int,
    lock: int,          // who holds the mark lock, or -1
    helpWanted: bool,
    invalid: bool,      // is the mark state MS_INVALID?
    threads: map<nat, Thread>,
    produced: set<int>, // every entry there ever was
    done: set<int>)     // every entry that has been marked from

  datatype Act =
    | Join
    | Run(extra: nat)                   // the next step of a thread other than marking
    | Scan(w: int, children: seq<int>)  // mark from one local entry
    | Overflow(keep: nat)               // the local stack overflows
    | Give(k: nat)                      // copy the k lowest local entries back
    | Spurious                          // wake up without being notified
    | EndHelp                           // the initiator stops asking for help

  const Fresh := Thread(Entering, 0, 0, 0, 0, 0, 0, 0, [], false)

  predicate IsActive(pc: Pc) {
    pc == LoadFirst || pc == Swap || pc == LoadTop || pc == WantLock || pc == Stealing || pc == Taking || pc == Marking
  }

  predicate NeedsLock(pc: Pc) { pc == Entering || pc == WantLock || pc == Asleep }

  predicate Enabled(s: Sys, t: nat, a: Act) {
    match a
    case Join => t !in s.threads && s.helpWanted && s.lock == -1
    case Run(_) =>
      && t in s.threads && s.threads[t].pc != Gone
      && (s.threads[t].pc == Marking ==> s.threads[t].local == [])
      && (NeedsLock(s.threads[t].pc) ==> s.lock == -1)
      && (s.threads[t].pc == Asleep ==> s.threads[t].notified)
    case Scan(w, children) =>
      && t in s.threads && s.threads[t].pc == Marking
      && s.threads[t].local != [] && w == s.threads[t].local[|s.threads[t].local| - 1] && 0 !in children
    case Overflow(keep) => t in s.threads && s.threads[t].pc == Marking && keep <= |s.threads[t].local|
    case Give(k) => t in s.threads && s.threads[t].pc == Marking && 0 < k <= |s.threads[t].local| && s.lock == -1
    case Spurious => t in s.threads && s.threads[t].pc == Asleep && s.lock == -1
    case EndHelp => t == 0 && 0 in s.threads && s.threads[0].pc == Gone && s.lock == -1
  }

  function Put(s: Sys, t: nat, th: Thread): Sys { s.(threads := s.threads[t := th]) }

  /** GC_notify_all_marker. */
  function NotifyAll(s: Sys): Sys {
    s.(threads := map t | t in s.threads :: s.threads[t].(notified := true))
  }

  /** Start to steal from the slots first..top. */
  function BeginSteal(th: Thread, top: nat): Thread {
    th.(pc := Stealing, top := top, p := th.first, got := 0,
    max := if top - th.first < 2 * ENTRIES_TO_GET then 1 else ENTRIES_TO_GET)
  }

  function RunStep(s: Sys, t: nat, extra: nat): Sys
    requires Enabled(s, t, Run(extra))
  {
    var th := s.threads[t];
    match th.pc
    case Entering => Put(s.(active := s.active + 1), t, th.(pc := LoadFirst, first := s.first))
    case LoadFirst =>
      if th.first < s.first then Put(s, t, th.(pc := LoadTop, first := s.first, seen := s.first))
      else if s.first < th.first then Put(s, t, th.(pc := Swap, seen := s.first))
      else Put(s, t, th.(pc := LoadTop, seen := s.first))
    case Swap => Put(if s.first == th.seen then s.(first := th.first) else s, t, th.(pc := LoadTop))
    case LoadTop =>
      if |s.slots| == th.first then Put(s, t, th.(pc := WantLock)) else Put(s, t, BeginSteal(th, |s.slots|))
    case WantLock =>
      if |s.slots| == th.first then
        var s1 := Put(s.(lock := t, active := s.active - 1), t, th.(pc := Waiting));
        if s1.active == 0 then NotifyAll(s1) else s1
      else Put(s, t, BeginSteal(th, |s.slots|))
    case Waiting =>
      if s.active > 0 && s.first >= |s.slots| then Put(s.(lock := -1), t, th.(pc := Asleep, notified := false))
      else Put(s, t, th.(pc := Deciding))
    case Asleep => Put(s.(lock := t), t, th.(pc := Waiting))
    case Deciding =>
      if s.active == 0 && s.first >= |s.slots| then
        var s1 := Put(s.(lock := -1, helpers := s.helpers - 1), t, th.(pc := Gone));
        if s1.helpers == 0 then NotifyAll(s1) else s1
      else Put(s.(lock := -1, active := s.active + 1), t, th.(pc := LoadFirst))
    case Stealing =>
      if th.p < th.top && th.got <= th.max then
        if th.p < |s.slots| && s.slots[th.p] != 0 then Put(s, t, th.(pc := Taking, hand := s.slots[th.p]))
        else Put(s, t, th.(p := th.p + 1))
      else Put(s, t, th.(pc := Marking, first := th.p))
    case Taking =>
      Put(if th.p < |s.slots| then s.(slots := s.slots[th.p := 0]) else s, t,
        th.(pc := Stealing, p := th.p + 1, got := th.got + 1 + extra, local := th.local + [th.hand]))
    case Marking => Put(s, t, th.(pc := LoadFirst))
  }

  function Next(s: Sys, t: nat, a: Act): Sys
    requires Enabled(s, t, a)
  {
    match a
    case Join => Put(s.(helpers := s.helpers + 1), t, Fresh)
    case Run(extra) => RunStep(s, t, extra)
    case Scan(w, children) =>
      var th := s.threads[t];
      Put(s.(done := s.done + {w}, produced := s.produced + (set c | c in children)),
        t, th.(local := th.local[..|th.local| - 1] + children))
    case Overflow(keep) =>
      var th := s.threads[t];
      Put(s.(invalid := true), t, th.(local := th.local[..keep]))
    case Give(k) => NotifyAll(Given(s, t, k))
    case Spurious => Put(s.(lock := t), t, s.threads[t].(pc := Waiting))
    case EndHelp => s.(helpWanted := false)
  }

  // ---------------------------------------------------------------- the invariant

  /** The first n slots have been emptied. */
  ghost predicate EmptyBelow(slots: seq<int>, n: nat) {
    n <= |slots| && forall i :: 0 <= i < n ==> slots[i] == 0
  }

  ghost predicate ThreadOK(t: nat, th: Thread, slots: seq<int>, lock: int) {
    && (lock == t <==> th.pc == Waiting || th.pc == Deciding)
    && EmptyBelow(slots, th.first)
    && (th.pc == Stealing || th.pc == Taking ==> th.first <= th.p <= th.top <= |slots| && EmptyBelow(slots, th.p))
    && (th.pc == Taking ==> th.p < th.top && th.hand != 0 && (slots[th.p] == th.hand || slots[th.p] == 0))
    && (th.local != [] ==> th.pc == Stealing || th.pc == Taking || th.pc == Marking)
    && 0 !in th.local
  }

  ghost predicate Holds(th: Thread, w: int) { w in th.local || (th.pc == Taking && w == th.hand) }

  /** The entry w has been marked from, is on the shared stack or in some
      thread's possession. */
  ghost predicate Accounted(s: Sys, w: int) {
    w in s.done || w in s.slots || exists t :: t in s.threads && Holds(s.threads[t], w)
  }

  ghost function ActiveSet(threads: map<nat, Thread>): set<nat> { set t | t in threads && IsActive(threads[t].pc) }

  ghost function HelperSet(threads: map<nat, Thread>): set<nat> { set t | t in threads && threads[t].pc != Gone }

  /** All entries of the shared stack have been stolen and no thread holds any. */
  ghost predicate Drained(s: Sys) {
    && EmptyBelow(s.slots, |s.slots|)
    && forall t :: t in s.threads ==> s.threads[t].local == [] && s.threads[t].pc != Taking
  }

  ghost predicate Conserved(s: Sys) {
    s.invalid || forall w :: w in s.produced ==> Accounted(s, w)
  }

  ghost predicate AllOK(s: Sys) {
    forall t {:trigger s.threads[t]} :: t in s.threads ==> ThreadOK(t, s.threads[t], s.slots, s.lock)
  }

  /** Nobody sleeps with no one left to give notice. */
  ghost predicate Watched(s: Sys) {
    forall t {:trigger s.threads[t]} ::
            t in s.threads && s.threads[t].pc == Asleep && !s.threads[t].notified ==> s.active > 0
  }

  ghost predicate AnyGone(s: Sys) { exists t :: t in s.threads && s.threads[t].pc == Gone }

  ghost predicate Safe(s: Sys) {
    && s.lock >= -1 && (s.lock >= 0 ==> s.lock in s.threads)
    && EmptyBelow(s.slots, s.first)
    && AllOK(s)
    && s.active == |ActiveSet(s.threads)| && s.helpers == |HelperSet(s.threads)|
    && Conserved(s) && 0 !in s.produced
    && (AnyGone(s) ==> Drained(s))
  }

  ghost predicate Inv(s: Sys) { Safe(s) && Watched(s) }

  // ---------------------------------------------------------------- what a step keeps

  /** Slots are emptied or added, never filled again. */
  ghost predicate Emptier(slots: seq<int>, slots': seq<int>) {
    |slots| <= |slots'| && forall i :: 0 <= i < |slots| ==> slots'[i] == slots[i] || slots'[i] == 0
  }

  lemma PutAllOK(s: Sys, s': Sys, t: nat, th: Thread)
    requires AllOK(s) && s'.threads == s.threads[t := th] && Emptier(s.slots, s'.slots)
    requires ThreadOK(t, th, s'.slots, s'.lock)
    requires s'.lock == s.lock || (s.lock == -1 && s'.lock == t) || (s.lock == t && s'.lock == -1)
    ensures AllOK(s')
  {
    forall u | u in s'.threads ensures ThreadOK(u, s'.threads[u], s'.slots, s'.lock) {
      if u != t { assert ThreadOK(u, s.threads[u], s.slots, s.lock); }
    }
  }

  lemma Counts(m: map<nat, Thread>, t: nat, th: Thread)
    ensures |ActiveSet(m[t := th])| ==
            |ActiveSet(m)| + (if IsActive(th.pc) then 1 else 0) - (if t in m && IsActive(m[t].pc) then 1 else 0)
    ensures |HelperSet(m[t := th])| ==
            |HelperSet(m)| + (if th.pc != Gone then 1 else 0) - (if t in m && m[t].pc != Gone then 1 else 0)
  {
    var m' := m[t := th];
    assert ActiveSet(m') - {t} == ActiveSet(m) - {t};
    CountOne(ActiveSet(m), ActiveSet(m'), t);
    assert HelperSet(m') - {t} == HelperSet(m) - {t};
    CountOne(HelperSet(m), HelperSet(m'), t);
  }

  /** Steps that leave all entries where they are keep track of them. */
  lemma SameEntries(s: Sys, s': Sys, t: nat, th: Thread)
    requires Conserved(s) && t in s.threads && s'.threads == s.threads[t := th]
    requires s'.slots == s.slots && s'.done == s.done && s'.produced == s.produced && s'.invalid == s.invalid
    requires th.local == s.threads[t].local
    requires (s.threads[t].pc == Taking ==> th.pc == Taking && th.hand == s.threads[t].hand)
    ensures Conserved(s')
  {
    forall w | w in s'.produced && !s'.invalid ensures Accounted(s', w) {
      assert Accounted(s, w);
      if w !in s.done && w !in s.slots {
        var u :| u in s.threads && Holds(s.threads[u], w);
        assert Holds(s'.threads[u], w);
      }
    }
  }

  /** GC_notify_all_marker keeps all of it, and nobody sleeps unnoticed after it. */
  lemma NotifyKeeps(s: Sys)
    requires AllOK(s) && Conserved(s)
    ensures AllOK(NotifyAll(s)) && Conserved(NotifyAll(s))
    ensures ActiveSet(NotifyAll(s).threads) == ActiveSet(s.threads)
    ensures HelperSet(NotifyAll(s).threads) == HelperSet(s.threads)
    ensures Drained(NotifyAll(s)) <==> Drained(s)
  {
    var s' := NotifyAll(s);
    forall w | w in s'.produced && !s'.invalid ensures Accounted(s', w) {
      assert Accounted(s, w);
      if w !in s.done && w !in s.slots {
        var u :| u in s.threads && Holds(s.threads[u], w);
        assert Holds(s'.threads[u], w);
      }
    }
    forall u | u in s.threads ensures s'.threads[u] == s.threads[u].(notified := true) {}
  }

  lemma GoneBefore(s: Sys, s': Sys, t: nat, th: Thread)
    requires s'.threads == s.threads[t := th] && th.pc != Gone
    ensures AnyGone(s') ==> AnyGone(s)
  {
    if AnyGone(s') {
      var u :| u in s'.threads && s'.threads[u].pc == Gone;
      assert u in s.threads && s.threads[u].pc == Gone;
    }
  }

  /** A step of a thread that moves no entries. */
  lemma MoveKeeps(s: Sys, s': Sys, t: nat, th: Thread)
    requires Inv(s) && t in s.threads && s.threads[t].pc != Taking && s.threads[t].pc != Gone
    requires s' == s.(threads := s.threads[t := th], first := s'.first, active := s'.active, lock := s'.lock)
    requires th.local == s.threads[t].local && th.pc != Gone && ThreadOK(t, th, s.slots, s'.lock)
    requires s'.lock == s.lock || (s.lock == -1 && s'.lock == t) || (s.lock == t && s'.lock == -1)
    requires EmptyBelow(s.slots, s'.first)
    requires s'.active == s.active + (if IsActive(th.pc) then 1 else 0) - (if IsActive(s.threads[t].pc) then 1 else 0)
    requires th.pc == Taking ==> th.p < |s.slots| && s.slots[th.p] != 0
    requires th.pc == Asleep ==> th.notified || s'.active > 0
    ensures Safe(s') && (s'.active >= s.active || s'.active > 0 ==> Watched(s'))
  {
    PutAllOK(s, s', t, th);
    Counts(s.threads, t, th);
    SameEntries(s, s', t, th);
    GoneBefore(s, s', t, th);
    if AnyGone(s') { assert Drained(s) && Drained(s'); }
  }

  lemma StepEnter(s: Sys, t: nat, extra: nat)
    requires Inv(s) && Enabled(s, t, Run(extra)) && s.threads[t].pc == Entering
    ensures Inv(RunStep(s, t, extra))
  {
    var s' := RunStep(s, t, extra);
    assert ThreadOK(t, s.threads[t], s.slots, s.lock);
    MoveKeeps(s, s', t, s'.threads[t]);
  }

  lemma StepLoadFirst(s: Sys, t: nat, extra: nat)
    requires Inv(s) && Enabled(s, t, Run(extra)) && s.threads[t].pc == LoadFirst
    ensures Inv(RunStep(s, t, extra))
  {
    var th, s' := s.threads[t], RunStep(s, t, extra);
    assert ThreadOK(t, th, s.slots, s.lock);
    if th.first < s.first {
      MoveKeeps(s, s', t, th.(pc := LoadTop, first := s.first, seen := s.first));
    } else if s.first < th.first {
      MoveKeeps(s, s', t, th.(pc := Swap, seen := s.first));
    } else {
      MoveKeeps(s, s', t, th.(pc := LoadTop, seen := s.first));
    }
  }

  lemma StepSwap(s: Sys, t: nat, extra: nat)
    requires Inv(s) && Enabled(s, t, Run(extra)) && s.threads[t].pc == Swap
    ensures Inv(RunStep(s, t, extra))
  {
    var s' := RunStep(s, t, extra);
    assert ThreadOK(t, s.threads[t], s.slots, s.lock);
    MoveKeeps(s, s', t, s'.threads[t]);
  }

  lemma StepLoadTop(s: Sys, t: nat, extra: nat)
    requires Inv(s) && Enabled(s, t, Run(extra)) && s.threads[t].pc == LoadTop
    ensures Inv(RunStep(s, t, extra))
  {
    var th, s' := s.threads[t], RunStep(s, t, extra);
    assert ThreadOK(t, th, s.slots, s.lock);
    MoveKeeps(s, s', t, if |s.slots| == th.first then th.(pc := WantLock) else BeginSteal(th, |s.slots|));
  }

  lemma StepWake(s: Sys, t: nat, extra: nat)
    requires Inv(s) && Enabled(s, t, Run(extra)) && s.threads[t].pc == Asleep
    ensures Inv(RunStep(s, t, extra))
  {
    var s' := RunStep(s, t, extra);
    assert ThreadOK(t, s.threads[t], s.slots, s.lock);
    MoveKeeps(s, s', t, s'.threads[t]);
  }

  lemma StepWait(s: Sys, t: nat, extra: nat)
    requires Inv(s) && Enabled(s, t, Run(extra)) && s.threads[t].pc == Waiting
    ensures Inv(RunStep(s, t, extra))
  {
    var th, s' := s.threads[t], RunStep(s, t, extra);
    assert ThreadOK(t, th, s.slots, s.lock);
    if s.active > 0 && s.first >= |s.slots| {
      MoveKeeps(s, s', t, th.(pc := Asleep, notified := false));
    } else {
      MoveKeeps(s, s', t, th.(pc := Deciding));
    }
  }

  lemma StepSteal(s: Sys, t: nat, extra: nat)
    requires Inv(s) && Enabled(s, t, Run(extra)) && s.threads[t].pc == Stealing
    ensures Inv(RunStep(s, t, extra))
  {
    StealIs(s, t, extra);
    if s.threads[t].p < s.threads[t].top && s.threads[t].got <= s.threads[t].max {
      StealOne(s, t);
    } else {
      StealEnd(s, t);
    }
  }

  lemma StealIs(s: Sys, t: nat, extra: nat)
    requires Enabled(s, t, Run(extra)) && s.threads[t].pc == Stealing
    ensures var th := s.threads[t];
            RunStep(s, t, extra) ==
            if th.p < th.top && th.got <= th.max then Put(s, t, Looked(s, th))
            else Put(s, t, th.(pc := Marking, first := th.p))
  {
  }

  /** The thread th after a look at its next slot. */
  function Looked(s: Sys, th: Thread): (r: Thread) {
    if th.p < |s.slots| && s.slots[th.p] != 0 then th.(pc := Taking, hand := s.slots[th.p]) else th.(p := th.p + 1)
  }

  lemma StealEnd(s: Sys, t: nat)
    requires Inv(s) && t in s.threads && s.threads[t].pc == Stealing
    ensures Inv(Put(s, t, s.threads[t].(pc := Marking, first := s.threads[t].p)))
  {
    var th := s.threads[t].(pc := Marking, first := s.threads[t].p);
    assert ThreadOK(t, s.threads[t], s.slots, s.lock);
    MoveKeeps(s, Put(s, t, th), t, th);
  }

  lemma StealOne(s: Sys, t: nat)
    requires Inv(s) && t in s.threads && s.threads[t].pc == Stealing && s.threads[t].p < s.threads[t].top
    ensures Inv(Put(s, t, Looked(s, s.threads[t])))
  {
    var th := s.threads[t];
    assert ThreadOK(t, th, s.slots, s.lock);
    assert s.slots[th.p] == 0 ==> EmptyBelow(s.slots, th.p + 1);
    MoveKeeps(s, Put(s, t, Looked(s, th)), t, Looked(s, th));
  }

  lemma StepEmptied(s: Sys, t: nat, extra: nat)
    requires Inv(s) && Enabled(s, t, Run(extra)) && s.threads[t].pc == Marking
    ensures Inv(RunStep(s, t, extra))
  {
    var s' := RunStep(s, t, extra);
    assert ThreadOK(t, s.threads[t], s.slots, s.lock);
    MoveKeeps(s, s', t, s'.threads[t]);
  }

  lemma StepLook(s: Sys, t: nat, extra: nat)
    requires Inv(s) && Enabled(s, t, Run(extra)) && s.threads[t].pc == WantLock
    ensures Inv(RunStep(s, t, extra))
  {
    var th := s.threads[t];
    assert ThreadOK(t, th, s.slots, s.lock);
    if |s.slots| == th.first {
      var s1 := Put(s.(lock := t, active := s.active - 1), t, th.(pc := Waiting));
      MoveKeeps(s, s1, t, th.(pc := Waiting));
      if s1.active == 0 { NotifyKeeps(s1); }
    } else {
      MoveKeeps(s, RunStep(s, t, extra), t, BeginSteal(th, |s.slots|));
    }
  }

  /** With nobody active and everything up to the top emptied, all is drained. */
  lemma NothingLeft(s: Sys)
    requires Safe(s) && s.active == 0 && s.first >= |s.slots|
    ensures Drained(s)
  {
    forall t | t in s.threads ensures s.threads[t].local == [] && s.threads[t].pc != Taking {
      assert ThreadOK(t, s.threads[t], s.slots, s.lock);
      assert IsActive(s.threads[t].pc) ==> t in ActiveSet(s.threads);
    }
  }

  /** A thread leaves only when all is drained. */
  lemma LeaveKeeps(s: Sys, s': Sys, t: nat)
    requires Inv(s) && t in s.threads && s.threads[t].pc == Deciding && s.active == 0 && s.first >= |s.slots|
    requires s' == Put(s.(lock := -1, helpers := s.helpers - 1), t, s.threads[t].(pc := Gone))
    ensures Inv(s') && Drained(s')
  {
    assert ThreadOK(t, s.threads[t], s.slots, s.lock);
    NothingLeft(s);
    var th := s.threads[t].(pc := Gone);
    PutAllOK(s, s', t, th);
    Counts(s.threads, t, th);
    SameEntries(s, s', t, th);
    assert Drained(s');
  }

  lemma NotifyInv(s: Sys)
    requires Inv(s)
    ensures Inv(NotifyAll(s))
  {
    NotifyKeeps(s);
  }

  lemma StepDecide(s: Sys, t: nat, extra: nat)
    requires Inv(s) && Enabled(s, t, Run(extra)) && s.threads[t].pc == Deciding
    ensures Inv(RunStep(s, t, extra))
  {
    var th := s.threads[t];
    assert ThreadOK(t, th, s.slots, s.lock);
    if s.active == 0 && s.first >= |s.slots| {
      var s1 := Put(s.(lock := -1, helpers := s.helpers - 1), t, th.(pc := Gone));
      LeaveKeeps(s, s1, t);
      NotifyInv(s1);
    } else {
      MoveKeeps(s, RunStep(s, t, extra), t, th.(pc := LoadFirst));
    }
  }

  /** Emptying a slot whose entry is in hand loses nothing. */
  lemma TakeKeeps(s: Sys, s': Sys, t: nat, th': Thread, extra: nat)
    requires Inv(s) && t in s.threads && s.threads[t].pc == Taking && s.threads[t].p < |s.slots|
    requires s' == s.(slots := s.slots[s.threads[t].p := 0], threads := s.threads[t := th'])
    requires th' == s.threads[t].(pc := Stealing, p := s.threads[t].p + 1, got := s.threads[t].got + 1 + extra,
                                  local := s.threads[t].local + [s.threads[t].hand])
    ensures Inv(s')
  {
    var th := s.threads[t];
    assert ThreadOK(t, th, s.slots, s.lock);
    assert EmptyBelow(s'.slots, th.p + 1);
    PutAllOK(s, s', t, th');
    Counts(s.threads, t, th');
    TakeConserves(s, s', t);
    assert !Drained(s);
    GoneBefore(s, s', t, th');
  }

  lemma StepTake(s: Sys, t: nat, extra: nat)
    requires Inv(s) && Enabled(s, t, Run(extra)) && s.threads[t].pc == Taking
    ensures Inv(RunStep(s, t, extra))
  {
    assert ThreadOK(t, s.threads[t], s.slots, s.lock);
    TakeKeeps(s, RunStep(s, t, extra), t, RunStep(s, t, extra).threads[t], extra);
  }

  lemma TakeConserves(s: Sys, s': Sys, t: nat)
    requires Conserved(s) && t in s.threads && s.threads[t].pc == Taking && s.threads[t].p < |s.slots|
    requires s.slots[s.threads[t].p] == s.threads[t].hand || s.slots[s.threads[t].p] == 0
    requires 0 !in s.produced
    requires s' == s.(slots := s.slots[s.threads[t].p := 0], threads := s'.threads)
    requires s'.threads.Keys == s.threads.Keys
    requires (forall u :: u in s.threads && u != t ==> s'.threads[u] == s.threads[u])
    requires s'.threads[t].local == s.threads[t].local + [s.threads[t].hand]
    ensures Conserved(s')
  {
    forall w | w in s'.produced && !s'.invalid ensures Accounted(s', w) {
      assert Accounted(s, w);
      if w !in s.done {
        if w in s.slots {
          var i :| 0 <= i < |s.slots| && s.slots[i] == w;
          if i == s.threads[t].p { assert Holds(s'.threads[t], w); } else { assert s'.slots[i] == w; }
        } else {
          var u :| u in s.threads && Holds(s.threads[u], w);
          assert Holds(s'.threads[u], w);
        }
      }
    }
  }

  // ---------------------------------------------------------------- marking and joining

  /** Marking from an entry replaces it by what it leads to. */
  lemma ScanKeeps(s: Sys, t: nat, w: int, children: seq<int>)
    requires Inv(s) && Enabled(s, t, Scan(w, children))
    ensures Inv(Next(s, t, Scan(w, children)))
  {
    var s' := Next(s, t, Scan(w, children));
    var th, th' := s.threads[t], s'.threads[t];
    assert ThreadOK(t, th, s.slots, s.lock);
    PutAllOK(s, s', t, th');
    Counts(s.threads, t, th');
    assert !Drained(s);
    GoneBefore(s, s', t, th');
    ScanConserves(s, s', t, w, children);
  }

  lemma ScanConserves(s: Sys, s': Sys, t: nat, w: int, children: seq<int>)
    requires Conserved(s) && Enabled(s, t, Scan(w, children)) && s' == Next(s, t, Scan(w, children))
    ensures Conserved(s')
  {
    var local := s.threads[t].local;
    forall v | v in s'.produced && !s'.invalid ensures Accounted(s', v) {
      if v in children {
        assert Holds(s'.threads[t], v);
      } else {
        assert Accounted(s, v);
        if v !in s'.done && v !in s.slots {
          var u :| u in s.threads && Holds(s.threads[u], v);
          if u == t {
            assert v in local[..|local| - 1];
          }
          assert Holds(s'.threads[u], v);
        }
      }
    }
  }

  lemma OverflowKeeps(s: Sys, t: nat, keep: nat)
    requires Inv(s) && Enabled(s, t, Overflow(keep))
    ensures Inv(Next(s, t, Overflow(keep)))
  {
    var s' := Next(s, t, Overflow(keep));
    var th, th' := s.threads[t], s'.threads[t];
    assert ThreadOK(t, th, s.slots, s.lock);
    PutAllOK(s, s', t, th');
    Counts(s.threads, t, th');
    GoneBefore(s, s', t, th');
    if AnyGone(s') { assert Drained(s) && Drained(s'); }
  }

  /** The k lowest local entries are copied back, or dropped for want of room. */
  function Given(s: Sys, t: nat, k: nat): Sys
    requires Enabled(s, t, Give(k))
  {
    var th := s.threads[t];
    Put(if |s.slots| + k > s.size then s.(invalid := true) else s.(slots := s.slots + th.local[..k]),
      t, th.(local := th.local[k..]))
  }

  /** Copying entries back under the mark lock, or dropping them for want of room. */
  lemma GiveKeeps(s: Sys, s1: Sys, t: nat, k: nat)
    requires Inv(s) && Enabled(s, t, Give(k))
    requires s1 == Given(s, t, k)
    ensures Inv(s1)
  {
    var th, th' := s.threads[t], s1.threads[t];
    assert ThreadOK(t, th, s.slots, s.lock);
    PutAllOK(s, s1, t, th');
    Counts(s.threads, t, th');
    assert !Drained(s);
    GoneBefore(s, s1, t, th');
    GiveConserves(s, s1, t, k);
  }

  lemma GiveConserves(s: Sys, s1: Sys, t: nat, k: nat)
    requires Conserved(s) && Enabled(s, t, Give(k))
    requires s1 == Given(s, t, k)
    ensures Conserved(s1)
  {
    var local := s.threads[t].local;
    forall v | v in s1.produced && !s1.invalid ensures Accounted(s1, v) {
      assert Accounted(s, v);
      if v !in s.done && v !in s1.slots {
        var u :| u in s.threads && Holds(s.threads[u], v);
        if u == t { assert local == local[..k] + local[k..]; }
        assert Holds(s1.threads[u], v);
      }
    }
  }

  lemma JoinKeeps(s: Sys, t: nat)
    requires Inv(s) && Enabled(s, t, Join)
    ensures Inv(Next(s, t, Join))
  {
    var s' := Next(s, t, Join);
    PutAllOK(s, s', t, Fresh);
    Counts(s.threads, t, Fresh);
    GoneBefore(s, s', t, Fresh);
    if AnyGone(s') { assert Drained(s) && Drained(s'); }
    forall v | v in s'.produced && !s'.invalid ensures Accounted(s', v) {
      assert Accounted(s, v);
      if v !in s.done && v !in s.slots {
        var u :| u in s.threads && Holds(s.threads[u], v);
        assert Holds(s'.threads[u], v);
      }
    }
  }

  lemma RunKeeps(s: Sys, t: nat, extra: nat)
    requires Inv(s) && Enabled(s, t, Run(extra))
    ensures Inv(RunStep(s, t, extra))
  {
    match s.threads[t].pc
    case Entering => StepEnter(s, t, extra);
    case LoadFirst => StepLoadFirst(s, t, extra);
    case Swap => StepSwap(s, t, extra);
    case LoadTop => StepLoadTop(s, t, extra);
    case WantLock => StepLook(s, t, extra);
    case Waiting => StepWait(s, t, extra);
    case Asleep => StepWake(s, t, extra);
    case Deciding => StepDecide(s, t, extra);
    case Stealing => StepSteal(s, t, extra);
    case Taking => StepTake(s, t, extra);
    case Marking => StepEmptied(s, t, extra);
    case Gone =>
  }

  /** Every step of every thread keeps the invariant. */
  lemma NextKeeps(s: Sys, t: nat, a: Act)
    requires Inv(s) && Enabled(s, t, a)
    ensures Inv(Next(s, t, a))
  {
    match a
    case Join => JoinKeeps(s, t);
    case Run(extra) => RunKeeps(s, t, extra);
    case Scan(w, children) => ScanKeeps(s, t, w, children);
    case Overflow(keep) => OverflowKeeps(s, t, keep);
    case Give(k) =>
      var s1 := Given(s, t, k);
      GiveKeeps(s, s1, t, k);
      NotifyInv(s1);
    case Spurious =>
      assert ThreadOK(t, s.threads[t], s.slots, s.lock);
      MoveKeeps(s, Next(s, t, a), t, s.threads[t].(pc := Waiting));
    case EndHelp => EndKeeps(s);
  }

  lemma EndKeeps(s: Sys)
    requires Inv(s)
    ensures Inv(s.(helpWanted := false))
  {
    var s' := s.(helpWanted := false);
    forall w | w in s'.produced && !s'.invalid ensures Accounted(s', w) {
      assert Accounted(s, w);
    }
    assert AnyGone(s') ==> AnyGone(s);
  }

  // ---------------------------------------------------------------- runs

  /** GC_do_parallel_mark starts with the given entries on the mark stack. */
  function Start(entries: seq<int>, size: nat): Sys {
    Sys(entries, size, 0, 0, 1, -1, true, false, map[0 := Fresh], set e | e in entries, {})
  }

  lemma StartInv(entries: seq<int>, size: nat)
    requires 0 !in entries
    ensures Inv(Start(entries, size))
  {
    var s := Start(entries, size);
    assert ActiveSet(s.threads) == {} && HelperSet(s.threads) == {0};
  }

  ghost predicate StepTo(s: Sys, s': Sys) {
    exists t: nat, a :: Enabled(s, t, a) && s' == Next(s, t, a)
  }

  ghost predicate IsRun(r: seq<Sys>, entries: seq<int>, size: nat) {
    && |r| > 0 && r[0] == Start(entries, size)
    && forall i :: 0 <= i < |r| - 1 ==> StepTo(r[i], r[i + 1])
  }

  lemma StepOf(r: seq<Sys>, entries: seq<int>, size: nat, i: nat, j: nat)
    requires IsRun(r, entries, size) && j == i + 1 < |r|
    ensures StepTo(r[i], r[j])
  {
  }

  lemma {:induction false} RunInv(r: seq<Sys>, entries: seq<int>, size: nat, i: nat)
    requires IsRun(r, entries, size) && 0 !in entries && i < |r|
    ensures Inv(r[i])
  {
    if i == 0 {
      StartInv(entries, size);
    } else {
      RunInv(r, entries, size, i - 1);
      StepOf(r, entries, size, i - 1, i);
      StepKeeps(r[i - 1], r[i]);
    }
  }

  lemma StepKeeps(s: Sys, s': Sys)
    requires Inv(s) && StepTo(s, s')
    ensures Inv(s')
  {
    var t: nat, a :| Enabled(s, t, a) && s' == Next(s, t, a);
    NextKeeps(s, t, a);
  }

  lemma GoneStays(s: Sys, t: nat, a: Act, u: nat)
    requires Enabled(s, t, a) && u in s.threads && s.threads[u].pc == Gone
    ensures var s' := Next(s, t, a); u in s'.threads && s'.threads[u].pc == Gone
  {
    if a.Run? { RunGone(s, t, a.extra, u); }
  }

  lemma RunGone(s: Sys, t: nat, extra: nat, u: nat)
    requires Enabled(s, t, Run(extra)) && u in s.threads && s.threads[u].pc == Gone
    ensures var s' := RunStep(s, t, extra); u in s'.threads && s'.threads[u].pc == Gone
  {
    assert u != t;
    match s.threads[t].pc {
      case Entering => case LoadFirst => case Swap => case LoadTop => case WantLock => case Waiting =>
      case Asleep => case Deciding => case Stealing => case Taking => case Marking =>
    }
  }

  lemma {:induction false} GoneFrom(r: seq<Sys>, entries: seq<int>, size: nat, i: nat, j: nat, u: nat)
    requires IsRun(r, entries, size) && i <= j < |r| && u in r[i].threads && r[i].threads[u].pc == Gone
    ensures u in r[j].threads && r[j].threads[u].pc == Gone
    decreases j
  {
    if i < j {
      GoneFrom(r, entries, size, i, j - 1, u);
      StepOf(r, entries, size, j - 1, j);
      GoneStep(r[j - 1], r[j], u);
    }
  }

  lemma GoneStep(s: Sys, s': Sys, u: nat)
    requires StepTo(s, s') && u in s.threads && s.threads[u].pc == Gone
    ensures u in s'.threads && s'.threads[u].pc == Gone
  {
    var t: nat, a :| Enabled(s, t, a) && s' == Next(s, t, a);
    GoneStays(s, t, a, u);
  }

  /** Once any thread has returned from GC_mark_local, then and at every later
      point of the run all entries of the shared stack have been stolen, no thread
      holds work, and every entry there ever was has been marked from, unless
      entries were dropped and the state set to MS_INVALID. */
  lemma MarkLocalReturns(r: seq<Sys>, entries: seq<int>, size: nat, i: nat, j: nat, t: nat)
    requires IsRun(r, entries, size) && 0 !in entries && i <= j < |r|
    requires t in r[i].threads && r[i].threads[t].pc == Gone
    ensures Drained(r[j])
    ensures r[j].invalid || r[j].produced <= r[j].done
  {
    GoneFrom(r, entries, size, i, j, t);
    assert AnyGone(r[j]);
    RunInv(r, entries, size, j);
    AllDone(r[j]);
  }

  lemma AllDone(s: Sys)
    requires Inv(s) && Drained(s)
    ensures s.invalid || s.produced <= s.done
  {
    forall w | w in s.produced && !s.invalid ensures w in s.done {
      assert Accounted(s, w);
    }
  }

  /** The counts, and what GC_mark_local asserts about its bounds. */
  lemma CountsAndBounds(s: Sys, t: nat)
    requires Inv(s) && t in s.threads
    ensures 0 <= s.active <= s.helpers
    ensures s.first <= |s.slots| && s.threads[t].first <= |s.slots|
    ensures s.helpers == 0 ==> s.threads[t].pc == Gone
  {
    assert ActiveSet(s.threads) <= HelperSet(s.threads);
    SubsetCount(ActiveSet(s.threads), HelperSet(s.threads));
    assert ThreadOK(t, s.threads[t], s.slots, s.lock);
    assert s.threads[t].pc != Gone ==> t in HelperSet(s.threads);
  }

  /** No wake-up is lost: as long as a thread has not returned, some thread can
      take a step without being woken for no reason. */
  lemma NoDeadlock(s: Sys, t: nat) returns (u: nat, a: Act)
    requires Inv(s) && t in s.threads && s.threads[t].pc != Gone
    ensures Enabled(s, u, a) && !a.Join? && !a.Spurious? && !a.EndHelp?
  {
    u, a := t, Run(0);
    assert ThreadOK(t, s.threads[t], s.slots, s.lock);
    if s.lock >= 0 {
      u := s.lock;
      assert ThreadOK(u, s.threads[u], s.slots, s.lock);
    } else if s.threads[t].pc == Asleep && !s.threads[t].notified {
      assert ActiveSet(s.threads) != {};
      u :| u in ActiveSet(s.threads);
    }
    var th := s.threads[u];
    if th.pc == Marking && th.local != [] { a := Scan(th.local[|th.local| - 1], []); }
  }

  // ---------------------------------------------------------------- the count of active threads

  /** A thread that will come back to the shared stack before it becomes inactive, or
      bring GC_first_nonempty up to where it has looked. */
  ghost predicate Carrier(s: Sys, th: Thread) {
    || th.pc == LoadFirst || th.pc == Stealing || th.pc == Taking || th.pc == Marking
    || (th.pc == Swap && th.seen == s.first < th.first)
    || ((th.pc == LoadTop || th.pc == WantLock) && th.first < |s.slots|)
  }

  ghost predicate AllEntering(s: Sys) {
    forall t {:trigger s.threads[t]} :: t in s.threads ==> s.threads[t].pc == Entering
  }

  /** While GC_first_nonempty is short of the top some thread sees to it, once any
      has begun. */
  ghost predicate Busy(s: Sys) {
    s.first >= |s.slots| || AllEntering(s) || exists u :: u in s.threads && Carrier(s, s.threads[u])
  }

  lemma BusyBy(s: Sys, t: nat)
    requires t in s.threads && (s.first >= |s.slots| || Carrier(s, s.threads[t]))
    ensures Busy(s)
  {
  }

  /** A step of a thread that is no carrier changes nothing for the others. */
  lemma BusyStays(s: Sys, s': Sys, t: nat, th: Thread)
    requires Busy(s) && t in s.threads && !Carrier(s, s.threads[t]) && s.threads[t].pc != Entering
    requires s'.threads == s.threads[t := th] && s'.first == s.first && s'.slots == s.slots
    ensures Busy(s')
  {
    if s.first < |s.slots| {
      assert !AllEntering(s);
      var u :| u in s.threads && Carrier(s, s.threads[u]);
      assert u != t && Carrier(s', s'.threads[u]);
    }
  }

  lemma BusyNotify(s: Sys)
    requires Busy(s)
    ensures Busy(NotifyAll(s))
  {
    var s' := NotifyAll(s);
    if AllEntering(s) {
      forall t | t in s'.threads ensures s'.threads[t].pc == Entering { assert s.threads[t].pc == Entering; }
    } else if s.first < |s.slots| {
      var u :| u in s.threads && Carrier(s, s.threads[u]);
      assert Carrier(s', s'.threads[u]);
    }
  }

  lemma BusyLook(s: Sys, t: nat, extra: nat)
    requires Inv(s) && Busy(s) && Enabled(s, t, Run(extra))
    requires s.threads[t].pc == LoadTop || s.threads[t].pc == WantLock
    ensures Busy(RunStep(s, t, extra))
  {
    var th, s' := s.threads[t], RunStep(s, t, extra);
    assert ThreadOK(t, th, s.slots, s.lock);
    if |s.slots| != th.first {
      BusyBy(s', t);
    } else if th.pc == LoadTop {
      BusyStays(s, s', t, th.(pc := WantLock));
    } else {
      var s1 := Put(s.(lock := t, active := s.active - 1), t, th.(pc := Waiting));
      BusyStays(s, s1, t, th.(pc := Waiting));
      BusyNotify(s1);
    }
  }

  lemma BusySwap(s: Sys, t: nat, extra: nat)
    requires Busy(s) && Enabled(s, t, Run(extra)) && s.threads[t].pc == Swap
    ensures Busy(RunStep(s, t, extra))
  {
    var th, s' := s.threads[t], RunStep(s, t, extra);
    if s.first == th.seen { BusyBy(s', t); } else { BusyStays(s, s', t, th.(pc := LoadTop)); }
  }

  lemma BusyIdle(s: Sys, t: nat, extra: nat)
    requires Inv(s) && Busy(s) && Enabled(s, t, Run(extra))
    requires s.threads[t].pc == Waiting || s.threads[t].pc == Asleep || s.threads[t].pc == Deciding
    ensures Busy(RunStep(s, t, extra))
  {
    var th, s' := s.threads[t], RunStep(s, t, extra);
    if th.pc != Deciding {
      BusyStays(s, s', t, s'.threads[t]);
    } else if s.active == 0 && s.first >= |s.slots| {
      assert s'.first >= |s'.slots|;
    } else {
      BusyBy(s', t);
    }
  }

  lemma BusyEnter(s: Sys, t: nat, extra: nat)
    requires Enabled(s, t, Run(extra)) && (s.threads[t].pc == Entering || s.threads[t].pc == Marking)
    ensures Busy(RunStep(s, t, extra))
  {
    BusyBy(RunStep(s, t, extra), t);
  }

  lemma BusyLoad(s: Sys, t: nat, extra: nat)
    requires Enabled(s, t, Run(extra)) && s.threads[t].pc == LoadFirst
    ensures Busy(RunStep(s, t, extra))
  {
    BusyBy(RunStep(s, t, extra), t);
  }

  lemma BusySteal(s: Sys, t: nat, extra: nat)
    requires Enabled(s, t, Run(extra)) && (s.threads[t].pc == Stealing || s.threads[t].pc == Taking)
    ensures Busy(RunStep(s, t, extra))
  {
    BusyBy(RunStep(s, t, extra), t);
  }

  lemma BusyRun(s: Sys, t: nat, extra: nat)
    requires Inv(s) && Busy(s) && Enabled(s, t, Run(extra))
    ensures Busy(RunStep(s, t, extra))
  {
    match s.threads[t].pc
    case Entering => BusyEnter(s, t, extra);
    case Marking => BusyEnter(s, t, extra);
    case LoadFirst => BusyLoad(s, t, extra);
    case Stealing => BusySteal(s, t, extra);
    case Taking => BusySteal(s, t, extra);
    case LoadTop => BusyLook(s, t, extra);
    case WantLock => BusyLook(s, t, extra);
    case Swap => BusySwap(s, t, extra);
    case Waiting => BusyIdle(s, t, extra);
    case Asleep => BusyIdle(s, t, extra);
    case Deciding => BusyIdle(s, t, extra);
    case Gone =>
  }

  lemma BusyMarking(s: Sys, t: nat, a: Act)
    requires Enabled(s, t, a) && (a.Scan? || a.Overflow? || a.Give?)
    ensures Busy(Next(s, t, a))
  {
    BusyBy(Next(s, t, a), t);
  }

  /** Every step keeps it. */
  lemma BusyNext(s: Sys, t: nat, a: Act)
    requires Inv(s) && Busy(s) && Enabled(s, t, a)
    ensures Busy(Next(s, t, a))
  {
    var s' := Next(s, t, a);
    match a
    case Run(extra) => BusyRun(s, t, extra);
    case Join =>
      if s.first < |s.slots| && !AllEntering(s) {
        var u :| u in s.threads && Carrier(s, s.threads[u]);
        assert Carrier(s', s'.threads[u]);
      }
    case Scan(_, _) => BusyMarking(s, t, a);
    case Overflow(_) => BusyMarking(s, t, a);
    case Give(_) => BusyMarking(s, t, a);
    case Spurious => BusyStays(s, s', t, s'.threads[t]);
    case EndHelp => BusyStays(s, s', 0, s.threads[0]);
  }

  lemma {:induction false} RunBusy(r: seq<Sys>, entries: seq<int>, size: nat, i: nat)
    requires IsRun(r, entries, size) && 0 !in entries && i < |r|
    ensures Busy(r[i])
  {
    if i == 0 {
      assert AllEntering(r[0]);
    } else {
      RunBusy(r, entries, size, i - 1);
      RunInv(r, entries, size, i - 1);
      StepOf(r, entries, size, i - 1, i);
      BusyStep(r[i - 1], r[i]);
    }
  }

  lemma BusyStep(s: Sys, s': Sys)
    requires Inv(s) && Busy(s) && StepTo(s, s')
    ensures Busy(s')
  {
    var t: nat, a :| Enabled(s, t, a) && s' == Next(s, t, a);
    BusyNext(s, t, a);
  }

  /** With nobody active and some thread begun, the shared stack has been looked
      through to the top: the second half of the test for leaving is redundant. */
  lemma NothingAbove(s: Sys, t: nat)
    requires Inv(s) && Busy(s) && s.active == 0 && t in s.threads && s.threads[t].pc != Entering
    ensures s.first >= |s.slots|
  {
    forall u | u in s.threads ensures !Carrier(s, s.threads[u]) {
      assert IsActive(s.threads[u].pc) ==> u in ActiveSet(s.threads);
    }
  }

  /** At any point of a run where nobody is active, though some thread has begun, a
      step makes the count positive if and only if a helper enters by it. */
  lemma CountRises(r: seq<Sys>, entries: seq<int>, size: nat, i: nat, u: nat, t: nat, a: Act)
    requires IsRun(r, entries, size) && 0 !in entries && i < |r|
    requires r[i].active == 0 && u in r[i].threads && r[i].threads[u].pc != Entering && Enabled(r[i], t, a)
    ensures Next(r[i], t, a).active > 0 <==> a.Run? && r[i].threads[t].pc == Entering
  {
    var s := r[i];
    RunInv(r, entries, size, i);
    RunBusy(r, entries, size, i);
    NothingAbove(s, u);
    assert t in s.threads && IsActive(s.threads[t].pc) ==> t in ActiveSet(s.threads);
  }

  /** GC_mark_local by thread 0 with nothing to do, then by a helper that comes late. */
  ghost function LateRun(size: nat): seq<Sys> {
    var s0 := Start([], size);
    var t := Fresh.(pc := LoadFirst);
    var s1 := s0.(active := 1, threads := map[0 := t]);
    var s2 := s1.(threads := map[0 := t.(pc := LoadTop)]);
    var s3 := s1.(threads := map[0 := t.(pc := WantLock)]);
    var s4 := s1.(active := 0, lock := 0, threads := map[0 := t.(pc := Waiting, notified := true)]);
    var s5 := s4.(threads := map[0 := t.(pc := Deciding, notified := true)]);
    var gone := t.(pc := Gone, notified := true);
    var s6 := s4.(lock := -1, helpers := 0, threads := map[0 := gone]);
    var s7 := s6.(helpers := 1, threads := map[0 := gone, 1 := Fresh]);
    var s8 := s7.(active := 1, threads := map[0 := gone, 1 := t]);
    [s0, s1, s2, s3, s4, s5, s6, s7, s8]
  }

  /** The count of active threads need not stay 0 once it has returned to 0: here it
      rises, returns to 0, a thread leaves, and a late helper raises it again. */
  lemma LateHelper(size: nat)
    ensures var r := LateRun(size);
            && IsRun(r, [], size) && r[1].active == 1 && r[4].active == 0
            && r[6].threads[0].pc == Gone && r[6].active == 0 && r[8].active == 1
  {
    var r := LateRun(size);
    forall i | 0 <= i < 8 ensures StepTo(r[i], r[i + 1]) { LateStep(size, i); }
  }

  lemma LateStep(size: nat, i: nat)
    requires i < 8
    ensures StepTo(LateRun(size)[i], LateRun(size)[i + 1])
  {
    var r := LateRun(size);
    if i == 6 {
      assert Enabled(r[6], 1, Join) && Next(r[6], 1, Join) == r[7];
    } else {
      var t := if i == 7 then 1 else 0;
      assert Enabled(r[i], t, Run(0)) && Next(r[i], t, Run(0)) == r[i + 1];
    }
  }
}
