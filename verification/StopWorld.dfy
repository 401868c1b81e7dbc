/** Stopping and restarting the world by signals: GC_stop_world, GC_start_world and
    the suspend handler, as steps of any number of threads over any number of
    stops.  The thread that stops the world holds the allocation lock, so threads
    register, finish and block only between stops. */
module StopWorld {
  import opened SetSizes

  /** Where a thread is in GC_suspend_handler_inner. */
  datatype Pc =
    | Running
    | Entered       // GC_stop_count has been read
    | Saved         // the stack pointer has been recorded
    | Posted        // the acknowledgement has been posted
    | Suspended     // in sigsuspend
    | Woken         // about to read GC_world_is_stopped
    | Looked        // about to read GC_stop_count again

  datatype Thread = Thread(
    live: bool,     // registered, not finished and not blocked
    pc: Pc,
    my: nat,        // my_stop_count
    last: nat,      // last_stop_count
    sp: nat,        // the stop for which the stack pointer was last recorded
    suspend: bool,  // is SIG_SUSPEND pending?
    restart: bool)  // is SIG_THR_RESTART pending?

  /** Where the stopping thread is. */
  datatype Phase = Idle | Counted | Sending | Acking | Stopped | Restarting

  /** The stop in progress, or the last one. */
  datatype Round = Round(
    count: nat,             // GC_stop_count
    phase: Phase,
    stopper: nat,
    todo: set<nat>,         // threads not looked at yet in the loop over all threads
    sent: set<nat>)         // threads that were sent SIG_SUSPEND in this stop

  datatype Sys = Sys(
    g: Round,
    stopped: bool,          // GC_world_is_stopped
    sem: nat,               // GC_suspend_ack_sem
    left: nat,              // acknowledgements still to be waited for
    threads: map<nat, Thread>)

  datatype Act =
    | Register              // a new thread
    | SetLive(live: bool)   // finish, block or unblock
    | Stop                  // become the stopping thread
    | Announce              // set GC_world_is_stopped
    | Send(to: nat)         // one iteration of GC_suspend_all
    | Sent                  // end of it
    | Ack                   // one sem_wait
    | AllStopped            // return of GC_stop_world
    | Start                 // clear GC_world_is_stopped
    | Resend(to: nat)       // one iteration of the loop of GC_start_world
    | Started               // return of GC_start_world
    | Deliver               // SIG_SUSPEND interrupts a running thread
    | Step                  // the next step of the handler
    | Ignore                // SIG_THR_RESTART interrupts a running thread
    | Spurious              // sigsuspend returns for another signal

  const New := Thread(true, Running, 0, 0, 0, false, false)

  /** The threads a stopping thread has to stop. */
  function Others(threads: map<nat, Thread>, stopper: nat): set<nat> {
    set t | t in threads && t != stopper && threads[t].live
  }

  predicate Enabled(s: Sys, t: nat, a: Act) {
    match a
    case Register => t !in s.threads && s.g.phase == Idle
    case SetLive(_) => t in s.threads && s.threads[t].pc == Running && s.g.phase == Idle
    case Stop => t in s.threads && s.threads[t].pc == Running && s.g.phase == Idle
    case Announce => t == s.g.stopper && s.g.phase == Counted
    case Send(to) => t == s.g.stopper && s.g.phase == Sending && to in s.g.todo
    case Sent => t == s.g.stopper && s.g.phase == Sending && s.g.todo == {}
    case Ack => t == s.g.stopper && s.g.phase == Acking && s.left > 0 && s.sem > 0
    case AllStopped => t == s.g.stopper && s.g.phase == Acking && s.left == 0
    case Start => t == s.g.stopper && s.g.phase == Stopped
    case Resend(to) => t == s.g.stopper && s.g.phase == Restarting && to in s.g.todo
    case Started => t == s.g.stopper && s.g.phase == Restarting && s.g.todo == {}
    case Deliver => t in s.threads && s.threads[t].pc == Running && s.threads[t].suspend
    case Step => t in s.threads && s.threads[t].pc != Running && (s.threads[t].pc == Suspended ==> s.threads[t].restart)
    case Ignore => t in s.threads && s.threads[t].pc == Running && s.threads[t].restart
    case Spurious => t in s.threads && s.threads[t].pc == Suspended
  }

  function Put(s: Sys, t: nat, th: Thread): Sys { s.(threads := s.threads[t := th]) }

  /** The suspend handler. */
  function HandlerStep(s: Sys, t: nat): Sys
    requires Enabled(s, t, Step)
  {
    var th := s.threads[t];
    match th.pc
    case Running => s
    case Entered => Put(s, t, if th.last == th.my then th.(pc := Running) else th.(pc := Saved, sp := th.my))
    case Saved => Put(s.(sem := s.sem + 1), t, th.(pc := Posted))
    case Posted => Put(s, t, th.(pc := Suspended, last := th.my))
    case Suspended => Put(s, t, th.(pc := Woken, restart := false))
    case Woken => Put(s, t, th.(pc := if s.stopped then Looked else Running))
    case Looked => Put(s, t, th.(pc := if s.g.count == th.my then Suspended else Running))
  }

  function Next(s: Sys, t: nat, a: Act): Sys
    requires Enabled(s, t, a) && s.g.todo <= s.threads.Keys
  {
    match a
    case Register => Put(s, t, New)
    case SetLive(live) => Put(s, t, s.threads[t].(live := live))
    case Stop => s.(g := s.g.(count := s.g.count + 1, phase := Counted, stopper := t))
    case Announce =>
      s.(stopped := true, g := s.g.(phase := Sending, todo := Others(s.threads, s.g.stopper), sent := {}))
    case Send(to) =>
      if s.threads[to].last == s.g.count then s.(g := s.g.(todo := s.g.todo - {to}))
      else Put(s.(g := s.g.(todo := s.g.todo - {to}, sent := s.g.sent + {to})), to, s.threads[to].(suspend := true))
    case Sent => s.(g := s.g.(phase := Acking), left := |s.g.sent|)
    case Ack => s.(sem := s.sem - 1, left := s.left - 1)
    case AllStopped => s.(g := s.g.(phase := Stopped))
    case Start => s.(stopped := false, g := s.g.(phase := Restarting, todo := Others(s.threads, s.g.stopper)))
    case Resend(to) => Put(s.(g := s.g.(todo := s.g.todo - {to})), to, s.threads[to].(restart := true))
    case Started => s.(g := s.g.(phase := Idle))
    case Deliver => Put(s, t, s.threads[t].(pc := Entered, my := s.g.count, suspend := false))
    case Step => HandlerStep(s, t)
    case Ignore => Put(s, t, s.threads[t].(restart := false))
    case Spurious => Put(s, t, s.threads[t].(pc := Woken))
  }

  // ---------------------------------------------------------------- the invariant

  predicate Past(pc: Pc) { pc == Posted || pc == Suspended || pc == Woken || pc == Looked }

  /** Has thread th acknowledged stop c, and is it still in its handler? */
  predicate Acked(th: Thread, c: nat) { Past(th.pc) && th.my == c }

  /** Is there a stop for which signals are being sent or awaited? */
  predicate Busy(p: Phase) { p == Sending || p == Acking || p == Stopped }

  ghost function AckedSet(threads: map<nat, Thread>, c: nat): set<nat> { set t | t in threads && Acked(threads[t], c) }

  /** Has SIG_THR_RESTART been sent to thread t after the stop th is in the handler of? */
  predicate Released(g: Round, t: nat, th: Thread) {
    th.my < g.count || g.phase == Idle || (g.phase == Restarting && t !in g.todo)
  }

  ghost predicate ThreadOK(g: Round, t: nat, th: Thread) {
    && th.last <= g.count && th.my <= g.count
    && (g.phase == Counted ==> th.last < g.count && th.my < g.count)
    // a signal is pending or being handled only for a thread that was sent it
    && (th.suspend ==> Busy(g.phase) && t in g.sent && th.my < g.count && th.last < g.count)
    && (th.pc == Entered || th.pc == Saved ==>
          Busy(g.phase) && t in g.sent && !th.suspend && th.my == g.count && th.last < g.count)
    && (Busy(g.phase) && Acked(th, g.count) ==> t in g.sent && !th.suspend)
    && (th.pc == Saved || Past(th.pc) ==> th.sp == th.my)
    // a thread that was sent a signal has it pending, handles it or has acknowledged
    && (Busy(g.phase) && t in g.sent ==> th.live && t != g.stopper)
    && (Busy(g.phase) && t in g.sent ==> th.suspend || th.pc == Entered || th.pc == Saved || Acked(th, g.count))
    && (g.phase == Sending && t !in g.sent ==> th.last < g.count && th.my < g.count)
    && (th.pc != Running ==> th.live && (g.phase != Idle ==> t != g.stopper))
    // a thread late in leaving its handler will be woken
    && (Past(th.pc) && Released(g, t, th) ==> th.restart || th.pc == Woken || (th.pc == Looked && th.my < g.count))
  }

  ghost predicate AllOK(s: Sys) {
    forall t {:trigger s.threads[t]} :: t in s.threads ==> ThreadOK(s.g, t, s.threads[t])
  }

  ghost predicate Inv(s: Sys) {
    && AllOK(s) && s.g.todo <= s.threads.Keys && s.g.sent <= s.threads.Keys
    && (s.g.phase != Idle ==> s.g.stopper in s.threads && s.threads[s.g.stopper].pc == Running)
    && (s.stopped <==> Busy(s.g.phase))
    && Counting(s.g, s.sem, s.left, |AckedSet(s.threads, s.g.count)|, Others(s.threads, s.g.stopper))
  }

  /** The semaphore counts the acknowledgements that have not been waited for, and
      all live threads other than the stopping one are sent a signal. */
  ghost predicate Counting(g: Round, sem: nat, left: nat, acked: nat, others: set<nat>) {
    match g.phase
    case Sending => others == g.todo + g.sent && g.todo !! g.sent && sem == acked
    case Acking => others == g.sent && left <= |g.sent| && sem + (|g.sent| - left) == acked
    case Stopped => others == g.sent && left == 0 && sem + |g.sent| == acked
    case Restarting => g.todo <= others && sem == 0
    case _ => sem == 0
  }

  // ---------------------------------------------------------------- what a step keeps

  lemma AckedPut(m: map<nat, Thread>, t: nat, th: Thread, c: nat)
    ensures |AckedSet(m[t := th], c)| ==
            |AckedSet(m, c)| + (if Acked(th, c) then 1 else 0) - (if t in m && Acked(m[t], c) then 1 else 0)
  {
    assert AckedSet(m[t := th], c) - {t} == AckedSet(m, c) - {t};
    CountOne(AckedSet(m, c), AckedSet(m[t := th], c), t);
  }

  /** A step of one thread, during the same round. */
  lemma ThreadStep(s: Sys, s': Sys, t: nat, th: Thread)
    requires Inv(s) && t in s.threads && s'.threads == s.threads[t := th]
    requires s'.g == s.g && s'.stopped == s.stopped && s'.left == s.left
    requires ThreadOK(s.g, t, th) && th.live == s.threads[t].live
    requires s.g.phase != Idle && t == s.g.stopper ==> th.pc == Running
    requires s'.sem - s.sem == if !Acked(s.threads[t], s.g.count) && Acked(th, s.g.count) then 1 else 0
    requires !Acked(s.threads[t], s.g.count) && Acked(th, s.g.count) ==> Busy(s.g.phase)
    requires Busy(s.g.phase) && Acked(s.threads[t], s.g.count) ==> Acked(th, s.g.count)
    ensures Inv(s')
  {
    AckedPut(s.threads, t, th, s.g.count);
    assert Others(s'.threads, s.g.stopper) == Others(s.threads, s.g.stopper);
    OthersOK(s, s', t, th);
  }

  lemma OthersOK(s: Sys, s': Sys, t: nat, th: Thread)
    requires AllOK(s) && s'.threads == s.threads[t := th] && s'.g == s.g && ThreadOK(s.g, t, th)
    ensures AllOK(s')
  {
    forall u | u in s'.threads ensures ThreadOK(s'.g, u, s'.threads[u]) {
      if u != t { assert ThreadOK(s.g, u, s.threads[u]); }
    }
  }

  lemma HandlerArrives(s: Sys, t: nat)
    requires Inv(s) && Enabled(s, t, Step)
    requires (s.threads[t].pc == Entered || s.threads[t].pc == Saved || s.threads[t].pc == Posted)
    ensures Inv(Next(s, t, Step))
  {
    var s' := HandlerStep(s, t);
    assert ThreadOK(s.g, t, s.threads[t]);
    ThreadStep(s, s', t, s'.threads[t]);
  }

  lemma HandlerWakes(s: Sys, t: nat)
    requires Inv(s) && Enabled(s, t, Step) && s.threads[t].pc == Suspended
    ensures Inv(Next(s, t, Step))
  {
    var s' := HandlerStep(s, t);
    assert ThreadOK(s.g, t, s.threads[t]);
    ThreadStep(s, s', t, s'.threads[t]);
  }

  lemma HandlerLooks(s: Sys, t: nat)
    requires Inv(s) && Enabled(s, t, Step) && s.threads[t].pc == Woken
    ensures Inv(Next(s, t, Step))
  {
    var s' := HandlerStep(s, t);
    assert ThreadOK(s.g, t, s.threads[t]);
    ThreadStep(s, s', t, s'.threads[t]);
  }

  lemma HandlerDecides(s: Sys, t: nat)
    requires Inv(s) && Enabled(s, t, Step) && s.threads[t].pc == Looked
    ensures Inv(Next(s, t, Step))
  {
    var s' := HandlerStep(s, t);
    assert ThreadOK(s.g, t, s.threads[t]);
    ThreadStep(s, s', t, s'.threads[t]);
  }

  lemma SignalKeeps(s: Sys, t: nat, a: Act)
    requires Inv(s) && Enabled(s, t, a) && (a == Deliver || a == Ignore || a == Spurious)
    ensures Inv(Next(s, t, a))
  {
    var s' := Next(s, t, a);
    assert ThreadOK(s.g, t, s.threads[t]);
    ThreadStep(s, s', t, s'.threads[t]);
  }

  lemma RegisterKeeps(s: Sys, t: nat, a: Act)
    requires Inv(s) && Enabled(s, t, a) && (a == Register || a.SetLive?)
    ensures Inv(Next(s, t, a))
  {
    var s' := Next(s, t, a);
    AckedPut(s.threads, t, s'.threads[t], s.g.count);
    forall u | u in s'.threads ensures ThreadOK(s'.g, u, s'.threads[u]) {
      if u in s.threads { assert ThreadOK(s.g, u, s.threads[u]); }
    }
  }

  lemma StopKeeps(s: Sys, t: nat)
    requires Inv(s) && Enabled(s, t, Stop)
    ensures Inv(Next(s, t, Stop))
  {
    var s' := Next(s, t, Stop);
    forall u | u in s'.threads ensures ThreadOK(s'.g, u, s'.threads[u]) { assert ThreadOK(s.g, u, s.threads[u]); }
  }

  lemma AnnounceKeeps(s: Sys, t: nat)
    requires Inv(s) && Enabled(s, t, Announce)
    ensures Inv(Next(s, t, Announce))
  {
    var s' := Next(s, t, Announce);
    forall u | u in s'.threads ensures ThreadOK(s'.g, u, s'.threads[u]) { assert ThreadOK(s.g, u, s.threads[u]); }
    assert AckedSet(s.threads, s.g.count) == {} by {
      forall u | u in s.threads ensures !Acked(s.threads[u], s.g.count) { assert ThreadOK(s.g, u, s.threads[u]); }
    }
  }

  /** Every live thread is sent the signal; none is passed over. */
  lemma SendKeeps(s: Sys, t: nat, to: nat)
    requires Inv(s) && Enabled(s, t, Send(to))
    ensures Inv(Next(s, t, Send(to))) && to in Next(s, t, Send(to)).g.sent
  {
    var s' := Next(s, t, Send(to));
    assert ThreadOK(s.g, to, s.threads[to]) && to in Others(s.threads, s.g.stopper) && to !in s.g.sent;
    AckedPut(s.threads, to, s'.threads[to], s.g.count);
    assert Others(s'.threads, s.g.stopper) == Others(s.threads, s.g.stopper);
    forall u | u in s'.threads ensures ThreadOK(s'.g, u, s'.threads[u]) { assert ThreadOK(s.g, u, s.threads[u]); }
  }

  lemma AckKeeps(s: Sys, t: nat, a: Act)
    requires Inv(s) && Enabled(s, t, a) && (a == Sent || a == Ack || a == AllStopped)
    ensures Inv(Next(s, t, a))
  {
    var s' := Next(s, t, a);
    forall u | u in s'.threads ensures ThreadOK(s'.g, u, s'.threads[u]) { assert ThreadOK(s.g, u, s.threads[u]); }
    assert s.g.todo == {} ==> s.g.todo + s.g.sent == s.g.sent;
  }

  lemma SubsetAll(a: set<nat>, b: set<nat>)
    requires a <= b && |a| >= |b|
    ensures a == b
  {
    assert b == a + (b - a);
    assert |b - a| == 0;
  }

  /** When GC_stop_world has returned, every live thread other than the stopping one
      is in its handler, has recorded its stack pointer and has acknowledged, and
      the semaphore is zero. */
  lemma WorldStopped(s: Sys, t: nat)
    requires Inv(s) && s.g.phase == Stopped && t in s.threads && s.threads[t].live && t != s.g.stopper
    ensures Acked(s.threads[t], s.g.count) && s.threads[t].sp == s.g.count && !s.threads[t].suspend
    ensures s.sem == 0
  {
    var acked := AckedSet(s.threads, s.g.count);
    forall u | u in acked ensures u in s.g.sent { assert ThreadOK(s.g, u, s.threads[u]); }
    assert acked <= s.g.sent;
    assert s.g.sent == acked + (s.g.sent - acked);
    SubsetAll(acked, s.g.sent);
    assert t in Others(s.threads, s.g.stopper) && t in acked;
    assert ThreadOK(s.g, t, s.threads[t]);
  }

  lemma StartKeeps(s: Sys, t: nat)
    requires Inv(s) && Enabled(s, t, Start)
    ensures Inv(Next(s, t, Start))
  {
    var s' := Next(s, t, Start);
    forall u | u in s'.threads ensures ThreadOK(s'.g, u, s'.threads[u]) {
      assert ThreadOK(s.g, u, s.threads[u]);
      if s.threads[u].live && u != s.g.stopper { WorldStopped(s, u); }
    }
    NoAckLeft(s);
  }

  lemma NoAckLeft(s: Sys)
    requires Inv(s) && s.g.phase == Stopped
    ensures s.sem == 0
  {
    var acked := AckedSet(s.threads, s.g.count);
    forall u | u in acked ensures u in s.g.sent { assert ThreadOK(s.g, u, s.threads[u]); }
    assert s.g.sent == acked + (s.g.sent - acked);
  }

  lemma ResendKeeps(s: Sys, t: nat, to: nat)
    requires Inv(s) && Enabled(s, t, Resend(to))
    ensures Inv(Next(s, t, Resend(to)))
  {
    var s' := Next(s, t, Resend(to));
    assert Others(s'.threads, s.g.stopper) == Others(s.threads, s.g.stopper);
    forall u | u in s'.threads ensures ThreadOK(s'.g, u, s'.threads[u]) { assert ThreadOK(s.g, u, s.threads[u]); }
  }

  lemma StartedKeeps(s: Sys, t: nat)
    requires Inv(s) && Enabled(s, t, Started)
    ensures Inv(Next(s, t, Started))
  {
    var s' := Next(s, t, Started);
    forall u | u in s'.threads ensures ThreadOK(s'.g, u, s'.threads[u]) { assert ThreadOK(s.g, u, s.threads[u]); }
  }

  /** Every step of every thread keeps the invariant. */
  lemma NextKeeps(s: Sys, t: nat, a: Act)
    requires Inv(s) && Enabled(s, t, a)
    ensures Inv(Next(s, t, a))
  {
    match a
    case Register => RegisterKeeps(s, t, a);
    case SetLive(_) => RegisterKeeps(s, t, a);
    case Stop => StopKeeps(s, t);
    case Announce => AnnounceKeeps(s, t);
    case Send(to) => SendKeeps(s, t, to);
    case Sent => AckKeeps(s, t, a);
    case Ack => AckKeeps(s, t, a);
    case AllStopped => AckKeeps(s, t, a);
    case Start => StartKeeps(s, t);
    case Resend(to) => ResendKeeps(s, t, to);
    case Started => StartedKeeps(s, t);
    case Deliver => SignalKeeps(s, t, a);
    case Ignore => SignalKeeps(s, t, a);
    case Spurious => SignalKeeps(s, t, a);
    case Step =>
      match s.threads[t].pc {
        case Running =>
        case Suspended => HandlerWakes(s, t);
        case Woken => HandlerLooks(s, t);
        case Looked => HandlerDecides(s, t);
        case _ => HandlerArrives(s, t);
      }
  }

  // ---------------------------------------------------------------- runs

  const Init := Sys(Round(0, Idle, 0, {}, {}), false, 0, 0, map[])

  ghost predicate StepTo(s: Sys, s': Sys) {
    s.g.todo <= s.threads.Keys && exists t: nat, a :: Enabled(s, t, a) && s' == Next(s, t, a)
  }

  ghost predicate IsRun(r: seq<Sys>) {
    |r| > 0 && r[0] == Init && forall i :: 0 <= i < |r| - 1 ==> StepTo(r[i], r[i + 1])
  }

  lemma {:induction false} RunInv(r: seq<Sys>, i: nat)
    requires IsRun(r) && i < |r|
    ensures Inv(r[i])
  {
    if i == 0 {
      assert AckedSet(Init.threads, 0) == {};
    } else {
      RunInv(r, i - 1);
      assert StepTo(r[i - 1], r[i - 1 + 1]);
      var t: nat, a :| Enabled(r[i - 1], t, a) && r[i] == Next(r[i - 1], t, a);
      NextKeeps(r[i - 1], t, a);
    }
  }

  /** In every run over any number of stops: between the return of GC_stop_world and
      GC_start_world every live thread but the stopping one is inside its handler
      for this very stop, with its stack pointer recorded; and the semaphore is zero
      then and between stops. */
  lemma Safety(r: seq<Sys>, i: nat)
    requires IsRun(r) && i < |r|
    ensures r[i].g.phase == Stopped ==>
              forall t :: t in r[i].threads && r[i].threads[t].live && t != r[i].g.stopper ==>
                            Acked(r[i].threads[t], r[i].g.count) && r[i].threads[t].sp == r[i].g.count
    ensures r[i].g.phase == Stopped || r[i].g.phase == Idle ==> r[i].sem == 0
  {
    RunInv(r, i);
    var s := r[i];
    if s.g.phase == Stopped {
      NoAckLeft(s);
      forall t | t in s.threads && s.threads[t].live && t != s.g.stopper
        ensures Acked(s.threads[t], s.g.count) && s.threads[t].sp == s.g.count
      {
        WorldStopped(s, t);
      }
    }
  }

  /** While the world is stopped no thread leaves its handler. */
  lemma StaysStopped(s: Sys, t: nat, a: Act, u: nat)
    requires Inv(s) && s.g.phase == Stopped && Enabled(s, t, a) && a != Start
    requires u in s.threads && s.threads[u].live && u != s.g.stopper
    ensures var s' := Next(s, t, a); s'.g == s.g && Acked(s'.threads[u], s.g.count)
  {
    WorldStopped(s, u);
  }

  lemma Missing(sent: set<nat>, acked: set<nat>)
    requires |acked| < |sent|
    ensures sent - acked != {}
  {
    assert sent == (sent * acked) + (sent - acked);
    assert acked == (sent * acked) + (acked - sent);
  }

  /** The stopping thread never waits in vain: as long as an acknowledgement is
      missing, some thread that was sent the signal can take a step. */
  lemma AckComes(s: Sys) returns (u: nat, a: Act)
    requires Inv(s) && s.g.phase == Acking && s.left > 0
    ensures Enabled(s, u, a) && (a == Ack || (u in s.g.sent && (a == Deliver || a == Step)))
  {
    u, a := s.g.stopper, Ack;
    if s.sem == 0 {
      var acked := AckedSet(s.threads, s.g.count);
      Missing(s.g.sent, acked);
      u :| u in s.g.sent - acked;
      var th := s.threads[u];
      assert ThreadOK(s.g, u, th);
      a := if th.pc == Running then Deliver else Step;
    }
  }
}
