/** The marker's loops over the globals of the collector, with the mutator
    running in between whenever the world is not stopped. */
module Collecting {
  import opened Graph
  import opened Marking
  import opened Sweeping
  import opened Tracing
  import opened Finalization
  import opened Ranges

  /** What marking may do to the marker's globals. */
  ghost predicate Frame(m: Marker, m': Marker) {
    && m'.limit == m.limit && m'.scanPtr == m.scanPtr
    && m'.grungy == m.grungy && m'.stopped == m.stopped && m'.aim == m.aim
    && m.marked <= m'.marked
    && (m'.state == m.state || m'.state == Invalid) && (m'.state != Invalid ==> m'.tooSmall == m.tooSmall)
    && (m.objectsAreMarked ==> m'.objectsAreMarked)
  }

  /** If nothing is newly marked then nothing is pushed and there is no overflow. */
  ghost predicate Grew(m: Marker, m': Marker) {
    Frame(m, m') && (m'.marked == m.marked ==> m'.stack == m.stack && m'.state == m.state) && Room(m, m')
  }

  /** If nothing is newly marked then there is less left to scan. */
  ghost predicate Drained(m: Marker, m': Marker) {
    && Frame(m, m') && (m'.marked == m.marked ==> m'.state == m.state && Work(m'.stack) < Work(m.stack))
    && Room(m, m')
  }

  /** Frame, and no overflow without a newly marked object. */
  ghost predicate Pushed(m: Marker, m': Marker) {
    Frame(m, m') && (m'.marked == m.marked ==> m'.state == m.state)
  }

  lemma GrewPush(sh: Shape, mk: Marker, v: int)
    requires MARK_STACK_DISCARDS <= mk.limit && |mk.stack| <= mk.limit
    ensures Grew(mk, PushContents(sh, mk, v))
  {
    RoomPush(sh, mk, v);
  }

  lemma GrewTrans(a: Marker, b: Marker, c: Marker)
    requires Grew(a, b) && Grew(b, c) && |b.stack| <= b.limit
    ensures Grew(a, c)
  {
    RoomTrans(a, b, c);
  }

  lemma PushedTrans(a: Marker, b: Marker, c: Marker)
    requires Pushed(a, b) && Grew(b, c)
    ensures Pushed(a, c)
  {
  }

  lemma DrainedTrans(a: Marker, b: Marker, c: Marker)
    requires Drained(a, b) && Drained(b, c) && |b.stack| <= b.limit
    ensures Drained(a, c)
  {
    RoomTrans(a, b, c);
  }

  /** Scanning what was taken off the stack. */
  lemma DrainedCut(m: Marker, m': Marker, k: nat)
    requires m.stack != [] && Grew(m.(stack := Cut(m.stack, k)), m') && Work(Cut(m.stack, k)) < Work(m.stack)
    ensures Drained(m, m')
  {
  }

  /** What marking from the stack has done since m and k; looked into only where Open
      is mentioned. */
  ghost predicate Traced(sh: Shape, m0: Mem, m: Mem, k: Marker, m': Mem, k': Marker) {
    forall i {:trigger Open(i)} :: Open(i) ==>
      Later(m, m') && Frame(k, k') && Room(k, k') && Onward(sh, m0, m, k, m', k')
  }

  lemma TracedNone(sh: Shape, m0: Mem, m: Mem, k: Marker)
    requires Later(m, m)
    ensures Traced(sh, m0, m, k, m, k)
  {
    OnwardNone(sh, m0, m, k);
  }

  lemma TracedNext(sh: Shape, m0: Mem, m: Mem, k: Marker, m1: Mem, k1: Marker, m2: Mem, k2: Marker)
    requires Traced(sh, m0, m, k, m1, k1) && Later(m1, m2) && Drained(k1, k2) && |k1.stack| <= k1.limit
    requires Onward(sh, m0, m1, k1, m2, k2)
    ensures Traced(sh, m0, m, k, m2, k2)
  {
    assert Open(0);
    LaterTrans(m, m1, m2);
    RoomTrans(k, k1, k2);
    OnwardTrans(sh, m0, m, k, m1, k1, m2, k2);
  }

  /** Marking more of a finite heap leaves less of it unmarked. */
  lemma FewerUnmarked(all: set<int>, m: set<int>, m': set<int>)
    requires m <= m' <= all && m != m'
    ensures |all - m'| < |all - m|
  {
    assert all - m == (all - m') + (m' - m);
    assert m' - m != {};
  }

  ghost function Unmarked(sh: Shape, mk: Marker): nat { |sh.size.Keys - mk.marked| }

  /** A stack that started with one entry overflows only if as many objects get
      marked as it has entries, all of which can be reached from p. */
  lemma OverflowIsHeavy(h: Heap, marked: set<int>, m: Marker, m': Marker, p: int)
    requires Room(m, m') && |m.stack| <= 1 && m.marked == marked && m'.state != m.state
    requires marked <= m'.marked <= MarkedFo(h, marked, p, false)
    ensures Heavy(h, marked, m.limit, p)
  {
    CountMore(marked, m'.marked, Reach(h, WordsOf(h, p)));
  }

  /** How many phases lie ahead if nothing new gets marked. */
  ghost function Rank(mk: Marker): nat {
    match mk.state
    case None => 0
    case RootsPushed => 1
    case Invalid => if mk.scanPtr == 0 then 3 else 4
    case _ => 2
  }

  ghost function Left(sh: Shape, mk: Marker): nat {
    if mk.scanPtr <= sh.lastBlock then sh.lastBlock + 1 - mk.scanPtr else 0
  }

  /** Fewer unmarked objects, or as many and a later phase, or fewer blocks to
      push from, or fewer words to scan. */
  ghost predicate Progress(sh: Shape, m: Marker, m': Marker) {
    || Unmarked(sh, m') < Unmarked(sh, m)
    || (Unmarked(sh, m') == Unmarked(sh, m) &&
        (|| Rank(m') < Rank(m)
         || (Rank(m') == Rank(m) &&
             (|| Left(sh, m') < Left(sh, m)
              || (Left(sh, m') == Left(sh, m) && Work(m'.stack) < Work(m.stack))))))
  }

  lemma ProgressTrans(sh: Shape, a: Marker, b: Marker, c: Marker)
    requires Progress(sh, a, b) && Progress(sh, b, c)
    ensures Progress(sh, a, c)
  {
  }

  lemma ProgressMarks(sh: Shape, m: Marker, m': Marker)
    requires m.marked <= m'.marked <= sh.size.Keys
    requires m'.marked == m.marked ==> Progress(sh, m, m')
    ensures Progress(sh, m, m')
  {
    if m'.marked != m.marked { FewerUnmarked(sh.size.Keys, m.marked, m'.marked); }
  }

  /** After n calls of GC_mark_some, none of which was the last. */
  ghost predicate Advanced(sh: Shape, m: Marker, m': Marker, n: int) {
    Progress(sh, m, m') || (m' == m && n == 0)
  }

  lemma AdvancedNext(sh: Shape, a: Marker, b: Marker, c: Marker, n: int)
    requires Advanced(sh, a, b, n) && Progress(sh, b, c)
    ensures Advanced(sh, a, c, n + 1)
  {
    if b != a || n != 0 { ProgressTrans(sh, a, b, c); }
  }

  /** Marking steps keep the structure of the marker. */
  lemma MarkOKAfter(track: bool, sh: Shape, m0: Mem, k0: Marker, m: Mem, k: Marker)
    requires MarkOK(track, sh, m0, k0) && k0.state != None && Frame(k0, k.(scanPtr := k0.scanPtr))
    requires Core(sh, m, k) && Colour(sh, m, k, Quiet, {}) && (track || m.dirty == {}) && k.scanPtr <= sh.lastBlock + 1
    requires k.objectsAreMarked || k.marked == k0.marked
    requires k.state == Invalid && k0.state != Invalid ==> k.objectsAreMarked
    requires k.scanPtr == k0.scanPtr || k.scanPtr == 0 || k.state != Invalid || k.objectsAreMarked
    ensures MarkOK(track, sh, m, k)
  {
  }

  /** Pushing from the next block, and the roots m' after the last one. */
  lemma ScanProgress(sh: Shape, m: Marker, m1: Marker, m': Marker)
    requires m.state != None && m.state != RootsPushed && (m.state == Invalid ==> m.scanPtr != 0)
    requires m.marked <= m1.marked <= m'.marked <= sh.size.Keys && m1.scanPtr <= sh.lastBlock + 1
    requires m1.marked == m.marked ==> m1.state == m.state
    requires m1.scanPtr > m.scanPtr || m1 == m.(scanPtr := 0)
    requires m1.scanPtr != 0 || m1.state == Invalid ==> m' == m1
    requires m1.scanPtr == 0 && m1.state != Invalid && m'.marked == m1.marked ==> m'.state == RootsPushed
    ensures Progress(sh, m, m')
  {
    ProgressMarks(sh, m, m');
  }

  /** A step of a run: mutator steps, an allocation, a new block, lazy sweeping, a
      little collecting, a full collection. */
  datatype Op =
    | Mutators | Take(o: int) | Grow(b: nat, os: seq<int>, n: nat, unc: bool, small: bool)
    | Finalizer(r: nat, remove: bool)
    | SweepSome(bs: set<nat>) | Little(n: nat) | Full(never: bool)

  /** None of the addresses os is in use or occurs in memory. */
  predicate Nowhere(mem: Mem, os: seq<int>) {
    forall v :: v in os ==>
      && v !in mem.words && v !in mem.statics && v !in mem.regs && v !in mem.now && v !in mem.uncLive
      && (forall o :: o in mem.words ==> v !in mem.words[o])
  }

  /** Marking changes neither what it is for nor whether the world is stopped. */
  ghost predicate Same(m: Marker, m': Marker) {
    m'.stopped == m.stopped && m'.aim == m.aim && m'.limit >= m.limit
  }

  /** The object marked from, if any, is marked itself. */
  ghost predicate Aimed(mk: Marker) { mk.aim.Final? ==> mk.aim.p in mk.marked }

  /** Whether an operation came to its end or the program was aborted in it. */
  datatype Outcome = Done | Aborted {
    predicate IsFailure() { Aborted? }

    function PropagateFailure(): Outcome { this }
  }

  const GC_RATE: nat := 10
  const MAX_PRIOR_ATTEMPTS: nat := 1

  lemma OneMore(os: seq<int>, k: nat, n: nat)
    requires k < |os| && n == k + 1
    ensures (set o | o in os[..n]) == (set o | o in os[..k]) + {os[k]}
  {
    assert os[..n] == os[..k] + [os[k]];
  }

  class Collector {
    const incremental: bool     // are dirty bits maintained?
    const unlimited: bool       // is there no limit on pauses?
    const fullFreq: nat         // partial collections between full ones
    const dontGc: bool
    const ranges: seq<Stretch>   // the static data, less what is excluded
    var sh: Shape
    var mem: Mem
    var mk: Marker
    var lists: Lists
    var attempts: nat           // stopped mark phases given up in this cycle
    var deficit: int            // calls of MarkSome made ahead of time
    var gcNo: nat
    var isFull: bool
    var needFull: bool
    var nPartial: nat
    const hash: int -> nat      // HASH2
    var table: seq<seq<int>>    // fo_head: the registered objects, in chains
    var entries: int            // GC_fo_entries
    ghost var just: set<int>    // what marking may mark
    ghost var keep: set<int>    // what may still be used

    ghost predicate Ok(a: Act, done: set<int>)
      reads this
    {
      && Core(sh, mem, mk) && Colour(sh, mem, mk, a, done) && Just(mem, mk, a, just)
      && (incremental || mem.dirty == {}) && (incremental || mk.stopped || mk.aim.Final?)
    }

    /** Any number of mutator steps, if the world is running. */
    method Interleave(ghost a: Act, ghost done: set<int>)
      requires Ok(a, done)
      modifies this`mem
      ensures Ok(a, done)
      ensures mk.stopped ==> mem == old(mem)
      ensures Evolves(sh, incremental, old(mem), mem) && Later(old(mem), mem)
    {
      ReachInside(mem);
      if !mk.stopped {
        var n: nat := *;
        while n > 0
          invariant Ok(a, done) && Evolves(sh, incremental, old(mem), mem)
        {
          var op: MutOp := *;
          ghost var m0 := mem;
          MutateEvolves(sh, mem, op, incremental);
          mem := Mutate(sh, mem, op, incremental);
          ColourEvolves(sh, incremental, m0, mem, mk, a, done);
          JustLater(m0, mem, mk, a, just);
          EvolvesTrans(sh, incremental, old(mem), m0, mem);
          n := n - 1;
        }
      }
    }

    predicate Plausible(v: int)
      reads this`sh
    {
      sh.least <= v < sh.greatest
    }

    /** Words k..hi of s are no objects, if s stays as it was in m. */
    ghost predicate NoObjects(m: Mem, s: Src, k: int, hi: nat)
      reads this`sh, this`mk
    {
      Still(m, mk, s) ==> forall j {:trigger ReadWord(m, s, j)} :: k <= j < hi ==> ReadWord(m, s, j) !in sh.size
    }

    /** Look for the last plausible pointer among words lo..hi of s, so that it
        can be fetched while the words below it are scanned. */
    method FindDeferred(s: Src, lo: nat, hi: nat) returns (limit: nat, found: bool, deferred: int)
      requires sh.Valid() && Ok(Act(s, lo, hi, -1), {}) && lo < hi
      modifies this`mem
      ensures Later(old(mem), mem) && (mk.stopped ==> mem == old(mem))
      ensures lo <= limit && Ok(Act(s, lo, limit, if found then limit else -1), {})
      ensures if found then limit < hi && ReadWord(mem, s, limit) == deferred else limit == lo
      ensures NoObjects(old(mem), s, if found then limit + 1 else lo, hi)
    {
      LookStart(s, lo, hi);
      limit, found, deferred := LookDown(s, lo, hi);
      assert Open(0);
    }

    lemma LookStart(s: Src, lo: nat, hi: nat)
      requires sh.Valid() && Ok(Act(s, lo, hi, -1), {})
      ensures Looked(mem, s, lo, hi, hi, false, 0)
    {
      ReachInside(mem);
    }

    /** The search itself. */
    method LookDown(s: Src, lo: nat, hi: nat) returns (limit: nat, found: bool, deferred: int)
      requires sh.Valid() && lo < hi && Looked(mem, s, lo, hi, hi, false, 0)
      modifies this`mem
      ensures lo <= limit && (if found then limit < hi else limit == lo)
      ensures Looked(old(mem), s, lo, limit, hi, found, deferred)
    {
      limit, found, deferred := hi, false, 0;
      while limit > lo && !found
        invariant lo <= limit <= hi && (found ==> limit < hi)
        invariant Looked(old(mem), s, lo, limit, hi, found, deferred)
        decreases limit - lo, !found
      {
        limit, found, deferred := LookBelow(old(mem), s, lo, limit, hi, found, deferred);
      }
    }

    /** The words of s from limit on have been looked at since m, and deferred found; looked
        into only where Open is mentioned. */
    ghost predicate Looked(m: Mem, s: Src, lo: nat, limit: nat, hi: nat, found: bool, deferred: int)
      reads this
    {
      forall i {:trigger Open(i)} :: Open(i) ==>
        && Later(m, mem) && (mk.stopped ==> mem == m)
        && Ok(Act(s, lo, limit, if found then limit else -1), {})
        && (found ==> ReadWord(mem, s, limit) == deferred)
        && NoObjects(m, s, if found then limit + 1 else limit, hi)
    }

    /** The word below limit. */
    method LookBelow(ghost m: Mem, s: Src, lo: nat, limit: nat, ghost hi: nat, ghost was: bool, ghost before: int)
      returns (i: nat, found: bool, deferred: int)
      requires sh.Valid() && lo < limit <= hi && Looked(m, s, lo, limit, hi, was, before) && !was
      modifies this`mem
      ensures i == limit - 1 && Looked(m, s, lo, i, hi, found, deferred)
    {
      assert Open(0);
      i := limit - 1;
      found, deferred := IsPlausible(s, lo, i);
      LaterTrans(m, old(mem), mem);
      NoObjectsNext(m, mem, s, i, hi, found);
    }

    lemma NoObjectsNext(m: Mem, m': Mem, s: Src, i: nat, hi: nat, found: bool)
      requires NoObjects(m, s, i + 1, hi) && Later(m, m') && (mk.stopped ==> m' == m)
      requires !found ==> ReadWord(m', s, i) !in sh.size
      ensures NoObjects(m, s, if found then i + 1 else i, hi)
    {
      if Still(m, mk, s) { StillLater(m, m', mk, s, i); }
    }

    /** Is word i of s, the last of the words lo..i still to be scanned, plausible? */
    method IsPlausible(s: Src, lo: nat, i: nat) returns (found: bool, word: int)
      requires sh.Valid() && Ok(Act(s, lo, i + 1, -1), {}) && lo <= i
      modifies this`mem
      ensures Later(old(mem), mem) && (mk.stopped ==> mem == old(mem))
      ensures Ok(Act(s, lo, i, if found then i else -1), {})
      ensures ReadWord(mem, s, i) == word && (!found ==> word !in sh.size)
    {
      ghost var a := Act(s, lo, i + 1, -1);
      Interleave(a, {});
      word := ReadWord(mem, s, i);
      found := Plausible(word);
      assert word in sh.size ==> sh.ObjOK(word);
      Scanned(sh, mem, mk, a, Act(s, lo, i, if found then i else -1), {}, if found then -1 else i);
    }

    /** Read word i of s and mark what it points to. */
    method MarkWord(s: Src, i: nat, ghost hi: nat, ghost d: int, ghost done: set<int>)
      requires sh.Valid() && Ok(Act(s, i, hi, d), done) && i < hi
      modifies this`mem, this`mk
      ensures Ok(Act(s, i + 1, hi, d), done)
      ensures Grew(old(mk), mk) && Later(old(mem), mem)
      ensures if mk.stopped then mem == old(mem) else Evolves(sh, incremental, old(mem), mem)
      ensures AsIf(sh, old(mem), old(mk), mk, s, i, i + 1)
    {
      ghost var a := Act(s, i, hi, d);
      Interleave(a, done);
      var current := ReadWord(mem, s, i);
      assert current in sh.size ==> sh.ObjOK(current);
      if Plausible(current) { MarkCurrent(a, done, i, current); } else { RoomPush(sh, mk, current); }
      Scanned(sh, mem, mk, a, Act(s, i + 1, hi, d), done, i);
      if Still(old(mem), old(mk), s) {
        StillLater(old(mem), mem, mk, s, i);
        assert ScanWords(sh, old(mem), old(mk), s, i, i) == old(mk);
      }
    }

    /** Mark what the word current, read at index i, points to. */
    method MarkCurrent(ghost a: Act, ghost done: set<int>, ghost i: int, current: int)
      requires sh.Valid() && Ok(a, done) && ReadWord(mem, a.src, i) == current
      modifies this`mk
      ensures Ok(a, done) && Grew(old(mk), mk)
      ensures mk == PushContents(sh, old(mk), current) && (current in sh.size ==> current in mk.marked)
    {
      if current in mem.words { JustRead(mem, mk, a, just, i); }
      PushValue(a, done, current);
    }

    method PushDeferred(s: Src, d: nat, deferred: int)
      requires sh.Valid() && Ok(Act(s, d, d, d), {}) && Known(sh, mem, mk, s, d, deferred)
      requires deferred in sh.size ==> deferred in just
      modifies this`mk
      ensures Ok(Quiet, {}) && Grew(old(mk), mk)
      ensures mk == PushContents(sh, old(mk), deferred)
    {
      ghost var a := Act(s, d, d, d);
      PushValue(a, {}, deferred);
      Scanned(sh, mem, mk, a, Quiet, {}, d);
    }

    /** PUSH_CONTENTS of a word that may be marked. */
    method PushValue(ghost a: Act, ghost done: set<int>, v: int)
      requires sh.Valid() && Ok(a, done) && (v in sh.size ==> v in just)
      modifies this`mk
      ensures Ok(a, done) && Grew(old(mk), mk)
      ensures mk == PushContents(sh, old(mk), v) && (v in sh.size ==> v in mk.marked)
    {
      JustPush(sh, mem, mk, a, just, v);
      PushContentsKeeps(sh, mem, mk, a, done, v);
      GrewPush(sh, mk, v);
      mk := PushContents(sh, mk, v);
    }

    /** One word of the upward scan, with the word at limit deferred. */
    method PushWord(s: Src, cur: nat, limit: nat, ghost deferred: int)
      requires sh.Valid() && Ok(Act(s, cur, limit, limit), {}) && cur < limit
      requires Known(sh, mem, mk, s, limit, deferred)
      modifies this`mem, this`mk
      ensures Ok(Act(s, cur + 1, limit, limit), {}) && Known(sh, mem, mk, s, limit, deferred)
      ensures Grew(old(mk), mk) && Later(old(mem), mem) && (mk.stopped ==> mem == old(mem))
      ensures AsIf(sh, old(mem), old(mk), mk, s, cur, cur + 1)
    {
      MarkWord(s, cur, limit, limit, {});
      KnownEvolves(sh, incremental, old(mem), mem, old(mk), mk, s, limit, deferred);
    }

    /** Scan words lo..limit of s upwards, with the word at limit deferred. */
    method PushWords(s: Src, lo: nat, limit: nat, ghost deferred: int)
      requires sh.Valid() && Ok(Act(s, lo, limit, limit), {}) && lo <= limit
      requires Known(sh, mem, mk, s, limit, deferred)
      modifies this`mem, this`mk
      ensures Ok(Act(s, limit, limit, limit), {}) && Known(sh, mem, mk, s, limit, deferred)
      ensures Grew(old(mk), mk) && Later(old(mem), mem) && (mk.stopped ==> mem == old(mem))
      ensures AsIf(sh, old(mem), old(mk), mk, s, lo, limit)
    {
      var cur := lo;
      WordsStart(s, lo, limit, deferred);
      while cur < limit
        invariant lo <= cur <= limit && WordsPushed(old(mem), old(mk), s, lo, cur, limit, deferred)
      {
        PushOneWord(old(mem), old(mk), s, lo, cur, limit, deferred);
        cur := cur + 1;
      }
      assert Open(0);
    }

    /** Words lo..cur of s have been scanned since m and k; looked into only where Open
        is mentioned. */
    ghost predicate WordsPushed(m: Mem, k: Marker, s: Src, lo: nat, cur: nat, limit: nat, deferred: int)
      reads this
    {
      forall i {:trigger Open(i)} :: Open(i) ==>
        && Later(m, mem) && (mk.stopped ==> mem == m) && Grew(k, mk)
        && Ok(Act(s, cur, limit, limit), {}) && Known(sh, mem, mk, s, limit, deferred)
        && AsIf(sh, m, k, mk, s, lo, cur)
    }

    lemma WordsStart(s: Src, lo: nat, limit: nat, deferred: int)
      requires sh.Valid() && Ok(Act(s, lo, limit, limit), {}) && lo <= limit
      requires Known(sh, mem, mk, s, limit, deferred)
      ensures WordsPushed(mem, mk, s, lo, lo, limit, deferred)
    {
      ReachInside(mem);
    }

    /** The word at cur. */
    method PushOneWord(ghost m: Mem, ghost k: Marker, s: Src, ghost lo: nat, cur: nat, limit: nat, ghost deferred: int)
      requires sh.Valid() && lo <= cur < limit && WordsPushed(m, k, s, lo, cur, limit, deferred)
      modifies this`mem, this`mk
      ensures WordsPushed(m, k, s, lo, cur + 1, limit, deferred)
    {
      assert Open(0);
      PushWord(s, cur, limit, deferred);
      LaterTrans(m, old(mem), mem);
      GrewTrans(k, old(mk), mk);
      AsIfNext(sh, m, old(mem), k, old(mk), mk, s, lo, cur);
    }

    /** Mark from words lo..hi of s: the last plausible pointer is read first and
        pushed last. */
    method ScanRange(s: Src, lo: nat, hi: nat)
      requires sh.Valid() && Ok(Act(s, lo, hi, -1), {}) && lo < hi
      modifies this`mem, this`mk
      ensures Ok(Quiet, {})
      ensures Grew(old(mk), mk) && Later(old(mem), mem)
      ensures AsIf(sh, old(mem), old(mk), mk, s, lo, hi)
    {
      var limit, found, deferred := FindDeferred(s, lo, hi);
      if !found {
        Scanned(sh, mem, mk, Act(s, lo, lo, -1), Quiet, {}, -1);
        if Still(old(mem), mk, s) { ScanSkip(sh, old(mem), mk, s, lo, lo, hi); }
        return;
      }
      ghost var m1 := mem;
      ghost var k1 := ScanUp(s, lo, limit, deferred);
      LaterTrans(old(mem), m1, mem);
      DeferredAsIf(old(mem), m1, old(mk), k1, mk, s, lo, limit, hi, deferred);
    }

    /** The upward scan of words lo..limit, and then the word at limit, which has been
        read before; k1 is the marker in between. */
    method ScanUp(s: Src, lo: nat, limit: nat, deferred: int) returns (ghost k1: Marker)
      requires sh.Valid() && Ok(Act(s, lo, limit, limit), {}) && lo <= limit && ReadWord(mem, s, limit) == deferred
      modifies this`mem, this`mk
      ensures Ok(Quiet, {}) && Grew(old(mk), mk) && Later(old(mem), mem)
      ensures AsIf(sh, old(mem), old(mk), k1, s, lo, limit) && k1.limit == mk.limit
      ensures MARK_STACK_DISCARDS <= k1.limit && mk == PushContents(sh, k1, deferred)
    {
      if deferred in mem.words { JustRead(mem, mk, Act(s, lo, limit, limit), just, limit); }
      PushWords(s, lo, limit, deferred);
      k1 := mk;
      PushDeferred(s, limit, deferred);
      GrewTrans(old(mk), k1, mk);
    }

    /** Deferring a word makes no difference to what gets marked and pushed. */
    lemma DeferredAsIf(m0: Mem, m1: Mem, k0: Marker, k1: Marker, k2: Marker, s: Src, lo: nat, limit: nat, hi: nat,
                       deferred: int)
      requires Later(m0, m1)
      requires (k0.stopped ==> m1 == m0) && lo <= limit < hi && MARK_STACK_DISCARDS <= k0.limit == k1.limit
      requires AsIf(sh, m1, k0, k1, s, lo, limit) && k2 == PushContents(sh, k1, deferred)
      requires ReadWord(m1, s, limit) == deferred
      requires Still(m0, k0, s) ==> forall j {:trigger ReadWord(m0, s, j)} ::
              limit + 1 <= j < hi ==> ReadWord(m0, s, j) !in sh.size
      ensures AsIf(sh, m0, k0, k2, s, lo, hi)
    {
      if Still(m0, k0, s) {
        StillLater(m0, m1, k0, s, limit);
        if !k0.stopped { ScanSame(sh, m0, m1, k0, s, lo, limit); }
        ScanSkip(sh, m0, k0, s, lo, limit + 1, hi);
      }
    }

    /** Scan the top entry, or the first part of it if it is long. */
    method MarkTop() returns (n: nat)
      requires sh.Valid() && Ok(Quiet, {}) && mk.stack != []
      modifies this`mem, this`mk
      ensures Ok(Quiet, {}) && Later(old(mem), mem)
      ensures Drained(old(mk), mk) && 0 < n
      ensures Still(old(mem), old(mk), old(mk).stack[|old(mk).stack| - 1].src) ==> mk == TopScan(sh, old(mem), old(mk))
    {
      var e := mk.stack[|mk.stack| - 1];
      assert EntryOK(sh, |mem.statics|, e);
      var m := Part(e);
      CutKeeps(sh, mem, mk, m);
      JustCut(mem, mk, just, m);
      mk := mk.(stack := Cut(mk.stack, m));
      ScanRange(e.src, e.lo, m);
      DrainedCut(old(mk), mk, m);
      n := m - e.lo;
    }

    /** MarkTop, and where it leads if the stack is hidden from the mutator. */
    method MarkNext(ghost m0: Mem) returns (n: nat)
      requires sh.Valid() && Ok(Quiet, {}) && mk.stack != []
      modifies this`mem, this`mk
      ensures Ok(Quiet, {}) && Later(old(mem), mem)
      ensures Drained(old(mk), mk) && 0 < n
      ensures Onward(sh, m0, old(mem), old(mk), mem, mk)
    {
      n := MarkTop();
      OnwardTop(sh, m0, old(mem), old(mk), mem, mk);
    }

    /** GC_mark_from: scan from the top of the stack for about a page of words. */
    method MarkFrom(ghost m0: Mem)
      requires sh.Valid() && Ok(Quiet, {}) && mk.stack != []
      modifies this`mem, this`mk
      ensures Ok(Quiet, {}) && Later(old(mem), mem)
      ensures Drained(old(mk), mk) && mk.objectsAreMarked
      ensures Onward(sh, m0, old(mem), old(mk).(objectsAreMarked := true), mem, mk)
    {
      mk := mk.(objectsAreMarked := true);
      ghost var k1 := mk;
      var n := MarkNext(m0);
      MarkPage(m0, HBLK_WORDS - n, old(mem), k1);
    }

    /** Go on until the credit is used up or the stack is empty; m and k are what
        memory and marker were to begin with. */
    method MarkPage(ghost m0: Mem, credit0: int, ghost m: Mem, ghost k: Marker)
      requires sh.Valid() && Ok(Quiet, {}) && mk.objectsAreMarked
      requires Later(m, mem) && Drained(k, mk) && Onward(sh, m0, m, k, mem, mk)
      modifies this`mem, this`mk
      ensures Ok(Quiet, {}) && mk.objectsAreMarked
      ensures Later(m, mem) && Drained(k, mk) && Onward(sh, m0, m, k, mem, mk)
    {
      var credit := credit0;
      while mk.stack != [] && credit >= 0
        invariant Ok(Quiet, {}) && mk.objectsAreMarked
        invariant Later(m, mem) && Drained(k, mk) && Onward(sh, m0, m, k, mem, mk)
        decreases |sh.size.Keys - mk.marked|, Work(mk.stack)
      {
        ghost var m1, k1 := mem, mk;
        var n := MarkNext(m0);
        LaterTrans(m, m1, mem);
        DrainedTrans(k, k1, mk);
        OnwardTrans(sh, m0, m, k, m1, k1, mem, mk);
        if mk.marked != k1.marked { FewerUnmarked(sh.size.Keys, k1.marked, mk.marked); }
        credit := credit - n;
      }
    }

    /** Mark from the words of a marked object directly. */
    method ScanSmall(o: int, ghost done: set<int>)
      requires sh.Valid() && Ok(Quiet, done) && o in mk.marked
      modifies this`mem, this`mk
      ensures Ok(Quiet, done + {o}) && Later(old(mem), mem) && Grew(old(mk), mk)
    {
      var n := sh.size[o];
      SmallStart(o, n, done);
      ScanAll(o, n, done + {o});
      assert Open(0);
      Scanned(sh, mem, mk, Act(Object(o), n, n, -1), Quiet, done + {o}, -1);
    }

    lemma SmallStart(o: int, n: nat, done: set<int>)
      requires sh.Valid() && Ok(Quiet, done) && o in mk.marked && o in sh.size && n == sh.size[o]
      ensures SmallScanned(mem, mk, o, 0, n, done + {o})
    {
      StartScan(sh, mem, mk, done, o);
      ReachInside(mem);
    }

    /** All n words of o. */
    method ScanAll(o: int, n: nat, ghost done: set<int>)
      requires sh.Valid() && SmallScanned(mem, mk, o, 0, n, done)
      modifies this`mem, this`mk
      ensures SmallScanned(old(mem), old(mk), o, n, n, done)
    {
      var i := 0;
      while i < n
        invariant i <= n && SmallScanned(old(mem), old(mk), o, i, n, done)
      {
        ScanOne(o, i, n, done, old(mem), old(mk));
        i := i + 1;
      }
    }

    /** Words up to i of the n of o have been scanned since m and k; looked into only where
        Open is mentioned. */
    ghost predicate SmallScanned(m: Mem, k: Marker, o: int, i: nat, n: nat, done: set<int>)
      reads this
    {
      forall j {:trigger Open(j)} :: Open(j) ==>
        Ok(Act(Object(o), i, n, -1), done) && Later(m, mem) && Grew(k, mk)
    }

    method ScanOne(o: int, i: nat, ghost n: nat, ghost done: set<int>, ghost m: Mem, ghost k: Marker)
      requires sh.Valid() && i < n && SmallScanned(m, k, o, i, n, done)
      modifies this`mem, this`mk
      ensures SmallScanned(m, k, o, i + 1, n, done)
    {
      assert Open(0);
      MarkWord(Object(o), i, n, -1, done);
      LaterTrans(m, old(mem), mem);
      GrewTrans(k, old(mk), mk);
    }

    /** GC_push_marked: push the marked objects of block b, or for blocks of small
        objects mark from their words at once. */
    method PushMarked(b: nat)
      requires sh.Valid() && Ok(Quiet, {}) && b in sh.objs && Aimed(mk)
      requires |mk.stack| + MAX_BLOCK_OBJS <= mk.limit
      modifies this`mem, this`mk
      ensures Ok(Quiet, set o | o in sh.objs[b]) && Later(old(mem), mem)
      ensures Pushed(old(mk), mk)
      ensures !mk.objectsAreMarked ==> mk.marked == old(mk).marked
    {
      assert sh.BlockOK(b);
      ReachInside(mem);
      var os := sh.objs[b];
      if !exists o :: o in os && o in mk.marked && sh.size[o] > 0 {
        NothingToPush(sh, mem, mk, {}, set o | o in os);
        assert {} + (set o | o in os) == set o | o in os;
        return;
      }
      mk := mk.(objectsAreMarked := true);
      assert Ok(Quiet, {});
      PushEach(b);
    }

    /** Push the marked ones among the objects of block b. */
    method PushEach(b: nat)
      requires sh.Valid() && Ok(Quiet, {}) && sh.BlockOK(b) && Aimed(mk)
      requires |mk.stack| + MAX_BLOCK_OBJS <= mk.limit && mk.objectsAreMarked
      modifies this`mem, this`mk
      ensures Ok(Quiet, set o | o in sh.objs[b]) && Later(old(mem), mem)
      ensures Pushed(old(mk), mk) && mk.objectsAreMarked
    {
      ReachInside(mem);
      var os := sh.objs[b];
      ghost var done: set<int> := {};
      var k := 0;
      while k < |os|
        invariant k <= |os| && done == (set o | o in os[..k]) && EachPushed(old(mem), old(mk), b, k, done)
      {
        PushNth(old(mem), old(mk), b, k, os[k], done);
        OneMore(os, k, k + 1);
        done := done + {os[k]};
        k := k + 1;
      }
      assert os[..k] == os;
      assert Open(0);
    }

    /** The marked ones among done, the first n objects of block b, have been pushed since m
        and k; looked into only where Open is mentioned. */
    ghost predicate EachPushed(m: Mem, k: Marker, b: nat, n: nat, done: set<int>)
      reads this
    {
      forall i {:trigger Open(i)} :: Open(i) ==>
        && Ok(Quiet, done) && Later(m, mem) && Pushed(k, mk) && mk.objectsAreMarked
        && (b !in sh.accel ==> |mk.stack| <= |k.stack| + n)
    }

    method PushNth(ghost m: Mem, ghost k: Marker, b: nat, ghost n: nat, o: int, ghost done: set<int>)
      requires sh.Valid() && o in sh.size && n < MAX_BLOCK_OBJS && Aimed(k)
      requires |k.stack| + MAX_BLOCK_OBJS <= k.limit && EachPushed(m, k, b, n, done)
      modifies this`mem, this`mk
      ensures EachPushed(m, k, b, n + 1, done + {o})
    {
      assert Open(0);
      PushOne(b, o, done);
      LaterTrans(m, old(mem), mem);
    }

    method PushOne(b: nat, o: int, ghost done: set<int>)
      requires sh.Valid() && Ok(Quiet, done) && o in sh.size && Aimed(mk)
      requires b !in sh.accel ==> |mk.stack| < mk.limit
      modifies this`mem, this`mk
      ensures Ok(Quiet, done + {o}) && Later(old(mem), mem)
      ensures Pushed(old(mk), mk)
      ensures b !in sh.accel ==> |mk.stack| <= old(|mk.stack|) + 1
    {
      Interleave(Quiet, done);
      ghost var m0 := mem;
      if o !in mk.marked {
        NothingToPush(sh, mem, mk, done, {o});
      } else if b in sh.accel {
        ScanSmall(o, done);
        LaterTrans(old(mem), m0, mem);
      } else {
        PushWhole(o, done);
      }
    }

    /** PUSH_OBJ of a marked object for which there is room. */
    method PushWhole(o: int, ghost done: set<int>)
      requires sh.Valid() && Ok(Quiet, done) && o in sh.size && o in mk.marked && |mk.stack| < mk.limit
      modifies this`mk
      ensures Ok(Quiet, done + {o}) && Pushed(old(mk), mk) && |mk.stack| <= |old(mk).stack| + 1
    {
      PushObjDone(sh, mem, mk, done, o);
      JustPushObj(sh, mem, mk, Quiet, just, o);
      mk := PushObj(sh, mk, o);
    }

    /** GC_push_next_marked, GC_push_next_marked_dirty and
        GC_push_next_marked_uncollectable: push from the next block that
        qualifies.  scanPtr becomes 0 when there is none. */
    method PushNext()
      requires sh.Valid() && Ok(Quiet, {}) && mk.state != None && mk.state != RootsPushed && Aimed(mk)
      requires |mk.stack| + MAX_BLOCK_OBJS <= mk.limit && mk.scanPtr <= sh.lastBlock + 1
      modifies this`mem, this`mk
      ensures Later(old(mem), mem) && Frame(old(mk), mk.(scanPtr := old(mk).scanPtr))
      ensures Ok(Quiet, {}) && mk.scanPtr <= sh.lastBlock + 1
      ensures mk.marked == old(mk).marked ==> mk.state == old(mk).state
      ensures !mk.objectsAreMarked ==> mk.marked == old(mk).marked
      ensures mk.scanPtr > old(mk).scanPtr || mk == old(mk).(scanPtr := 0)
      ensures mk.scanPtr == 0 && mk.state != Invalid ==> Ok(Quiet, sh.blk.Keys)
    {
      var h := NextWanted();
      ReachInside(mem);
      if h > sh.lastBlock { EndBlocks(); } else { PushBlock(h); }
    }

    /** The next block from scanPtr on that qualifies, or one past the last block. */
    method NextWanted() returns (h: nat)
      requires mk.scanPtr <= sh.lastBlock + 1
      ensures mk.scanPtr <= h <= sh.lastBlock + 1 && (h <= sh.lastBlock ==> Wanted(sh, mk, h))
      ensures forall b :: mk.scanPtr <= b < h ==> !Wanted(sh, mk, b)
    {
      h := mk.scanPtr;
      while h <= sh.lastBlock && !Wanted(sh, mk, h)
        invariant mk.scanPtr <= h <= sh.lastBlock + 1
        invariant forall b :: mk.scanPtr <= b < h ==> !Wanted(sh, mk, b)
      {
        h := h + 1;
      }
    }

    /** No block is left to push from. */
    method EndBlocks()
      requires sh.Valid() && Ok(Quiet, {})
      requires forall b :: mk.scanPtr <= b <= sh.lastBlock ==> !Wanted(sh, mk, b)
      modifies this`mk
      ensures mk == old(mk).(scanPtr := 0) && Ok(Quiet, {}) && (mk.state != Invalid ==> Ok(Quiet, sh.blk.Keys))
    {
      if mk.state == Invalid {
        InvalidColour(sh, mem, mk.(scanPtr := 0), Quiet, {});
      } else {
        ScanEnd(sh, mem, mk);
        Restart(sh, mem, mk.(scanPtr := 0));
      }
      mk := mk.(scanPtr := 0);
    }

    method PushBlock(h: nat)
      requires sh.Valid() && Ok(Quiet, {}) && Aimed(mk) && h in sh.objs && mk.scanPtr <= h
      requires |mk.stack| + MAX_BLOCK_OBJS <= mk.limit && forall b :: mk.scanPtr <= b < h ==> !Wanted(sh, mk, b)
      modifies this`mem, this`mk
      ensures Later(old(mem), mem) && Ok(Quiet, {}) && mk.scanPtr == h + 1
      ensures Pushed(old(mk), mk.(scanPtr := old(mk).scanPtr))
      ensures !mk.objectsAreMarked ==> mk.marked == old(mk).marked
    {
      ghost var k0 := mk;
      PushMarked(h);
      ScanAdvance(sh, mem, k0, mk, h);
      mk := mk.(scanPtr := h + 1);
    }

    // -------------------------------------------------------------- roots

    /** What holds while static data is pushed, looked into only where Open is
        mentioned. */
    ghost predicate Pushable()
      reads this
    {
      && mk.state != RootsPushed && |mk.stack| <= mk.limit
      && forall i {:trigger Open(i)} :: Open(i) ==> sh.Valid() && Ok(Quiet, sh.blk.Keys)
    }

    /** GC_push_all: one entry for words lo..hi of the static data; aborts if there is
        no room for it. */
    method PushAll(lo: nat, hi: nat) returns (out: Outcome)
      requires Pushable() && lo < hi <= |mem.statics|
      modifies this`mk
      ensures out.Done? <==> |old(mk).stack| < mk.limit
      ensures out.Done? ==> Pushable()
      ensures mk == if out.Done? then old(mk).(stack := old(mk).stack + [Entry(Static, lo, hi)]) else old(mk)
    {
      if |mk.stack| >= mk.limit { return Aborted; }
      assert Open(0);
      var e := Entry(Static, lo, hi);
      PushRange(sh, mem, mk, e);
      forall f | f in mk.stack + [e] ensures InJ(f.src, Scans(mk, just)) {
        if f in mk.stack {}
      }
      mk := mk.(stack := mk.stack + [e]);
      return Done;
    }

    /** GC_push_selected with all pages of r selected: an entry for each page, and one
        for all that is left once the stack is three quarters full. */
    method PushPages(r: Stretch) returns (out: Outcome)
      requires Pushable() && r.lo < r.hi <= |mem.statics|
      modifies this`mk
      ensures mk == old(mk).(stack := mk.stack)
      ensures out.Done? <==> AfterRange(mk.limit, |old(mk).stack|, r) <= mk.limit
      ensures out.Done? ==> Pushable() && old(mk).stack <= mk.stack && Covers(mk.stack, r.lo, r.hi)
      ensures out.Done? ==> |mk.stack| == AfterRange(mk.limit, |old(mk).stack|, r)
    {
      var h := FirstEnd(r);
      if r.hi <= h {
        out := PushAll(r.lo, r.hi);
        if out.Aborted? { return; }
        CoversLast(mk.stack, r.lo, r.hi);
      } else {
        out := PushFromPage(r.lo, h, r.hi);
        if out.Aborted? { return; }
      }
      return Done;
    }

    /** Words lo..h, to the end of their page, and then the pages up to hi. */
    method PushFromPage(lo: nat, h: nat, hi: nat) returns (out: Outcome)
      requires Pushable() && lo < h < hi <= |mem.statics|
      modifies this`mk
      ensures mk == old(mk).(stack := mk.stack)
      ensures out.Done? <==> AfterPages(mk.limit, |old(mk).stack| + 1, h, hi) <= mk.limit
      ensures out.Done? ==> Pushable() && old(mk).stack <= mk.stack && Covers(mk.stack, lo, hi)
      ensures out.Done? ==> |mk.stack| == AfterPages(mk.limit, |old(mk).stack| + 1, h, hi)
    {
      PagesGrow(mk.limit, |mk.stack| + 1, h, hi);
      :- PushAll(lo, h);
      CoversLast(mk.stack, lo, h);
      :- PushMorePages(lo, h, hi);
      return Done;
    }

    /** The pages from h on. */
    method PushMorePages(ghost lo: nat, h0: nat, hi: nat) returns (out: Outcome)
      requires Pushable() && h0 < hi <= |mem.statics|
      requires Covers(mk.stack, lo, h0)
      modifies this`mk
      ensures mk == old(mk).(stack := mk.stack)
      ensures out.Done? <==> AfterPages(mk.limit, |old(mk).stack|, h0, hi) <= mk.limit
      ensures out.Done? ==> Pushable() && old(mk).stack <= mk.stack && Covers(mk.stack, lo, hi)
      ensures out.Done? ==> |mk.stack| == AfterPages(mk.limit, |old(mk).stack|, h0, hi)
    {
      var h := h0;
      while h < hi
        invariant h0 <= h <= hi && Pushable() && Covers(mk.stack, lo, h)
        invariant mk == old(mk).(stack := mk.stack) && old(mk).stack <= mk.stack
        invariant AfterPages(mk.limit, |mk.stack|, h, hi) == AfterPages(mk.limit, |old(mk).stack|, h0, hi)
      {
        PagesGrow(mk.limit, |mk.stack|, h, hi);
        var to := PageEnd(mk.limit, |mk.stack|, h, hi);
        :- PushOn(lo, h, to);
        h := to;
      }
      return Done;
    }

    /** Push words h..hi, after those from lo on have been pushed. */
    method PushOn(ghost lo: nat, h: nat, hi: nat) returns (out: Outcome)
      requires Pushable() && Covers(mk.stack, lo, h)
      requires h < hi <= |mem.statics|
      modifies this`mk
      ensures out.Done? <==> |old(mk).stack| < mk.limit
      ensures out.Done? ==> Pushable() && Covers(mk.stack, lo, hi)
      ensures mk == if out.Done? then old(mk).(stack := old(mk).stack + [Entry(Static, h, hi)]) else old(mk)
    {
      out := PushAll(h, hi);
      if out.Aborted? { return; }
      CoversMore(old(mk).stack, lo, h, hi);
      return Done;
    }

    /** GC_push_conditional on every range of the static data: page by page in a
        partial collection.  It aborts exactly if the stack has no room for the
        entries needed. */
    method PushStatics(all: bool) returns (out: Outcome)
      requires Pushable() && RangesOK(ranges, |mem.statics|)
      modifies this`mk
      ensures mk == old(mk).(stack := mk.stack)
      ensures out.Done? <==> Needs(all, mk.limit, |old(mk).stack|, ranges) <= mk.limit
      ensures out.Done? ==> Pushable() && old(mk).stack <= mk.stack && Covers(mk.stack, 0, |mem.statics|)
      ensures out.Done? ==> |mk.stack| == Needs(all, mk.limit, |old(mk).stack|, ranges)
    {
      var k := 0;
      assert ranges[0..] == ranges;
      while k < |ranges|
        invariant k <= |ranges| && Pushable()
        invariant mk == old(mk).(stack := mk.stack) && old(mk).stack <= mk.stack
        invariant Needs(all, mk.limit, |mk.stack|, ranges[k..]) == Needs(all, mk.limit, |old(mk).stack|, ranges)
        invariant forall j :: 0 <= j < k ==> Covers(mk.stack, ranges[j].lo, ranges[j].hi)
      {
        out := PushRangeOf(all, k);
        if out.Aborted? { return; }
        k := k + 1;
      }
      RangesCover(ranges, |mem.statics|, mk.stack);
      return Done;
    }

    /** The k-th range, after those before it. */
    method PushRangeOf(all: bool, k: nat) returns (out: Outcome)
      requires Pushable() && RangesOK(ranges, |mem.statics|)
      requires k < |ranges| && forall j :: 0 <= j < k ==> Covers(mk.stack, ranges[j].lo, ranges[j].hi)
      modifies this`mk
      ensures mk == old(mk).(stack := mk.stack)
      ensures out.Aborted? ==> Needs(all, mk.limit, |old(mk).stack|, ranges[k..]) > mk.limit
      ensures out.Done? ==> Pushable() && old(mk).stack <= mk.stack && |mk.stack| <= mk.limit
      ensures out.Done? ==> Needs(all, mk.limit, |mk.stack|, ranges[k + 1..])
                            == Needs(all, mk.limit, |old(mk).stack|, ranges[k..])
      ensures out.Done? ==> forall j :: 0 <= j < k + 1 ==> Covers(mk.stack, ranges[j].lo, ranges[j].hi)
    {
      var r := ranges[k];
      assert ranges[k..][0] == r && ranges[k..][1..] == ranges[k + 1..];
      RangesGrow(mk.limit, AfterRange(mk.limit, |mk.stack|, r), ranges[k + 1..]);
      if all { out := PushAll(r.lo, r.hi); } else { out := PushPages(r); }
      if out.Aborted? { return; }
      if all { CoversLast(mk.stack, r.lo, r.hi); }
      forall j | 0 <= j < k ensures Covers(mk.stack, ranges[j].lo, ranges[j].hi) {
        CoversStays(old(mk).stack, mk.stack, ranges[j].lo, ranges[j].hi);
      }
      return Done;
    }

    method PushReg(j: nat)
      requires sh.Valid() && Ok(Quiet, sh.blk.Keys)
      modifies this`mem, this`mk
      ensures Ok(Quiet, sh.blk.Keys) && Later(old(mem), mem) && (mk.stopped ==> mem == old(mem))
      ensures Grew(old(mk), mk)
      ensures mk.stopped && j < |mem.regs + mem.now| && (mem.regs + mem.now)[j] in mem.words
              ==> (mem.regs + mem.now)[j] in mk.marked
      ensures mk.state != Invalid ==> old(mk.stack) <= mk.stack
    {
      Interleave(Quiet, sh.blk.Keys);
      var loose := mem.regs + mem.now;
      if j < |loose| {
        assert loose[j] in loose && loose[j] in mem.Src();
        PushLoose(loose[j]);
      }
    }

    /** GC_push_one on a root v. */
    method PushLoose(v: int)
      requires sh.Valid() && Ok(Quiet, sh.blk.Keys) && v in mem.Src()
      modifies this`mk
      ensures Ok(Quiet, sh.blk.Keys) && Grew(old(mk), mk) && (v in mem.words ==> v in mk.marked)
      ensures mk.state != Invalid ==> old(mk).stack <= mk.stack
    {
      assert v in sh.size ==> sh.ObjOK(v);
      if Plausible(v) { PushValue(Quiet, sh.blk.Keys, v); }
    }

    /** GC_push_roots: the static data in ranges, the stacks and registers word by
        word, and what waits to be finalized. */
    method PushRoots(all: bool) returns (out: Outcome)
      requires sh.Valid() && Ok(Quiet, sh.blk.Keys) && mk.state != Invalid && RangesOK(ranges, |mem.statics|)
      requires mk.state != RootsPushed
      modifies this`mem, this`mk
      ensures mk.limit == old(mk).limit
      ensures out.Done? <==> Needs(all, mk.limit, |old(mk).stack|, ranges) <= mk.limit
      ensures out.Done? ==> Ok(Quiet, sh.blk.Keys) && Later(old(mem), mem)
      ensures out.Done? ==> Pushed(old(mk), mk)
      ensures out.Done? && mk.stopped && mk.state != Invalid ==> RootsDone(mem, mk.marked, mk.stack, Quiet)
    {
      ReachInside(mem);
      :- PushStatics(all);
      assert Open(0);
      ghost var base := mk.stack;
      PushRegs(base);
      if mk.stopped && mk.state != Invalid {
        CoversStays(base, mk.stack, 0, |mem.statics|);
        forall v | v in mem.regs + mem.now && v in mem.words ensures v in mk.marked {
          var j :| 0 <= j < |mem.regs + mem.now| && (mem.regs + mem.now)[j] == v;
        }
      }
      return Done;
    }

    /** What the first n roots besides the static data point to is marked. */
    ghost predicate LooseMarked(n: nat)
      reads this`mem, this`mk
    {
      var loose := mem.regs + mem.now;
      n <= |loose| && forall k {:trigger loose[k]} :: 0 <= k < n && loose[k] in mem.words ==> loose[k] in mk.marked
    }

    method PushRegs(ghost base: seq<Entry>)
      requires sh.Valid() && Ok(Quiet, sh.blk.Keys) && mk.stack == base
      modifies this`mem, this`mk
      ensures Ok(Quiet, sh.blk.Keys) && Later(old(mem), mem)
      ensures Pushed(old(mk), mk) && (mk.state != Invalid ==> base <= mk.stack)
      ensures mk.stopped ==> LooseMarked(|mem.regs + mem.now|)
    {
      ReachInside(mem);
      var n, j := |mem.regs + mem.now|, 0;
      while j < n
        invariant j <= n && (mk.stopped ==> mem == old(mem))
        invariant Ok(Quiet, sh.blk.Keys) && Later(old(mem), mem)
        invariant Pushed(old(mk), mk) && (mk.state != Invalid ==> base <= mk.stack)
        invariant mk.stopped ==> LooseMarked(j)
      {
        ghost var m0, k0 := mem, mk;
        PushReg(j);
        LaterTrans(old(mem), m0, mem);
        PushedTrans(old(mk), k0, mk);
        j := j + 1;
      }
    }

    // -------------------------------------------------------------- GC_mark_some

    /** What holds between two calls of GC_mark_some. */
    ghost predicate Markable()
      reads this
    {
      MarkOK(incremental, sh, mem, mk) && Just(mem, mk, Quiet, just) && RangesOK(ranges, |mem.statics|)
    }

    /** The same, looked into only where Open is mentioned. */
    ghost predicate MarkInv()
      reads this
    {
      && INITIAL_MARK_STACK_SIZE <= mk.limit && (mk.state == None ==> mk.stack == []) && mk.marked <= just
      && forall i {:trigger Open(i)} :: Open(i) ==> Markable()
    }

    lemma MarkOpened()
      requires MarkInv()
      ensures Markable()
    {
      assert Open(0);
    }

    /** Push the roots at the end of a scan; the marker is then valid unless the
        stack overflowed.  The program is aborted exactly if the static data does not
        fit. */
    method EndScan() returns (out: Outcome)
      requires MarkInv() && Ok(Quiet, sh.blk.Keys)
      requires |mk.stack| <= Threshold(mk.state != PushRescuers, mk.limit)
      requires mk.state != Invalid && mk.state != RootsPushed && mk.state != None
      modifies this`mem, this`mk
      ensures out.Aborted? ==> !Fits(incremental, ranges)
      ensures out.Done? <==>
              Needs(old(mk).state != PushRescuers, old(mk).limit, |old(mk).stack|, ranges) <= old(mk).limit
      ensures out.Done? ==> MarkInv() && Later(old(mem), mem)
      ensures out.Done? ==> mk.state == RootsPushed || mk.state == Invalid
      ensures out.Done? ==> old(mk).marked <= mk.marked && Same(old(mk), mk)
      ensures out.Done? && mk.marked == old(mk).marked ==> mk.state == RootsPushed
    {
      MarkOpened();
      assert mk.state == PushRescuers ==> incremental;
      if Fits(incremental, ranges) { FitRoom(mk.state != PushRescuers, ranges, mk.limit, |mk.stack|); }
      :- PushRoots(mk.state != PushRescuers);
      AfterRoots(old(mem), old(mk));
      out := Done;
    }

    /** The roots have been pushed since m and k. */
    method AfterRoots(ghost m: Mem, ghost k: Marker)
      requires MarkOK(incremental, sh, m, k) && RangesOK(ranges, |m.statics|) && Later(m, mem)
      requires k.state != Invalid && k.state != RootsPushed && k.state != None && INITIAL_MARK_STACK_SIZE <= k.limit
      requires Pushed(k, mk) && Ok(Quiet, sh.blk.Keys)
      requires mk.stopped && mk.state != Invalid ==> RootsDone(mem, mk.marked, mk.stack, Quiet)
      modifies this`mk
      ensures MarkInv()
      ensures mk == old(mk).(objectsAreMarked := true, state := mk.state)
      ensures mk.state == if old(mk).state == Invalid then Invalid else RootsPushed
    {
      mk := mk.(objectsAreMarked := true);
      if mk.state != Invalid {
        RootsArePushed(sh, mem, mk);
        mk := mk.(state := RootsPushed);
      } else {
        InvalidColour(sh, mem, mk, Quiet, {});
      }
    }

    /** alloc_mark_stack: double the stack if memory can be had. */
    method GrowStack()
      requires Ok(Quiet, {}) && mk.stack == []
      modifies this`mk
      ensures Ok(Quiet, {})
      ensures mk == old(mk).(limit := mk.limit, tooSmall := false) && mk.limit >= old(mk).limit
    {
      var memory: bool := *;
      mk := mk.(tooSmall := false, limit := if memory then 2 * mk.limit else mk.limit);
      assert ExSet(sh, mk, {}) == ExSet(sh, old(mk), {});
    }

    /** One step of marking from the stack. */
    method MarkStep()
      requires MarkInv() && mk.stack != [] && mk.state != None
      modifies this`mem, this`mk
      ensures MarkInv() && Later(old(mem), mem)
      ensures old(mk).marked <= mk.marked && Same(old(mk), mk)
      ensures mk.state != None && Progress(sh, old(mk), mk)
    {
      MarkOpened();
      MarkFrom(mem);
      MarkOKAfter(incremental, sh, old(mem), old(mk), mem, mk);
      ProgressMarks(sh, old(mk), mk);
    }

    /** One step of a scan for blocks to push from, and the roots after the last. */
    method ScanStep() returns (out: Outcome)
      requires MarkInv() && |mk.stack| + MAX_BLOCK_OBJS <= mk.limit
      requires |mk.stack| <= Threshold(mk.state != PushRescuers, mk.limit)
      requires mk.state != None && mk.state != RootsPushed && (mk.state == Invalid ==> mk.objectsAreMarked)
      modifies this`mem, this`mk
      ensures out.Aborted? ==> !Fits(incremental, ranges)
      ensures out.Done? ==> MarkInv() && Later(old(mem), mem)
      ensures out.Done? ==> old(mk).marked <= mk.marked && Same(old(mk), mk)
      ensures out.Done? ==> mk.state != None
      ensures out.Done? ==> (old(mk).state == Invalid && old(mk).scanPtr == 0) || Progress(sh, old(mk), mk)
    {
      ScanNext();
      ghost var m1, pushed := mem, mk;
      if mk.scanPtr == 0 && mk.state != Invalid {
        out := EndScan();
        if out.Aborted? { return; }
        LaterTrans(old(mem), m1, mem);
      }
      if old(mk).state != Invalid || old(mk).scanPtr != 0 {
        MarkOpened();
        ScanProgress(sh, old(mk), pushed, mk);
      }
      out := Done;
    }

    /** Push from the next block that qualifies. */
    method ScanNext()
      requires MarkInv() && |mk.stack| + MAX_BLOCK_OBJS <= mk.limit
      requires mk.state != None && mk.state != RootsPushed && (mk.state == Invalid ==> mk.objectsAreMarked)
      modifies this`mem, this`mk
      ensures MarkInv() && Later(old(mem), mem) && Frame(old(mk), mk.(scanPtr := old(mk).scanPtr))
      ensures mk.scanPtr <= sh.lastBlock + 1 && (mk.marked == old(mk).marked ==> mk.state == old(mk).state)
      ensures mk.scanPtr > old(mk).scanPtr || mk == old(mk).(scanPtr := 0)
      ensures mk.scanPtr == 0 && mk.state != Invalid ==> Ok(Quiet, sh.blk.Keys)
    {
      MarkOpened();
      PushNext();
      MarkOKAfter(incremental, sh, old(mem), old(mk), mem, mk);
    }

    /** GC_mark_some: a bounded amount of marking.  True if a mark phase is over;
        with the world stopped throughout, everything reachable is then marked, and
        no pointer leads out of the marked objects. */
    method MarkSome() returns (out: Outcome, finished: bool)
      requires MarkInv()
      modifies this`mem, this`mk
      ensures out.Aborted? ==> !Fits(incremental, ranges)
      ensures out.Done? ==> MarkInv() && Later(old(mem), mem)
      ensures out.Done? ==> old(mk).marked <= mk.marked && Same(old(mk), mk)
      ensures out.Done? && finished ==> mk.state == None && mk.objectsAreMarked
      ensures out.Done? && finished && mk.stopped ==> mem.R() <= mk.marked
      ensures out.Done? && finished && (mk.stopped || mk.aim.Final?) ==> Leads(mem.words, mk.marked, mk.marked)
      ensures out.Done? && !finished && old(mk).state != None ==> mk.state != None && Progress(sh, old(mk), mk)
      ensures out.Done? && !finished && old(mk).state == None ==> mk == old(mk) && mem == old(mem)
    {
      finished := false;
      ReachInside(mem);
      match mk.state {
        case None =>
        case PushRescuers => :- RescueStep();
        case PushUncollectable =>
          if |mk.stack| - 1 >= mk.limit / 4 {
            MarkStep();
          } else {
            out := ScanStep();
            if out.Aborted? { return; }
          }
        case RootsPushed =>
          if mk.stack != [] { MarkStep(); } else { EndMark(); finished := true; }
        case _ =>
          :- InvalidStep();
      }
      out := Done;
    }

    /** A step in MS_PUSH_RESCUERS. */
    method RescueStep() returns (out: Outcome)
      requires MarkInv() && mk.state == PushRescuers
      modifies this`mem, this`mk
      ensures out.Aborted? ==> !Fits(incremental, ranges)
      ensures out.Done? ==> MarkInv() && Later(old(mem), mem)
      ensures out.Done? ==> old(mk).marked <= mk.marked && Same(old(mk), mk)
      ensures out.Done? ==> mk.state != None && Progress(sh, old(mk), mk)
    {
      if |mk.stack| - 1 >= mk.limit - INITIAL_MARK_STACK_SIZE / 2 {
        TooSmall();
        MarkStep();
      } else {
        out := ScanStep();
        if out.Aborted? { return; }
      }
      out := Done;
    }

    method TooSmall()
      requires MarkInv()
      modifies this`mk
      ensures MarkInv() && mk == old(mk).(tooSmall := true)
    {
      MarkOpened();
      mk := mk.(tooSmall := true);
      assert ExSet(sh, mk, {}) == ExSet(sh, old(mk), {});
    }

    /** A step in MS_INVALID or MS_PARTIALLY_INVALID. */
    method InvalidStep() returns (out: Outcome)
      requires MarkInv() && (mk.state == Invalid || mk.state == PartiallyInvalid)
      modifies this`mem, this`mk
      ensures out.Aborted? ==> !Fits(incremental, ranges)
      ensures out.Done? ==> MarkInv() && Later(old(mem), mem)
      ensures out.Done? ==> old(mk).marked <= mk.marked && Same(old(mk), mk)
      ensures out.Done? ==> mk.state != None && Progress(sh, old(mk), mk)
    {
      ReachInside(mem);
      if !mk.objectsAreMarked {
        BeginUncollectable();
      } else if mk.stack != [] {
        MarkStep();
      } else if mk.scanPtr == 0 && mk.state == Invalid {
        out := Validate();
        if out.Aborted? { return; }
      } else {
        out := ScanStep();
        if out.Aborted? { return; }
      }
      out := Done;
    }

    /** Only uncollectable objects are marked: push those first. */
    method BeginUncollectable()
      requires MarkInv() && (mk.state == Invalid || mk.state == PartiallyInvalid) && !mk.objectsAreMarked
      modifies this`mk
      ensures MarkInv() && mk == old(mk).(state := PushUncollectable) && Progress(sh, old(mk), mk)
    {
      MarkOpened();
      mk := mk.(state := PushUncollectable);
      StartUncollectable(sh, mem, mk);
    }

    method EndMark()
      requires MarkInv() && mk.state == RootsPushed && mk.stack == []
      modifies this`mk
      ensures MarkInv() && mk.marked == old(mk).marked && Same(old(mk), mk)
      ensures mk.state == None && (mk.stopped ==> mem.R() <= mk.marked)
      ensures mk.stopped || mk.aim.Final? ==> Leads(mem.words, mk.marked, mk.marked)
      ensures mk.objectsAreMarked
    {
      MarkOpened();
      if mk.stopped { AllMarked(sh, mem, mk); }
      if mk.stopped || mk.aim.Final? {
        AllClosed(sh, mem, mk);
        assert From(mk) == mk.marked;
      }
      mk := mk.(state := None);
      SameExempt(sh, mem, old(mk), mk);
      if mk.tooSmall { GrowStack(); }
    }

    /** The stack is empty in an invalid state: start a scan that will make the
        marker valid again. */
    method Validate() returns (out: Outcome)
      requires MarkInv() && mk.stack == [] && mk.objectsAreMarked && mk.scanPtr == 0 && mk.state == Invalid
      modifies this`mem, this`mk
      ensures out.Aborted? ==> !Fits(incremental, ranges)
      ensures out.Done? ==> MarkInv() && Later(old(mem), mem)
      ensures out.Done? ==> old(mk).marked <= mk.marked && Same(old(mk), mk)
      ensures out.Done? ==> mk.state != None && Progress(sh, old(mk), mk)
    {
      BeginValidating();
      ghost var k0 := mk;
      :- ScanStep();
      ProgressTrans(sh, old(mk), k0, mk);
      out := Done;
    }

    method BeginValidating()
      requires MarkInv() && mk.stack == [] && mk.objectsAreMarked && mk.scanPtr == 0 && mk.state == Invalid
      modifies this`mk
      ensures MarkInv() && mk.stack == [] && mk.objectsAreMarked && mk.state == PartiallyInvalid && mk.scanPtr == 0
      ensures mk.marked == old(mk).marked && Same(old(mk), mk) && Progress(sh, old(mk), mk)
    {
      MarkOpened();
      if mk.tooSmall { GrowStack(); }
      mk := mk.(state := PartiallyInvalid);
      StartValidating(sh, mem, mk);
    }

    // -------------------------------------------------------------- whole collections

    /** The registered objects. */
    ghost function Fos(): set<int>
      reads this`table
    {
      Members(table)
    }

    /** Every registered object is once in the chain its address leads to, and the
        entries are counted. */
    ghost predicate Filed()
      reads this`table, this`entries
    {
      entries == Total(table) && Hashed(hash, table)
    }

    /** What holds whenever the collector is not at work: a collection may be in
        progress, with the mutator running. */
    ghost predicate Rest()
      reads this
    {
      && AtRest(incremental, sh, mem, mk, lists, keep, Fos())
      && RangesOK(ranges, |mem.statics|) && Filed()
    }

    /** The same, looked into only where Open is mentioned. */
    ghost predicate Inv()
      reads this
    {
      && WordsOK(sh, mem.words) && lists.reclaim <= sh.objs.Keys && lists.free <= sh.size.Keys
      && forall i {:trigger Open(i)} :: Open(i) ==> Rest()
    }

    lemma Opened()
      requires Inv()
      ensures Rest()
    {
      assert Open(0);
    }

    /** GC_initiate_gc, with the world just stopped. */
    method InitiateGc()
      requires Struct(sh, mem, mk) && !mk.stopped && mk.stack == [] && mk.aim.Collect?
      requires RangesOK(ranges, |mem.statics|)
      requires mk.state == Invalid || (mk.state == None && incremental && Colour(sh, mem, mk, Quiet, {}))
      requires !incremental ==> mem.dirty == {}
      modifies this`mem, this`mk, this`just
      ensures MarkInv() && mk.stopped && mk.state != None && mk.aim.Collect?
      ensures mem == old(mem).(dirty := {}) && mk.marked == old(mk).marked && just == Live(old(mem), old(mk).marked)
    {
      if mk.state == None {
        InitiatePartial(sh, mem, mk);
        mk := mk.(state := PushRescuers, grungy := mem.dirty, scanPtr := 0, stopped := true);
      } else {
        mk := mk.(grungy := if incremental then mem.dirty else mk.grungy, scanPtr := 0, stopped := true);
        InvalidColour(sh, mem.(dirty := {}), mk, Quiet, {});
      }
      if incremental { mem := mem.(dirty := {}); }
      just := Live(mem, mk.marked);
      JustStart(mem, mk);
    }

    /** GC_stopped_mark: mark with the world stopped until done or, unless never,
        until told to give up.  When done, everything the mutator can reach is
        marked, no pointer leads out of the marked objects, and nothing is marked
        that cannot be reached from the roots or from what was marked before. */
    method StoppedMark(never: bool) returns (out: Outcome, ok: bool)
      requires Struct(sh, mem, mk) && !mk.stopped && mk.stack == [] && mk.aim.Collect?
      requires RangesOK(ranges, |mem.statics|)
      requires mk.state == Invalid || (mk.state == None && incremental && Colour(sh, mem, mk, Quiet, {}))
      requires !incremental ==> mem.dirty == {}
      modifies this`mem, this`mk, this`just, this`deficit, this`gcNo
      ensures out.Aborted? ==> !Fits(incremental, ranges)
      ensures out.Done? ==> Struct(sh, mem, mk) && !mk.stopped && mk.aim.Collect? && Just(mem, mk, Quiet, just)
      ensures out.Done? ==> if incremental then Markable() else mem.dirty == {}
      ensures out.Done? ==> Later(old(mem), mem) && old(mk).marked <= mk.marked
      ensures out.Done? && ok ==> mk.state == None && mem.R() <= mk.marked && gcNo == old(gcNo) + 1
      ensures out.Done? && ok ==> Leads(mem.words, mk.marked, mk.marked) && mk.objectsAreMarked
      ensures out.Done? && !ok ==> mk.state != None && !never && gcNo == old(gcNo)
      ensures out.Done? ==> mk.marked <= just == Live(old(mem), old(mk).marked)
    {
      InitiateGc();
      ok :- MarkAll(never);
      if ok { gcNo := gcNo + 1; }
      Resume();
      out := Done;
    }

    /** Call GC_mark_some until it is done or the stop function says to give up. */
    method MarkAll(never: bool) returns (out: Outcome, ok: bool)
      requires MarkInv() && mk.stopped && mk.state != None
      modifies this`mem, this`mk, this`deficit
      ensures out.Aborted? ==> !Fits(incremental, ranges)
      ensures out.Done? ==> MarkInv() && Same(old(mk), mk)
      ensures out.Done? ==> Later(old(mem), mem) && old(mk).marked <= mk.marked <= just
      ensures out.Done? && ok ==> mk.state == None && mem.R() <= mk.marked && Leads(mem.words, mk.marked, mk.marked)
      ensures out.Done? && ok ==> mk.objectsAreMarked
      ensures out.Done? && !ok ==> mk.state != None && !never
    {
      var i, finished := 0, false;
      ok := false;
      ReachInside(mem);
      while !finished
        invariant MarkInv() && Same(old(mk), mk)
        invariant Later(old(mem), mem) && old(mk).marked <= mk.marked
        invariant if finished then mk.state == None && mem.R() <= mk.marked && Leads(mem.words, mk.marked, mk.marked)
                                   && mk.objectsAreMarked
                  else mk.state != None
        decreases !finished, Unmarked(sh, mk), Rank(mk), Left(sh, mk), Work(mk.stack)
      {
        var stop: bool := *;
        if stop && !never {
          deficit := i;
          return Done, false;
        }
        finished :- MarkMore(old(mem), old(mk));
        i := i + 1;
      }
      return Done, true;
    }

    /** Another call of GC_mark_some, since m and k. */
    method MarkMore(ghost m: Mem, ghost k: Marker) returns (out: Outcome, finished: bool)
      requires MarkInv() && mk.state != None && (mk.stopped || mk.aim.Final?)
      requires Later(m, mem) && Same(k, mk) && k.marked <= mk.marked
      modifies this`mem, this`mk
      ensures out.Aborted? ==> !Fits(incremental, ranges)
      ensures out.Done? ==> MarkInv() && Later(m, mem) && Same(k, mk) && k.marked <= mk.marked && Same(old(mk), mk)
      ensures out.Done? ==> 
              if finished then mk.state == None && mk.objectsAreMarked && Leads(mem.words, mk.marked, mk.marked)
              else mk.state != None && Progress(sh, old(mk), mk)
      ensures out.Done? && finished && mk.stopped ==> mem.R() <= mk.marked
    {
      finished :- MarkSome();
      LaterTrans(m, old(mem), mem);
      out := Done;
    }

    /** START_WORLD. */
    method Resume()
      requires MarkInv() && mk.stopped
      modifies this`mk
      ensures mk == old(mk).(stopped := false) && Just(mem, mk, Quiet, just)
      ensures Struct(sh, mem, mk) && (if incremental then Markable() else mem.dirty == {})
    {
      MarkOpened();
      mk := mk.(stopped := false);
      assert ExSet(sh, mk, {}) == ExSet(sh, old(mk), {});
    }

    /** An empty heap, with no collection in progress. */
    constructor (incremental: bool, unlimited: bool, fullFreq: nat, dontGc: bool, statics: seq<int>,
                 ranges: seq<Stretch>, hash: int -> nat, chains: nat)
      requires RangesOK(ranges, |statics|)
      ensures Inv() && sh.objs == map[] && mem.statics == statics && mk.state == None && Fos() == {}
    {
      this.incremental, this.unlimited, this.fullFreq, this.dontGc := incremental, unlimited, fullFreq, dontGc;
      this.ranges, this.hash := ranges, hash;
      sh := Shape(map[], map[], map[], {}, {}, 0, 0, 0);
      mem := Mem(map[], statics, [], [], {}, {});
      mk := Marker({}, INITIAL_MARK_STACK_SIZE, [], None, 0, false, false, {}, false, Collect);
      lists := Lists({}, {});
      attempts, deficit, gcNo, isFull, needFull, nPartial := 0, 0, 0, false, false, 0;
      table, entries := seq(chains, _ => []), 0;
      keep, just := {}, {};
      new;
      NoMembers(chains);
      assert table == seq(chains, _ => []);
    }

    /** Any number of mutator steps while the collector is not at work. */
    method MutatorRuns()
      requires Inv()
      modifies this`mem
      ensures Inv() && Later(old(mem), mem)
    {
      ReachInside(mem);
      var n: nat := *;
      while n > 0
        invariant Inv() && Later(old(mem), mem)
      {
        ghost var m0 := mem;
        MutatorStep();
        LaterTrans(old(mem), m0, mem);
        n := n - 1;
      }
    }

    method MutatorStep()
      requires Inv()
      modifies this`mem
      ensures Inv() && Later(old(mem), mem)
    {
      Opened();
      var op: MutOp := *;
      MutateEvolves(sh, mem, op, incremental);
      mem := Mutate(sh, mem, op, incremental);
      if incremental { ColourEvolves(sh, incremental, old(mem), mem, mk, Quiet, {}); }
      ListsLater(sh, old(mem), mem, mk, mk, lists, keep);
      KeptLater(old(mem), mem, mk, lists, keep, Fos());
    }

    // -------------------------------------------------------------- sweeping

    /** GC_reclaim_small_nonempty_block: put the unmarked objects of block b, which
        has been taken off a reclaim list, on the free lists.  Nothing the mutator
        can reach is touched. */
    method Sweep(b: nat)
      requires Inv() && b in lists.reclaim
      modifies this`mem, this`mk, this`lists
      ensures Inv() && SameToMutator(sh, sh, old(mem), mem)
      ensures lists.reclaim == old(lists).reclaim - {b}
      ensures Swept(old(mem).words, mem.words, old(mk).marked, old(lists).free, lists.free, sh.objs[b])
      ensures lists.free !! mem.R()
      ensures mk == old(mk).(marked := mk.marked) && old(mk).marked <= mk.marked
    {
      Opened();
      var words, free := ReclaimClear(b);
      mem := mem.(words := words, dirty := if incremental then mem.dirty + {b} else mem.dirty);
      lists := Lists(free, lists.reclaim - {b});
      if b in sh.unc { mk := mk.(marked := mk.marked + (set o | o in sh.objs[b])); }
      SweepKeeps(incremental, sh, old(mem), mem, old(mk), mk, old(lists), lists, b, keep, Fos());
    }

    /** GC_reclaim_clear: clear the unmarked objects of block b and link them in
        front of a free list. */
    method ReclaimClear(b: nat) returns (words: Heap, free: set<int>)
      requires Inv() && b in sh.objs
      ensures Swept(mem.words, words, mk.marked, lists.free, free, sh.objs[b])
    {
      Opened();
      var os := sh.objs[b];
      assert sh.BlockOK(b);
      var list: int := *;
      if list !in lists.free { list := 0; }
      words, free := mem.words, lists.free;
      var k := 0;
      while k < |os|
        invariant k <= |os| && (list == 0 || list in free)
        invariant Swept(mem.words, words, mk.marked, lists.free, free, os[..k])
      {
        assert os[..k + 1] == os[..k] + [os[k]];
        if os[k] !in mk.marked {
          words, free := words[os[k] := ClearedWords(|words[os[k]]|, list)], free + {os[k]};
          list := os[k];
        }
        k := k + 1;
      }
      assert os[..k] == os;
    }

    /** GC_continue_reclaim: sweep waiting blocks of one size and kind until one
        yields a free object. */
    method ContinueReclaim(waiting: set<nat>)
      requires Inv() && waiting <= lists.reclaim
      modifies this`mem, this`mk, this`lists
      ensures Inv() && SameToMutator(sh, sh, old(mem), mem)
      ensures old(lists).reclaim - waiting <= lists.reclaim <= old(lists).reclaim
      ensures lists.free == old(lists).free ==> lists.reclaim == old(lists).reclaim - waiting
    {
      var rest := waiting;
      while rest != {}
        invariant Inv() && SameToMutator(sh, sh, old(mem), mem)
        invariant rest <= waiting && lists.reclaim == old(lists).reclaim - (waiting - rest)
        invariant lists.free == old(lists).free
        decreases |rest|
      {
        ghost var m0 := mem;
        var b :| b in rest;
        var had := lists.free;
        Sweep(b);
        SameTrans(sh, sh, sh, old(mem), m0, mem);
        rest := rest - {b};
        if lists.free != had { break; }
      }
    }

    /** GC_reclaim_all: empty the reclaim lists.  With ignoreOld,
        blocks that were not swept in the last cycle are dropped instead. */
    method ReclaimAll(canStop: bool, ignoreOld: bool) returns (ok: bool)
      requires Inv()
      modifies this`mem, this`mk, this`lists
      ensures Inv() && SameToMutator(sh, sh, old(mem), mem)
      ensures if ok then lists.reclaim == {} else canStop
      ensures mk == old(mk).(marked := mk.marked)
    {
      while lists.reclaim != {}
        invariant Inv() && SameToMutator(sh, sh, old(mem), mem)
        invariant mk == old(mk).(marked := mk.marked)
        decreases |lists.reclaim|
      {
        var stop: bool, recent: bool := *, *;
        if canStop && stop { return false; }
        var b :| b in lists.reclaim;
        if !ignoreOld || recent {
          ghost var m0 := mem;
          Sweep(b);
          SameTrans(sh, sh, sh, old(mem), m0, mem);
        } else {
          Forget(b);
        }
      }
      return true;
    }

    /** Block b is dropped from the reclaim lists without being swept. */
    method Forget(b: nat)
      requires Inv() && b in lists.reclaim
      modifies this`lists
      ensures Inv() && lists == old(lists).(reclaim := old(lists).reclaim - {b})
    {
      Opened();
      lists := lists.(reclaim := lists.reclaim - {b});
    }

    /** The part of Inv that does not speak of marks still to be trusted. */
    ghost predicate Base()
      reads this
    {
      && Struct(sh, mem, mk) && !mk.stopped && mk.aim.Collect? && (!incremental ==> mem.dirty == {})
      && FreeOK(sh, keep, mk.marked, mem.uncLive, lists) && Blank(mem.words, lists)
      && Kept(mem, mk, lists, keep, Fos())
      && RangesOK(ranges, |mem.statics|) && Filed()
    }

    /** GC_clear_marks: clear all marks but those of uncollectable objects.  Safe
        when no block waits to be swept. */
    method ClearMarks()
      requires Base()
      modifies this`mk
      ensures Base() && Quiescent(incremental, sh, mem, mk)
      ensures mk.state == Invalid && mk.stack == old(mk).stack && mk.limit == old(mk).limit
    {
      mk := mk.(marked := (set o | o in mk.marked && o in sh.blk && sh.blk[o] in sh.unc),
        objectsAreMarked := false, state := Invalid, scanPtr := 0);
      assert forall o :: o in mem.uncLive ==> o in old(mk).marked && o in mk.marked;
      InvalidColour(sh, mem, mk, Quiet, {});
    }

    /** GC_invalidate_mark_state: flush the mark stack. */
    method InvalidateMarkState()
      requires Base()
      modifies this`mk
      ensures mk == old(mk).(state := Invalid, stack := []) && Base()
    {
      mk := mk.(state := Invalid, stack := []);
    }

    /** GC_reclaim_block: give back a block without marks, let one that is nearly
        full be, and leave any other to be swept when it is needed. */
    method ReclaimBlock(b: nat)
      requires Inv() && b in sh.objs && b !in lists.reclaim && lists.free == {}
      requires mk.state == None && keep <= mk.marked
      modifies this`sh, this`mem, this`lists
      ensures Inv() && lists.free == {} && SameToMutator(old(sh), sh, old(mem), mem)
      ensures if Marks(old(sh).objs[b], mk.marked) == 0 then sh == WithoutBlock(old(sh), b) && lists == old(lists)
              else sh == old(sh)
                   && lists.reclaim == old(lists).reclaim + if NearlyFull(sh.objs[b], mk.marked) then {} else {b}
    {
      Opened();
      if Marks(sh.objs[b], mk.marked) == 0 {
        ghost var s := set o | o in sh.objs[b] && o in mk.marked;
        assert forall o :: o in sh.objs[b] && o in mk.marked ==> o in s;
        mem := mem.(words := mem.words - (set o | o in sh.objs[b]));
        FreeBlockKeeps(incremental, sh, old(mem), mem, mk, lists, b, keep, Fos());
        sh := WithoutBlock(sh, b);
      } else if !NearlyFull(sh.objs[b], mk.marked) {
        EnqueueKeeps(sh, mem, mk, lists, b, keep);
        lists := lists.(reclaim := lists.reclaim + {b});
      }
    }

    /** The free lists are unmarked and dropped with the reclaim lists, and their
        links clobbered. */
    method DropLists()
      requires Base() && Idle() && Fos() <= mk.marked
      modifies this`mem, this`mk, this`lists, this`keep
      ensures Inv() && lists == Lists({}, {}) && keep == mk.marked
      ensures SameToMutator(sh, sh, old(mem), mem)
      ensures mk == old(mk).(marked := old(mk).marked - old(lists).free)
    {
      ClosedQuiescent(incremental, sh, mem, mk);
      mem := mem.(words := Clobbered(mem.words, lists.free));
      mk := mk.(marked := mk.marked - lists.free);
      DropKeeps(incremental, sh, old(mem), mem, old(mk), mk, lists, keep, Fos());
      lists, keep := Lists({}, {}), mk.marked;
    }

    /** GC_finish_collection: what was registered and cannot be reached is queued to
        be finalized, every block without marks goes back, and what is unmarked in
        the others waits to be swept, with the mutator running. */
    method FinishCollection() returns (out: Outcome, queued: seq<int>, ghost over: set<int>)
      requires Base() && Idle()
      modifies this`sh, this`mem, this`mk, this`lists, this`attempts, this`isFull, this`needFull
      modifies this`table, this`entries, this`keep, this`just
      ensures out.Aborted? ==> !Fits(incremental, ranges)
      ensures out.Done? ==> Inv() && mk.state == None && attempts == 0 && lists.free == {}
      ensures out.Done? ==> SortedBelow(sh, mk.marked, lists, sh.lastBlock + 1)
      ensures out.Done? ==> forall p :: p in queued <==> Due(old(mem).words, old(mk).marked, old(Fos()), over, p)
      ensures out.Done? ==> OverOK(old(sh), old(mem), old(mk), Flat(old(table)), over)
      ensures out.Done? ==> NoDup(queued) && Fos() == old(Fos()) - Elems(queued)
    {
      queued, over :- Finalize();
      StartReclaim();
      out := Done;
    }

    /** What follows GC_finalize: the free lists are dropped and all blocks sorted. */
    method StartReclaim()
      requires Base() && Idle() && Fos() <= mk.marked
      modifies this`sh, this`mem, this`mk, this`lists, this`attempts, this`isFull, this`needFull, this`keep
      ensures Inv() && mk.state == None && attempts == 0 && lists.free == {}
      ensures SortedBelow(sh, mk.marked, lists, sh.lastBlock + 1)
    {
      DropLists();
      SortBlocks();
      attempts := 0;
      if isFull { needFull := false; } else { needFull := *; }
      isFull := false;
    }

    /** GC_start_reclaim's pass over all blocks. */
    method SortBlocks()
      requires Inv() && mk.state == None && keep <= mk.marked && lists == Lists({}, {})
      modifies this`sh, this`mem, this`lists
      ensures Inv() && lists.free == {}
      ensures SortedBelow(sh, mk.marked, lists, sh.lastBlock + 1)
    {
      var b := 0;
      while b <= sh.lastBlock
        invariant Inv() && lists.free == {} && NoneFrom(lists, b)
        invariant SortedBelow(sh, mk.marked, lists, b) && b <= sh.lastBlock + 1
        decreases sh.lastBlock + 1 - b
      {
        SortBlock(b);
        b := b + 1;
      }
    }

    method SortBlock(b: nat)
      requires Inv() && mk.state == None && keep <= mk.marked && lists.free == {} && b <= sh.lastBlock
      requires NoneFrom(lists, b) && SortedBelow(sh, mk.marked, lists, b)
      modifies this`sh, this`mem, this`lists
      ensures Inv() && lists.free == {} && sh.lastBlock == old(sh).lastBlock
      ensures NoneFrom(lists, b + 1) && SortedBelow(sh, mk.marked, lists, b + 1)
    {
      MutatorRuns();
      if b in sh.objs { ReclaimBlock(b); }
      SortedReclaimed(old(sh), sh, mk.marked, old(lists), lists, b);
    }

    // -------------------------------------------------------------- finalization

    /** What holds from the end of a mark phase until the sweep, with the mutator
        running: all it can reach is marked, and the marks are closed. */
    ghost predicate Idle()
      reads this
    {
      && Struct(sh, mem, mk) && mk.state == None && !mk.stopped && mk.aim.Collect? && mk.objectsAreMarked
      && mem.R() <= mk.marked && Leads(mem.words, mk.marked, mk.marked)
      && (!incremental ==> mem.dirty == {}) && RangesOK(ranges, |mem.statics|)
    }

    /** GC_MARK_FO with the normal mark procedure: mark what can be reached from p by
        one or more pointers.  If the mark stack overflows p is marked too.  That is
        so exactly if the trace from p overflows it, and takes at least as many
        unmarked objects as the stack has entries. */
    method MarkFo(p: int, ghost m0: Mem) returns (out: Outcome, ghost over: bool)
      requires Idle() && p in sh.size && p !in mk.marked && Later(m0, mem) && m0.R() <= mk.marked
      modifies this`mem, this`mk, this`just
      ensures out.Aborted? ==> !Fits(incremental, ranges)
      ensures out.Done? ==> Idle() && Later(old(mem), mem) && mk.limit >= old(mk).limit
      ensures out.Done? ==> mk.marked == MarkedFo(old(mem).words, old(mk).marked, p, over)
      ensures out.Done? && !over ==> mk == old(mk).(marked := mk.marked)
      ensures out.Done? ==> (over <==> Overflows(sh, m0, old(mk), p))
      ensures out.Done? && over ==> Heavy(old(mem).words, old(mk).marked, old(mk).limit, p)
    {
      ghost var pushed := TraceFo(p, m0);
      over := mk.state == Invalid;
      :- EndFo(p, old(mem), old(mk), pushed);
      out := Done;
    }

    /** Push p and mark from the stack until it is empty. */
    method TraceFo(p: int, ghost m0: Mem) returns (ghost pushed: Marker)
      requires Idle() && p in sh.size && p !in mk.marked && Later(m0, mem) && m0.R() <= mk.marked
      modifies this`mem, this`mk, this`just
      ensures sh.Valid() && Ok(Quiet, {}) && mk.stack == [] && mk.objectsAreMarked && Later(old(mem), mem)
      ensures just == MarkedFo(old(mem).words, old(mk).marked, p, false)
      ensures pushed == old(mk).(aim := Final(p), stack := pushed.stack) && |pushed.stack| <= 1
      ensures Frame(pushed, mk) && Room(pushed, mk)
      ensures mk.state == Invalid <==> Overflows(sh, m0, old(mk), p)
    {
      StartFo(p, m0);
      ghost var m1 := mem;
      pushed := mk;
      Drain(m0);
      DrainDecides(sh, m0, old(mk), m1, pushed, mem, mk, p);
    }

    /** The normal mark procedure pushes p, which stays unmarked. */
    method StartFo(p: int, ghost m0: Mem)
      requires Idle() && p in sh.size && p !in mk.marked && Later(m0, mem) && m0.R() <= mk.marked
      modifies this`mk, this`just
      ensures sh.Valid() && Ok(Quiet, {}) && mk.objectsAreMarked
      ensures just == MarkedFo(mem.words, old(mk).marked, p, false)
      ensures mk == PushObj(sh, old(mk).(aim := Final(p)), p) && |mk.stack| <= 1
      ensures Concealed(m0, mem, mk)
    {
      FoClosedIn(mem, mk.marked, p, false);
      just := MarkedFo(mem.words, mk.marked, p, false);
      StartFinal(sh, mem, mk.(aim := Final(p)), p, just);
      mk := PushObj(sh, mk.(aim := Final(p)), p);
    }

    /** What GC_MARK_FO does once the stack is empty; m and k are what memory and
        marker were before, pushed the marker with p on its stack. */
    method EndFo(p: int, ghost m: Mem, ghost k: Marker, ghost pushed: Marker) returns (out: Outcome)
      requires sh.Valid() && Ok(Quiet, {}) && mk.stack == [] && mk.objectsAreMarked
      requires just == MarkedFo(m.words, k.marked, p, false)
      requires m.R() <= k.marked && Leads(m.words, k.marked, k.marked) && p in m.words && p !in k.marked
      requires pushed.marked == k.marked && |pushed.stack| <= 1 && Frame(pushed, mk) && Room(pushed, mk)
      requires pushed.state == None && !pushed.stopped && pushed.aim == Final(p) && pushed.limit == k.limit
      requires mk.scanPtr <= sh.lastBlock + 1
      requires Later(m, mem) && RangesOK(ranges, |mem.statics|)
      modifies this`mem, this`mk, this`just
      ensures out.Aborted? ==> !Fits(incremental, ranges)
      ensures out.Done? ==> Idle() && Later(m, mem) && mk.limit >= k.limit
      ensures out.Done? ==> mk.marked == MarkedFo(m.words, k.marked, p, old(mk).state == Invalid)
      ensures out.Done? && old(mk).state == Invalid ==> Heavy(m.words, k.marked, k.limit, p)
      ensures out.Done? && old(mk).state != Invalid ==> mk == old(mk).(aim := Collect)
    {
      if mk.state != None {
        OverflowIsHeavy(m.words, k.marked, pushed, mk, p);
        :- Recover(p);
        LaterTrans(m, old(mem), mem);
        BackToCollect(p, m, k.marked, true);
      } else {
        AllClosed(sh, mem, mk);
        BackToCollect(p, m, k.marked, false);
      }
      out := Done;
    }

    method BackToCollect(p: int, ghost m: Mem, ghost marked: set<int>, ghost over: bool)
      requires Struct(sh, mem, mk) && mk.state == None && mk.aim == Final(p) && !mk.stopped && mk.objectsAreMarked
      requires RangesOK(ranges, |mem.statics|) && (!incremental ==> mem.dirty == {})
      requires Later(m, mem) && m.R() <= marked && Leads(m.words, marked, marked)
      requires p in m.words && p !in marked && marked <= mk.marked <= MarkedFo(m.words, marked, p, over)
      requires Leads(mem.words, mk.marked + {p}, mk.marked) && (over ==> p in mk.marked)
      modifies this`mk
      ensures Idle() && mk == old(mk).(aim := Collect) && mk.marked == MarkedFo(m.words, marked, p, over)
    {
      FoIdle(m, marked, p, over);
      mk := mk.(aim := Collect);
    }

    lemma FoIdle(m: Mem, marked: set<int>, p: int, over: bool)
      requires Core(sh, mem, mk) && Later(m, mem) && m.R() <= marked && Leads(m.words, marked, marked)
      requires p in m.words && p !in marked && marked <= mk.marked <= MarkedFo(m.words, marked, p, over)
      requires Leads(mem.words, mk.marked + {p}, mk.marked) && (over ==> p in mk.marked)
      ensures mk.marked == MarkedFo(m.words, marked, p, over) && Leads(mem.words, mk.marked, mk.marked)
      ensures mem.R() <= mk.marked
    {
      FoResult(m, mem, marked, mk.marked, p, over);
      LeadsLess(mem.words, mk.marked, p);
    }

    /** Mark from the stack until it is empty. */
    method Drain(ghost m0: Mem)
      requires sh.Valid() && Ok(Quiet, {}) && mk.objectsAreMarked
      modifies this`mem, this`mk
      ensures Ok(Quiet, {}) && Later(old(mem), mem) && mk.stack == [] && mk.objectsAreMarked
      ensures Frame(old(mk), mk) && Room(old(mk), mk) && Onward(sh, m0, old(mem), old(mk), mem, mk)
    {
      ReachInside(mem);
      TracedNone(sh, m0, mem, mk);
      while mk.stack != []
        invariant Ok(Quiet, {}) && mk.objectsAreMarked && Traced(sh, m0, old(mem), old(mk), mem, mk)
        decreases Unmarked(sh, mk), Work(mk.stack)
      {
        DrainMore(m0, old(mem), old(mk));
      }
      assert Open(0);
    }

    /** Another call of GC_mark_from, since m and k. */
    method DrainMore(ghost m0: Mem, ghost m: Mem, ghost k: Marker)
      requires sh.Valid() && Ok(Quiet, {}) && mk.objectsAreMarked && mk.stack != []
      requires Traced(sh, m0, m, k, mem, mk)
      modifies this`mem, this`mk
      ensures Ok(Quiet, {}) && mk.objectsAreMarked && Traced(sh, m0, m, k, mem, mk)
      ensures Unmarked(sh, mk) < Unmarked(sh, old(mk))
              || (mk.marked == old(mk).marked && Work(mk.stack) < Work(old(mk).stack))
    {
      assert old(mk).(objectsAreMarked := true) == old(mk);
      MarkFrom(m0);
      TracedNext(sh, m0, m, k, old(mem), old(mk), mem, mk);
      if mk.marked != old(mk).marked { FewerUnmarked(sh.size.Keys, old(mk).marked, mk.marked); }
    }

    /** After an overflow: p is marked, and GC_mark_some called until it is done. */
    method Recover(p: int) returns (out: Outcome)
      requires sh.Valid() && Ok(Quiet, {}) && mk.stack == [] && mk.state == Invalid && mk.objectsAreMarked
      requires mk.aim == Final(p) && p in sh.size && !mk.stopped && mk.scanPtr <= sh.lastBlock + 1
      requires RangesOK(ranges, |mem.statics|)
      modifies this`mem, this`mk, this`just
      ensures out.Aborted? ==> !Fits(incremental, ranges)
      ensures out.Done? ==> Markable() && Later(old(mem), mem) && mk.state == None && Same(old(mk), mk)
      ensures out.Done? ==> old(mk).marked + {p} <= mk.marked <= just == old(just) + {p}
      ensures out.Done? ==> Leads(mem.words, mk.marked + {p}, mk.marked)
    {
      just := just + {p};
      mk := mk.(marked := mk.marked + {p});
      WiderJust(mem, old(mk), mk, old(just), just, p);
      InvalidColour(sh, mem, mk, Quiet, {});
      :- MarkRest();
      MarkOpened();
      assert mk.marked + {p} == mk.marked;
      out := Done;
    }

    /** Call GC_mark_some until it is done, with the mutator running. */
    method MarkRest() returns (out: Outcome)
      requires MarkInv() && mk.state != None && mk.aim.Final?
      modifies this`mem, this`mk
      ensures out.Aborted? ==> !Fits(incremental, ranges)
      ensures out.Done? ==> MarkInv() && Later(old(mem), mem) && Same(old(mk), mk)
      ensures out.Done? ==> old(mk).marked <= mk.marked <= just
      ensures out.Done? ==> mk.state == None && Leads(mem.words, mk.marked, mk.marked)
    {
      ReachInside(mem);
      var finished := false;
      while !finished
        invariant MarkInv() && Later(old(mem), mem) && Same(old(mk), mk) && old(mk).marked <= mk.marked
        invariant if finished then mk.state == None && Leads(mem.words, mk.marked, mk.marked) else mk.state != None
        decreases !finished, Unmarked(sh, mk), Rank(mk), Left(sh, mk), Work(mk.stack)
      {
        finished :- MarkMore(old(mem), old(mk));
      }
      out := Done;
    }

    /** Mark everything reachable through registered objects that are not marked,
        in the order of the table.  over are those that got marked themselves
        because their marking overflowed the mark stack. */
    method MarkThrough() returns (out: Outcome, ghost over: set<int>)
      requires Idle() && Fos() <= sh.size.Keys
      modifies this`mem, this`mk, this`just
      ensures out.Aborted? ==> !Fits(incremental, ranges)
      ensures out.Done? ==> Idle() && Later(old(mem), mem)
      ensures out.Done? ==> Pass(sh, old(mem), old(mk), mk, Flat(table), over)
    {
      over := {};
      var i := 0;
      PassStart(sh, mem, mk);
      ReachInside(mem);
      while i < |table|
        invariant i <= |table| && Idle() && Later(old(mem), mem)
        invariant Pass(sh, old(mem), old(mk), mk, Flat(table[..i]), over)
      {
        over :- MarkChain(i, old(mem), old(mk), over);
        MembersNext(table, i);
        i := i + 1;
      }
      assert table[..i] == table;
      out := Done;
    }

    /** The same for chain i. */
    method MarkChain(i: nat, ghost m0: Mem, ghost k0: Marker, ghost over0: set<int>)
      returns (out: Outcome, ghost over: set<int>)
      requires Idle() && i < |table| && Fos() <= sh.size.Keys && Later(m0, mem) && m0.R() <= k0.marked
      requires Pass(sh, m0, k0, mk, Flat(table[..i]), over0)
      modifies this`mem, this`mk, this`just
      ensures out.Aborted? ==> !Fits(incremental, ranges)
      ensures out.Done? ==> Idle() && Later(m0, mem) && Pass(sh, m0, k0, mk, Flat(table[..i]) + table[i], over)
    {
      var chain, k := table[i], 0;
      over := over0;
      ghost var es := Flat(table[..i]);
      assert es + chain[..0] == es;
      while k < |chain|
        invariant k <= |chain| && Idle() && Later(m0, mem)
        invariant Pass(sh, m0, k0, mk, es + chain[..k], over)
      {
        assert es + chain[..k + 1] == es + chain[..k] + [chain[k]];
        MemberOf(table, i, chain[k]);
        over :- MarkEntry(chain[k], m0, k0, es + chain[..k], over);
        k := k + 1;
      }
      assert chain[..k] == chain;
      out := Done;
    }

    /** The same for one registered object p. */
    method MarkEntry(p: int, ghost m0: Mem, ghost k0: Marker, ghost es: seq<int>, ghost over: set<int>)
      returns (out: Outcome, ghost over': set<int>)
      requires Idle() && p in sh.size && Later(m0, mem) && m0.R() <= k0.marked && Pass(sh, m0, k0, mk, es, over)
      modifies this`mem, this`mk, this`just
      ensures out.Aborted? ==> !Fits(incremental, ranges)
      ensures out.Done? ==> Idle() && Later(m0, mem) && Pass(sh, m0, k0, mk, es + [p], over')
    {
      over' := over;
      PassedIs(sh, m0, k0, mk, es, over);
      if p in mk.marked {
        PassSkip(sh, m0, k0, mk, es, over, p);
      } else {
        ghost var o;
        o :- MarkFo(p, m0);
        LaterTrans(m0, old(mem), mem);
        FoSame(m0.words, old(mem).words, old(mk).marked, p);
        if o { SameHeavy(m0.words, old(mem).words, old(mk).marked, p, old(mk).limit); }
        over' := over + if o then {p} else {};
        PassMark(sh, m0, k0, old(mk), mk, es, over, p, o);
      }
      out := Done;
    }

    /** Enqueue the registered objects that are still unmarked. */
    method Enqueue() returns (queued: seq<int>)
      requires Filed()
      modifies this`table, this`entries, this`mem, this`mk
      ensures Filed() && entries == old(entries) - |queued|
      ensures mem == old(mem).(now := queued + old(mem).now)
      ensures mk == old(mk).(marked := old(mk).marked + Elems(queued))
      ensures NoDup(queued) && Elems(queued) == Members(old(table)) - old(mk).marked
      ensures Members(old(table)) * old(mk).marked <= Fos() <= Members(old(table)) * mk.marked
    {
      queued := [];
      var i := 0;
      while i < |table|
        invariant i <= |table| == |old(table)| && table[i..] == old(table)[i..]
        invariant Filed() && entries == old(entries) - |queued|
        invariant mem == old(mem).(now := queued + old(mem).now)
        invariant mk == old(mk).(marked := old(mk).marked + Elems(queued))
        invariant Queued(old(table), table, i, old(mk).marked, queued)
      {
        ghost var k0, q0, before := mk, queued, table;
        var q := EnqueueChain(i);
        QueuedNext(old(table), before, table, i, old(mk).marked, q0, q);
        assert q + (q0 + old(mem).now) == q + q0 + old(mem).now;
        queued := q + queued;
        assert Elems(queued) == Elems(q) + Elems(q0);
        i := i + 1;
      }
      assert table[..i] == table && old(table)[..i] == old(table);
    }

    /** The same for chain i, deleting from the chain as it goes. */
    method EnqueueChain(i: nat) returns (queued: seq<int>)
      requires i < |table| && Filed()
      modifies this`table, this`entries, this`mem, this`mk
      ensures |table| == |old(table)| && table == old(table)[i := table[i]]
      ensures Filed() && entries == old(entries) - |queued|
      ensures mem == old(mem).(now := queued + old(mem).now)
      ensures mk == old(mk).(marked := old(mk).marked + Elems(queued))
      ensures Sifted(old(table)[i], table[i], queued, old(mk).marked, mk.marked)
    {
      queued := [];
      var k := 0;
      SiftStart(table[i], mk.marked);
      while k < |table[i]|
        invariant |table| == |old(table)| && table == old(table)[i := table[i]] && k <= |table[i]|
        invariant Filed() && entries == old(entries) - |queued|
        invariant mem == old(mem).(now := queued + old(mem).now)
        invariant mk == old(mk).(marked := mk.marked)
        invariant Sifting(old(table)[i], table[i], k, queued, old(mk).marked, mk.marked)
        decreases |table[i]| - k
      {
        var p := table[i][k];
        SiftNext(old(table)[i], table[i], k, queued, old(mk).marked, mk.marked);
        if p !in mk.marked {
          EnqueueEntry(i, k);
          queued := [p] + queued;
        } else {
          k := k + 1;
        }
      }
      SiftEnd(old(table)[i], table[i], queued, old(mk).marked, mk.marked);
    }

    /** Entry k of chain i, which is not marked, goes from the table to the queue. */
    method EnqueueEntry(i: nat, k: nat)
      requires i < |table| && k < |table[i]| && Filed()
      modifies this`table, this`entries, this`mem, this`mk
      ensures table == old(table)[i := old(table)[i][..k] + old(table)[i][k + 1..]]
      ensures Filed() && entries == old(entries) - 1
      ensures mem == old(mem).(now := [old(table)[i][k]] + old(mem).now)
      ensures mk == old(mk).(marked := old(mk).marked + {old(table)[i][k]})
    {
      var chain := table[i];
      var shorter := chain[..k] + chain[k + 1..];
      TotalUpdate(table, i, shorter);
      HashedLess(hash, table, i, k);
      table, entries := table[i := shorter], entries - 1;
      mk := mk.(marked := mk.marked + {chain[k]});
      mem := mem.(now := [chain[k]] + mem.now);
    }

    /** GC_finalize, with the mutator running.  Exactly those registered objects are
        enqueued, each once, that are not marked to begin with, cannot be reached by
        one or more pointers from any registered object, and did not overflow the mark
        stack when they were marked from.  To overflow it, at least as many unmarked
        objects must be reachable from an object as the stack has entries; where no
        other registered object is unmarked the trace from it decides.  Everything
        that is reachable from a queued or registered object is then marked. */
    method Finalize() returns (out: Outcome, queued: seq<int>, ghost over: set<int>)
      requires Base() && Idle()
      modifies this`table, this`entries, this`mem, this`mk, this`just
      ensures out.Aborted? ==> !Fits(incremental, ranges)
      ensures out.Done? ==> Base() && Idle() && Fos() <= mk.marked
      ensures out.Done? ==> queued <= mem.now && NoDup(queued) && old(mk).marked <= mk.marked
      ensures out.Done? ==> forall p :: p in queued <==> Due(old(mem).words, old(mk).marked, old(Fos()), over, p)
      ensures out.Done? ==> OverOK(sh, old(mem), old(mk), Flat(old(table)), over)
      ensures out.Done? ==> Fos() == old(Fos()) - Elems(queued) && entries == old(entries) - |queued|
    {
      queued := [];
      ghost var es := Flat(table);
      FlatMembers(table);
      over :- MarkThrough();
      PassResults(sh, old(mem), old(mk), mk, es, over);
      queued := EnqueueDue(old(mem), old(mk), es, over);
      out := Done;
    }

    /** After the pass over the objects es, since m0 and k0: queue what is due. */
    method EnqueueDue(ghost m0: Mem, ghost k0: Marker, ghost es: seq<int>, ghost over: set<int>)
      returns (queued: seq<int>)
      requires Idle() && Filed() && Elems(es) == Fos() && Pass(sh, m0, k0, mk, es, over) && Later(m0, mem)
      requires m0.R() <= k0.marked && Leads(m0.words, k0.marked, k0.marked) && k0.marked <= mk.marked
      requires Kept(m0, k0, lists, keep, Elems(es)) && k0.aim.Collect?
      requires FreeOK(sh, keep, k0.marked, m0.uncLive, lists) && Blank(m0.words, lists)
      modifies this`table, this`entries, this`mem, this`mk
      ensures Base() && Idle() && Fos() <= mk.marked
      ensures queued <= mem.now && NoDup(queued) && k0.marked <= mk.marked
      ensures forall p :: p in queued <==> Due(m0.words, k0.marked, Elems(es), over, p)
      ensures Fos() == old(Fos()) - Elems(queued) && entries == old(entries) - |queued|
    {
      queued := Enqueue();
      FinalizedBase(m0, old(mem), mem, k0, old(mk), mk, es, queued, over);
      QueuedExactly(sh, m0, k0, old(mk), es, over, queued);
      GoneExactly(hash, old(table), table, queued);
    }

    /** An object that cannot be reached, and from which no registered object can,
        is still not queued if it is the first node of a comb as long as the mark
        stack: it has been marked itself. */
    method FinalizeComb(c: seq<int>, l: seq<int>) returns (out: Outcome, queued: seq<int>)
      requires Base() && Idle() && Comb(sh, mem.words, mk.marked, c, l) && |l| >= mk.limit && Fos() == {c[0]}
      modifies this`table, this`entries, this`mem, this`mk, this`just
      ensures out.Aborted? ==> !Fits(incremental, ranges)
      ensures c[0] !in old(mem.R()) && c[0] !in Reach(old(mem).words, WordsOf(old(mem).words, c[0]))
      ensures out.Done? ==> c[0] !in queued && Fos() == {c[0]}
    {
      CombAlone(sh, mem, mk, c, l);
      ghost var over;
      queued, over :- Finalize();
      assert c[0] in over by { FlatMembers(old(table)); assert Alone(old(Fos()), old(mk).marked, c[0]); }
      assert c[0] !in Elems(queued);
      out := Done;
    }

    /** Filling the queue with unmarked registered objects keeps all that holds. */
    lemma FinalizedBase(m0: Mem, m1: Mem, m: Mem, k0: Marker, k1: Marker, k: Marker, es: seq<int>, queued: seq<int>,
                        over: set<int>)
      requires Struct(sh, m1, k1) && k1.aim.Collect? && k1.objectsAreMarked && m0.R() <= k0.marked <= k1.marked
      requires Later(m0, m1)
      requires m1.R() <= k1.marked && Leads(m1.words, k1.marked, k1.marked)
      requires Pass(sh, m0, k0, k1, es, over)
      requires Kept(m0, k0, lists, keep, Elems(es)) && k0.aim.Collect?
      requires FreeOK(sh, keep, k0.marked, m0.uncLive, lists) && Blank(m0.words, lists)
      requires m == m1.(now := queued + m1.now) && k == k1.(marked := k1.marked + Elems(queued))
      requires k1.stack == [] && Elems(queued) == Elems(es) - k1.marked
      ensures Struct(sh, m, k) && m.R() <= k.marked && Leads(m.words, k.marked, k.marked) && Elems(es) <= k.marked
      ensures Kept(m, k, lists, keep, Elems(es))
      ensures FreeOK(sh, keep, k.marked, m.uncLive, lists) && Blank(m.words, lists)
    {
      var fos := Elems(es);
      PassedIs(sh, m0, k0, k1, es, over);
      FreeLater(sh, m0, m1, k0, k1, lists, keep);
      assert forall p :: p in queued ==> p in Elems(queued);
      Revived(m0, m1, k0.marked, k1.marked, fos, queued);
      ReachIn(m, k.marked);
      KeptThrough(m0, k0.marked, lists.free, keep, fos);
      KeptRevived(m0, m1, m, k0, k, fos, queued);
    }

    /** What is marked through registered objects was kept for them. */
    lemma KeptThrough(m0: Mem, marked: set<int>, free: set<int>, keep: set<int>, fos: set<int>)
      requires ClosedIn(m0, keep) && fos <= keep && marked <= keep + free
      ensures MarkedThrough(m0.words, marked, fos) <= keep + free
    {
      var src := Sources(m0.words, marked, fos);
      forall v | v in src && v in m0.words ensures v in keep {
        var p :| p in fos && p !in marked && p in m0.words && v in m0.words[p];
        LeadsTo(m0.words, keep, keep, p, v);
      }
      forall o, v | o in keep && o in Reach(m0.words, src) && v in m0.words[o] && v in m0.words ensures v in keep {
        LeadsTo(m0.words, keep, keep, o, v);
      }
      ReachLeast(m0.words, src, keep);
    }

    lemma KeptRevived(m0: Mem, m1: Mem, m: Mem, k0: Marker, k: Marker, fos: set<int>, queued: seq<int>)
      requires Kept(m0, k0, lists, keep, fos) && k0.aim.Collect? && k.aim.Collect? && Later(m0, m1)
      requires m == m1.(now := queued + m1.now) && k.stack == [] && k.marked <= keep + lists.free
      requires forall p :: p in queued ==> p in fos
      ensures Kept(m, k, lists, keep, fos)
    {
      ClosedLater(m0, m1, keep);
      ClosedLater(m0, m1, keep + lists.free);
      forall v | v in m.Src() && v in m.words ensures v in keep {
        if v !in queued { assert v in m1.Src(); }
      }
    }

    /** GC_register_finalizer on an object o the mutator holds: with remove, what is
        registered is removed. */
    method Register(o: int, remove: bool)
      requires Inv() && o in mem.regs && o in mem.words && |table| > 0
      modifies this`table, this`entries
      ensures Inv() && |table| == |old(table)|
      ensures Fos() == if remove then old(Fos()) - {o} else old(Fos()) + {o}
    {
      Opened();
      var i := Slot(hash, table, o);
      var k := 0;
      while k < |table[i]| && table[i][k] != o
        invariant k <= |table[i]| && o !in table[i][..k]
      {
        assert table[i][..k + 1] == table[i][..k] + [table[i][k]];
        k := k + 1;
      }
      InItsChain(hash, table, o);
      if k < |table[i]| {
        MemberOf(table, i, o);
        if remove { Unregister(o, i, k); }
      } else if !remove {
        assert table[i][..k] == table[i];
        AddEntry(o, i);
      }
    }

    /** A new entry for o at the head of chain i. */
    method AddEntry(o: int, i: nat)
      requires Inv() && o in mem.regs && o in mem.words && |table| > 0 && i == Slot(hash, table, o) && o !in table[i]
      modifies this`table, this`entries
      ensures Inv() && table == old(table)[i := [o] + old(table)[i]] && Fos() == old(Fos()) + {o}
    {
      Opened();
      ReachIn(mem, keep);
      ReachRoot(mem.words, mem.Src(), o);
      HashedMore(hash, table, o);
      TotalUpdate(table, i, [o] + table[i]);
      MembersUpdate(table, i, [o] + table[i], o);
      table, entries := table[i := [o] + table[i]], entries + 1;
      MemberOf(table, i, o);
    }

    /** The entry for o, at place k of chain i, is removed. */
    method Unregister(o: int, i: nat, k: nat)
      requires Inv() && i < |table| && k < |table[i]| && table[i][k] == o && i == Slot(hash, table, o)
      modifies this`table, this`entries
      ensures Inv() && |table| == |old(table)| && Fos() == old(Fos()) - {o}
    {
      Opened();
      var chain := table[i];
      var shorter := chain[..k] + chain[k + 1..];
      HashedLess(hash, table, i, k);
      TotalUpdate(table, i, shorter);
      Without(chain, k);
      MembersUpdate(table, i, shorter, o);
      table, entries := table[i := shorter], entries - 1;
      InItsChain(hash, table, o);
    }

    // -------------------------------------------------------------- drivers

    /** A stopped mark phase and, if it was completed, the sweep after it. */
    method MarkAndFinish(never: bool) returns (out: Outcome, ok: bool)
      requires Base() && mk.stack == [] && (never || ReclaimOK(sh, keep, mk.marked, lists))
      requires mk.state == Invalid || (mk.state == None && incremental && Colour(sh, mem, mk, Quiet, {}))
      modifies this`sh, this`mem, this`mk, this`just, this`keep, this`lists, this`table, this`entries
      modifies this`attempts, this`deficit, this`gcNo, this`isFull, this`needFull
      ensures out.Aborted? ==> !Fits(incremental, ranges)
      ensures out.Done? && ok ==> Inv() && mk.state == None && attempts == 0 && gcNo == old(gcNo) + 1
      ensures out.Done? && ok ==> lists.free == {} && SortedBelow(sh, mk.marked, lists, sh.lastBlock + 1)
      ensures out.Done? && !ok ==> !never && gcNo == old(gcNo) && mk.state != None
      ensures out.Done? && !ok ==> sh == old(sh) && attempts == old(attempts)
      ensures out.Done? && !ok ==> lists == old(lists) && keep == old(keep)
      ensures out.Done? && !ok ==> table == old(table) && entries == old(entries)
      ensures out.Done? && !ok ==> Base() && ListsOK(sh, mem, mk, lists, keep) && (incremental ==> Inv())
    {
      LiveLeast(mem, mk.marked, keep + lists.free);
      ok :- StoppedMark(never);
      FreeLater(sh, old(mem), mem, old(mk), mk, lists, keep);
      ClosedLater(old(mem), mem, keep + lists.free);
      JustWiden(mem, mk, Quiet, just, keep + lists.free);
      if ok { var _, _ :- FinishCollection(); }
      out := Done;
    }

    /** GC_maybe_gc: start a collection if one is due; a full one clears the marks
        first, once nothing waits to be swept any more. */
    method MaybeGc(should: bool) returns (out: Outcome)
      requires Inv() && (incremental ==> mk.state == None)
      modifies this`sh, this`mem, this`mk, this`just, this`keep, this`lists, this`table, this`entries
      modifies this`attempts, this`deficit, this`gcNo, this`isFull, this`needFull, this`nPartial
      ensures out.Aborted? ==> !Fits(incremental, ranges)
      ensures out.Done? ==> Inv() && gcNo >= old(gcNo)
      ensures out.Done? && !should ==> sh == old(sh) && mem == old(mem) && mk == old(mk)
      ensures out.Done? && !should ==> lists == old(lists) && gcNo == old(gcNo)
      ensures out.Done? && should && !incremental && !dontGc ==> gcNo > old(gcNo) && mk.state == None
      ensures out.Done? && should && incremental ==> gcNo > old(gcNo) || mk.state != None
      decreases 2
    {
      if !should { return Done; }
      if !incremental {
        var _ :- TryToCollect(true);
        nPartial := 0;
        return Done;
      }
      var ok;
      if needFull || nPartial >= fullFreq {
        var _ := ReclaimAll(false, true);
        nPartial := 0;
        isFull := true;
        ok :- FullMark(unlimited);
      } else {
        nPartial := nPartial + 1;
        ok :- PartialMark(unlimited);
      }
      if !ok && !isFull { attempts := attempts + 1; }
      out := Done;
    }

    /** A partial collection, with the marks of the last one. */
    method PartialMark(never: bool) returns (out: Outcome, ok: bool)
      requires Inv() && incremental && mk.state == None
      modifies this`sh, this`mem, this`mk, this`just, this`keep, this`lists, this`table, this`entries
      modifies this`attempts, this`deficit, this`gcNo, this`isFull, this`needFull
      ensures out.Aborted? ==> !Fits(incremental, ranges)
      ensures out.Done? ==> Inv()
      ensures out.Done? && ok ==> gcNo == old(gcNo) + 1 && mk.state == None
      ensures out.Done? && !ok ==> gcNo == old(gcNo) && mk.state != None
      ensures out.Done? ==> if ok then attempts == 0 else !never && attempts == old(attempts) && sh == old(sh)
    {
      Opened();
      ok :- MarkAndFinish(never);
      out := Done;
    }

    /** A full collection, once nothing waits to be swept. */
    method FullMark(never: bool) returns (out: Outcome, ok: bool)
      requires Inv() && incremental && mk.state == None && lists.reclaim == {}
      modifies this`sh, this`mem, this`mk, this`just, this`keep, this`lists, this`table, this`entries
      modifies this`attempts, this`deficit, this`gcNo, this`isFull, this`needFull
      ensures out.Aborted? ==> !Fits(incremental, ranges)
      ensures out.Done? ==> Inv()
      ensures out.Done? && ok ==> gcNo == old(gcNo) + 1 && mk.state == None
      ensures out.Done? && !ok ==> gcNo == old(gcNo) && mk.state != None
    {
      Opened();
      ClearMarks();
      ok :- MarkAndFinish(never);
      out := Done;
    }

    /** Attempts at a stopped mark phase that may still be given up. */
    ghost function Tries(n: nat): nat { if n < 1 then 1 - n else 0 }

    /** Work on a collection in progress comes closer to its end. */
    ghost predicate Nearer(s: Shape, k: Marker, a: nat, d: int)
      reads this
    {
      || Tries(attempts) < Tries(a)
      || (attempts == a && sh == s && (Progress(sh, k, mk) || (mk == k && 0 <= deficit < d)))
    }

    /** GC_collect_a_little_inner: n units of work on the collection in progress,
        or perhaps a new collection. */
    method CollectALittle(n: nat) returns (out: Outcome)
      requires Inv()
      modifies this`sh, this`mem, this`mk, this`just, this`keep, this`lists, this`table, this`entries
      modifies this`attempts, this`deficit, this`gcNo, this`isFull, this`needFull, this`nPartial
      ensures out.Aborted? ==> !Fits(incremental, ranges)
      ensures out.Done? ==> Inv() && gcNo >= old(gcNo)
      ensures out.Done? && incremental && old(mk).state != None && n > 0 && !dontGc ==>
                mk.state == None || Nearer(old(sh), old(mk), old(attempts), old(deficit))
      decreases if incremental && mk.state != None then 0 else 3
    {
      if dontGc { return Done; }
      if incremental && mk.state != None {
        out := MarkALittle(GC_RATE * n);
        if out.Aborted? { return; }
        if deficit > 0 { deficit := deficit - GC_RATE * n; }
        if deficit < 0 { deficit := 0; }
      } else {
        var should: bool := *;
        :- MaybeGc(should);
      }
      out := Done;
    }

    /** Call GC_mark_some up to limit times, less those made ahead of time; when a
        mark phase ends with the world running, finish with the world stopped. */
    method MarkALittle(limit: nat) returns (out: Outcome)
      requires Inv() && incremental && mk.state != None
      modifies this`sh, this`mem, this`mk, this`just, this`keep, this`lists, this`table, this`entries
      modifies this`attempts, this`deficit, this`gcNo, this`isFull, this`needFull
      ensures out.Aborted? ==> !Fits(incremental, ranges)
      ensures out.Done? ==> Inv() && gcNo >= old(gcNo)
      ensures out.Done? ==> (|| mk.state == None || Tries(attempts) < Tries(old(attempts))
              || (attempts == old(attempts) && sh == old(sh) && deficit == old(deficit) &&
                  (Progress(sh, old(mk), mk) || (mk == old(mk) && deficit >= limit))))
    {
      var i, finished := deficit, false;
      while i < limit && !finished
        invariant Inv() && (finished <==> mk.state == None)
        invariant attempts == old(attempts) && sh == old(sh) && deficit == old(deficit) && gcNo == old(gcNo)
        invariant finished || Advanced(sh, old(mk), mk, i - deficit)
        decreases !finished, limit - i
      {
        ghost var k0 := mk;
        finished :- MarkOnce();
        if !finished { AdvancedNext(sh, old(mk), k0, mk, i - deficit); }
        i := i + 1;
      }
      if finished {
        out := FinishStopped();
        if out.Aborted? { return; }
      }
      out := Done;
    }

    /** Nothing is left to mark but what the mutator has changed: try to finish, or
        finish after too many attempts. */
    method FinishStopped() returns (out: Outcome)
      requires Inv() && incremental && mk.state == None
      modifies this`sh, this`mem, this`mk, this`just, this`keep, this`lists, this`table, this`entries
      modifies this`attempts, this`deficit, this`gcNo, this`isFull, this`needFull
      ensures out.Aborted? ==> !Fits(incremental, ranges)
      ensures out.Done? ==> Inv() && gcNo >= old(gcNo) && (mk.state == None || Tries(attempts) < Tries(old(attempts)))
    {
      if attempts < MAX_PRIOR_ATTEMPTS && !unlimited {
        var ok :- PartialMark(false);
        if !ok { attempts := attempts + 1; }
      } else {
        var _ :- PartialMark(true);
      }
      out := Done;
    }

    /** One call of GC_mark_some with the mutator running. */
    method MarkOnce() returns (out: Outcome, finished: bool)
      requires Inv() && incremental && mk.state != None
      modifies this`mem, this`mk, this`just
      ensures out.Aborted? ==> !Fits(incremental, ranges)
      ensures out.Done? ==> Inv() && (finished <==> mk.state == None)
      ensures out.Done? && !finished ==> Progress(sh, old(mk), mk)
    {
      Opened();
      just := keep + lists.free;
      finished :- MarkSome();
      StillAtRest(old(mem), old(mk));
      out := Done;
    }

    /** What holds between calls of the collector still does after a call of GC_mark_some,
        since m and k. */
    lemma StillAtRest(m: Mem, k: Marker)
      requires AtRest(incremental, sh, m, k, lists, keep, Fos()) && Filed() && incremental && just == keep + lists.free
      requires MarkInv() && Later(m, mem) && k.marked <= mk.marked && !mk.stopped && mk.aim.Collect?
      ensures Inv()
    {
      MarkOpened();
      ListsLater(sh, m, mem, k, mk, lists, keep);
    }

    /** Work on the collection in progress until it is finished. */
    method FinishInProgress(never: bool) returns (out: Outcome, done: bool)
      requires Inv() && incremental && !dontGc
      modifies this`sh, this`mem, this`mk, this`just, this`keep, this`lists, this`table, this`entries
      modifies this`attempts, this`deficit, this`gcNo, this`isFull, this`needFull, this`nPartial
      ensures out.Aborted? ==> !Fits(incremental, ranges)
      ensures out.Done? ==> Inv() && (if done then mk.state == None else !never)
      ensures out.Done? ==> gcNo >= old(gcNo)
      decreases 1
    {
      done := false;
      while mk.state != None
        invariant Inv() && gcNo >= old(gcNo)
        decreases mk.state != None, Tries(attempts), Unmarked(sh, mk), Rank(mk), Left(sh, mk), Work(mk.stack), deficit
      {
        var stop: bool := *;
        if stop && !never { return Done, false; }
        :- CollectALittle(1);
      }
      return Done, true;
    }

    /** GC_try_to_collect_inner: finish what is in progress, then a full collection
        with the world stopped. */
    method TryToCollect(never: bool) returns (out: Outcome, ok: bool)
      requires Inv()
      modifies this`sh, this`mem, this`mk, this`just, this`keep, this`lists, this`table, this`entries
      modifies this`attempts, this`deficit, this`gcNo, this`isFull, this`needFull, this`nPartial
      ensures out.Aborted? ==> !Fits(incremental, ranges)
      ensures out.Done? ==> Inv() && gcNo >= old(gcNo) && (ok ==> mk.state == None && gcNo > old(gcNo))
      ensures out.Done? && ok ==> lists.free == {} && SortedBelow(sh, mk.marked, lists, sh.lastBlock + 1)
      ensures out.Done? && never && !dontGc ==> ok
      decreases if incremental then 2 else 1
    {
      ok := false;
      if dontGc { return Done, false; }
      if incremental && mk.state != None {
        var done :- FinishInProgress(never);
        if !done { return Done, false; }
      }
      if !never {
        var swept := ReclaimAll(true, false);
        if !swept { return Done, false; }
      }
      isFull := true;
      ok :- FullCollection(never);
      out := Done;
    }

    /** A full collection with the marks and the mark stack cleared first.  If it
        cannot be given up it does not matter what waits to be swept. */
    method FullCollection(never: bool) returns (out: Outcome, ok: bool)
      requires Inv() && (never || lists.reclaim == {})
      modifies this`sh, this`mem, this`mk, this`just, this`keep, this`lists, this`table, this`entries
      modifies this`attempts, this`deficit, this`gcNo, this`isFull, this`needFull
      ensures out.Aborted? ==> !Fits(incremental, ranges)
      ensures out.Done? ==> Inv() && gcNo >= old(gcNo) && (never ==> ok)
      ensures out.Done? && ok ==> mk.state == None && gcNo > old(gcNo)
      ensures out.Done? && ok ==> lists.free == {} && SortedBelow(sh, mk.marked, lists, sh.lastBlock + 1)
    {
      Opened();
      InvalidateMarkState();
      ClearMarks();
      ok :- MarkAndFinish(never);
      if !ok && !incremental { InvalidateMarkState(); }
      out := Done;
    }

    // -------------------------------------------------------------- allocation and whole runs

    /** Take object o off its free list and hand it to the mutator: it was not
        reachable before and holds no pointers. */
    method Alloc(o: int)
      requires Inv() && o in lists.free
      modifies this`mem, this`lists, this`keep
      ensures Inv() && o in mem.regs
      ensures o !in old(mem.R()) && mem.R() <= old(mem.R()) + {o}
      ensures forall v :: v in mem.words[o] ==> v !in mem.words
      ensures mem.words == old(mem).words[o := mem.words[o]]
    {
      Opened();
      AllocKeeps(incremental, sh, mem, mk, lists, o, keep, Fos());
      AllocReach(sh, mem, lists, o, incremental);
      mem := Allocated(sh, mem, o, incremental);
      lists, keep := lists.(free := lists.free - {o}), keep + {o};
    }

    /** GC_new_hblk: divide a block fresh from the heap into free objects. */
    method NewBlock(b: nat, os: seq<int>, n: nat, unc: bool, small: bool)
      requires Inv() && 0 < b && b !in sh.objs && |os| <= MAX_BLOCK_OBJS && 0 !in os
      requires (forall o :: o in os ==> o !in sh.size) && Unmentioned(mem, os)
      modifies this`sh, this`mem, this`mk, this`lists
      ensures Inv() && SameToMutator(old(sh), sh, old(mem), mem)
      ensures lists == old(lists).(free := old(lists).free + (set o | o in os))
      ensures mk == old(mk).(marked := mk.marked)
    {
      var sh1, mem1, marked := BuildBlock(b, os, n, unc, small);
      sh, mem, mk, lists := sh1, mem1, mk.(marked := marked), lists.(free := lists.free + (set o | o in os));
    }

    /** The headers, the memory and the marks with the new block. */
    method BuildBlock(b: nat, os: seq<int>, n: nat, unc: bool, small: bool)
      returns (sh': Shape, mem': Mem, marked: set<int>)
      requires Inv() && 0 < b && b !in sh.objs && |os| <= MAX_BLOCK_OBJS && 0 !in os
      requires (forall o :: o in os ==> o !in sh.size) && Unmentioned(mem, os)
      ensures AtRest(incremental, sh', mem', mk.(marked := marked), lists.(free := lists.free + (set o | o in os)),
                     keep, Fos())
      ensures RangesOK(ranges, |mem'.statics|) && Filed() && SameToMutator(sh, sh', mem, mem')
    {
      Opened();
      var head: int := *;
      if head !in lists.free { head := 0; }
      sh', mem' := WithBlock(sh, b, os, n, unc, small), WithNew(mem, b, os, n, head, incremental);
      marked := if unc then mk.marked + (set o | o in os) else mk.marked;
      WithBlockKeeps(incremental, sh, mem, mk, mk.(marked := marked), lists, b, os, n, unc, small, head, keep, Fos());
    }

    /** Any run of mutator steps, allocations, lazy sweeps and collections: at
        every point nothing on a free list, and nothing a later sweep would put
        there, can be reached.  If the static data fits the mark stack the program is
        not aborted. */
    method Run(ops: seq<Op>) returns (out: Outcome)
      requires Inv()
      modifies this`sh, this`mem, this`mk, this`just, this`keep, this`lists, this`table, this`entries
      modifies this`attempts, this`deficit, this`gcNo, this`isFull, this`needFull, this`nPartial
      ensures out.Aborted? ==> !Fits(incremental, ranges)
      ensures out.Done? ==> Inv()
    {
      for k := 0 to |ops|
        invariant Inv()
      {
        out := Do(ops[k]);
        if out.Aborted? { return; }
      }
      out := Done;
    }

    method Do(op: Op) returns (out: Outcome)
      requires Inv()
      modifies this`sh, this`mem, this`mk, this`just, this`keep, this`lists, this`table, this`entries
      modifies this`attempts, this`deficit, this`gcNo, this`isFull, this`needFull, this`nPartial
      ensures out.Aborted? ==> !Fits(incremental, ranges)
      ensures out.Done? ==> Inv()
    {
      match op {
        case Mutators => MutatorRuns();
        case Take(o) => if o in lists.free { Alloc(o); }
        case Grow(b, os, n, unc, small) =>
          if 0 < b && b !in sh.objs && |os| <= MAX_BLOCK_OBJS && 0 !in os && Nowhere(mem, os) {
            NewBlock(b, os, n, unc, small);
          }
        case Finalizer(r, remove) =>
          if r < |mem.regs| && mem.regs[r] in mem.words && |table| > 0 { Register(mem.regs[r], remove); }
        case SweepSome(bs) => ContinueReclaim(bs * lists.reclaim);
        case Little(n) => :- CollectALittle(n);
        case Full(never) => var _ :- TryToCollect(never);
      }
      out := Done;
    }
  }
}
