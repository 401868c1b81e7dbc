/** Marking from the stack as a function, for memory nobody writes to: what
    GC_mark_from does to objects the mutator cannot reach. */
module Tracing {
  import opened Graph
  import opened Marking
  import opened SetSizes

  /** The marker after words lo..hi of s have been examined. */
  function ScanWords(sh: Shape, mem: Mem, mk: Marker, s: Src, lo: nat, hi: nat): (r: Marker)
    requires MARK_STACK_DISCARDS <= mk.limit
    ensures r.limit == mk.limit
    decreases hi
  {
    if hi <= lo then mk else PushContents(sh, ScanWords(sh, mem, mk, s, lo, hi - 1), ReadWord(mem, s, hi - 1))
  }

  /** Up to where the top entry is scanned at once. */
  function Part(e: Entry): nat {
    if e.hi - e.lo >= SPLIT_RANGE_WORDS then e.lo + SPLIT_RANGE_WORDS - 1 else e.hi
  }

  /** The marker after the top entry, or the first part of it, has been scanned. */
  function TopScan(sh: Shape, mem: Mem, mk: Marker): (r: Marker)
    requires MARK_STACK_DISCARDS <= mk.limit && mk.stack != []
  {
    var e := mk.stack[|mk.stack| - 1];
    ScanWords(sh, mem, mk.(stack := Cut(mk.stack, Part(e))), e.src, e.lo, Part(e))
  }

  /** Words that are no objects change nothing. */
  lemma {:induction false} ScanSkip(sh: Shape, mem: Mem, mk: Marker, s: Src, lo: nat, k: nat, hi: nat)
    requires MARK_STACK_DISCARDS <= mk.limit && lo <= k <= hi
    requires forall j :: k <= j < hi ==> ReadWord(mem, s, j) !in sh.size
    ensures ScanWords(sh, mem, mk, s, lo, hi) == ScanWords(sh, mem, mk, s, lo, k)
    decreases hi
  {
    if k < hi { ScanSkip(sh, mem, mk, s, lo, k, hi - 1); }
  }

  // ---------------------------------------------------------------- growth of the stack

  /** The stack grows by no more than the number of objects newly marked, and does
      not overflow before that number exceeds the room there was. */
  ghost predicate Room(m: Marker, m': Marker) {
    && (m'.state == m.state ==> |m'.stack| + |m.marked| <= |m.stack| + |m'.marked|)
    && (m'.state != m.state ==> m.limit + |m.marked| < |m.stack| + |m'.marked|)
  }

  lemma RoomTrans(a: Marker, b: Marker, c: Marker)
    requires Room(a, b) && Room(b, c) && a.limit == b.limit
    requires a.marked <= b.marked <= c.marked
    requires c.state == b.state || c.state == Invalid
    requires b.state == a.state || b.state == Invalid
    requires |b.stack| <= b.limit
    ensures Room(a, c)
  {
    SubsetCount(a.marked, b.marked);
    SubsetCount(b.marked, c.marked);
  }

  lemma RoomPush(sh: Shape, mk: Marker, v: int)
    requires MARK_STACK_DISCARDS <= mk.limit && |mk.stack| <= mk.limit
    ensures Room(mk, PushContents(sh, mk, v))
  {
    if v in sh.size && v !in mk.marked { assert |mk.marked + {v}| == |mk.marked| + 1; }
  }

  // ---------------------------------------------------------------- whole traces

  /** One scan of the top entry leads from a to b. */
  ghost predicate StepTo(sh: Shape, mem: Mem, a: Marker, b: Marker) {
    a.stack != [] && MARK_STACK_DISCARDS <= a.limit && b == TopScan(sh, mem, a)
  }

  ghost predicate IsStep(sh: Shape, mem: Mem, tr: seq<Marker>, i: int) {
    0 <= i < |tr| - 1 ==> StepTo(sh, mem, tr[i], tr[i + 1])
  }

  ghost predicate IsTrace(sh: Shape, mem: Mem, tr: seq<Marker>) {
    |tr| > 0 && forall i {:trigger IsStep(sh, mem, tr, i)} :: IsStep(sh, mem, tr, i)
  }

  ghost predicate TraceOf(sh: Shape, mem: Mem, a: Marker, b: Marker, tr: seq<Marker>) {
    IsTrace(sh, mem, tr) && tr[0] == a && tr[|tr| - 1] == b
  }

  /** Scanning the top of the stack again and again leads from a to b. */
  ghost predicate TracesTo(sh: Shape, mem: Mem, a: Marker, b: Marker) {
    exists tr :: TraceOf(sh, mem, a, b, tr)
  }

  lemma TraceNone(sh: Shape, mem: Mem, a: Marker)
    ensures TracesTo(sh, mem, a, a)
  {
    assert TraceOf(sh, mem, a, a, [a]);
  }

  lemma TraceStep(sh: Shape, mem: Mem, a: Marker, b: Marker)
    requires StepTo(sh, mem, a, b)
    ensures TracesTo(sh, mem, a, b)
  {
    assert TraceOf(sh, mem, a, b, [a, b]);
  }

  lemma TraceJoin(sh: Shape, mem: Mem, a: Marker, b: Marker, c: Marker)
    requires TracesTo(sh, mem, a, b) && TracesTo(sh, mem, b, c)
    ensures TracesTo(sh, mem, a, c)
  {
    var t :| TraceOf(sh, mem, a, b, t);
    var u :| TraceOf(sh, mem, b, c, u);
    var w := t + u[1..];
    forall i ensures IsStep(sh, mem, w, i) {
      if 0 <= i < |t| - 1 {
        assert IsStep(sh, mem, t, i);
      } else if |t| - 1 <= i < |w| - 1 {
        assert IsStep(sh, mem, u, i - |t| + 1);
        assert w[i] == u[i - |t| + 1];
      }
    }
    assert TraceOf(sh, mem, a, c, w);
  }

  lemma TraceMore(sh: Shape, mem: Mem, a: Marker, b: Marker, c: Marker)
    requires TracesTo(sh, mem, a, b) && StepTo(sh, mem, b, c)
    ensures TracesTo(sh, mem, a, c)
  {
    TraceStep(sh, mem, b, c);
    TraceJoin(sh, mem, a, b, c);
  }

  /** Two traces from the same start agree as far as both go. */
  lemma {:induction false} TraceAgree(sh: Shape, mem: Mem, t: seq<Marker>, u: seq<Marker>, i: nat)
    requires IsTrace(sh, mem, t) && IsTrace(sh, mem, u) && t[0] == u[0] && i < |t| && i < |u|
    ensures t[i] == u[i]
  {
    if i > 0 {
      TraceAgree(sh, mem, t, u, i - 1);
      assert IsStep(sh, mem, t, i - 1) && IsStep(sh, mem, u, i - 1);
    }
  }

  /** No trace goes on where another has come to an end. */
  lemma TraceEnds(sh: Shape, mem: Mem, t: seq<Marker>, u: seq<Marker>)
    requires IsTrace(sh, mem, t) && IsTrace(sh, mem, u) && t[0] == u[0] && t[|t| - 1].stack == []
    ensures |u| <= |t|
  {
    if |t| <= |u| {
      TraceAgree(sh, mem, t, u, |t| - 1);
      assert IsStep(sh, mem, u, |t| - 1);
    }
  }

  lemma {:induction false} ScanInvalid(sh: Shape, mem: Mem, mk: Marker, s: Src, lo: nat, hi: nat)
    requires MARK_STACK_DISCARDS <= mk.limit && mk.state == Invalid
    ensures ScanWords(sh, mem, mk, s, lo, hi).state == Invalid
    decreases hi
  {
    if lo < hi { ScanInvalid(sh, mem, mk, s, lo, hi - 1); }
  }

  /** An invalid state stays invalid. */
  lemma {:induction false} TraceInvalid(sh: Shape, mem: Mem, tr: seq<Marker>, i: nat, j: nat)
    requires IsTrace(sh, mem, tr) && i <= j < |tr| && tr[i].state == Invalid
    ensures tr[j].state == Invalid
    decreases j
  {
    if i < j {
      TraceInvalid(sh, mem, tr, i, j - 1);
      assert IsStep(sh, mem, tr, j - 1);
      var mk := tr[j - 1];
      var e := mk.stack[|mk.stack| - 1];
      ScanInvalid(sh, mem, mk.(stack := Cut(mk.stack, Part(e))), e.src, e.lo, Part(e));
    }
  }

  /** Does marking from p, with these marks and this stack, overflow the stack? */
  ghost predicate Overflows(sh: Shape, mem: Mem, mk: Marker, p: int)
    requires MARK_STACK_DISCARDS <= mk.limit && p in sh.size
  {
    exists r: Marker :: r.state == Invalid && TracesTo(sh, mem, PushObj(sh, mk.(aim := Final(p)), p), r)
  }

  /** A trace that has come to an end has overflowed exactly if some trace does. */
  lemma TraceDecides(sh: Shape, mem: Mem, a: Marker, b: Marker)
    requires TracesTo(sh, mem, a, b) && b.stack == []
    ensures (exists r: Marker :: r.state == Invalid && TracesTo(sh, mem, a, r)) <==> b.state == Invalid
  {
    forall r: Marker | r.state == Invalid && TracesTo(sh, mem, a, r) ensures b.state == Invalid {
      var t :| TraceOf(sh, mem, a, b, t);
      var u :| TraceOf(sh, mem, a, r, u);
      TraceEnds(sh, mem, t, u);
      TraceAgree(sh, mem, t, u, |u| - 1);
      TraceInvalid(sh, mem, t, |u| - 1, |t| - 1);
    }
  }

  // ---------------------------------------------------------------- memory nobody writes to

  /** The words of s stay as they are: the world is stopped, or s is an object the
      mutator cannot reach. */
  ghost predicate Still(mem: Mem, mk: Marker, s: Src) { mk.stopped || (s.Object? && s.o !in mem.R()) }

  lemma StillLater(mem: Mem, mem': Mem, mk: Marker, s: Src, i: int)
    requires Still(mem, mk, s) && Later(mem, mem') && (mk.stopped ==> mem' == mem)
    ensures Still(mem', mk, s) && ReadWord(mem', s, i) == ReadWord(mem, s, i)
  {
  }

  lemma {:induction false} ScanSame(sh: Shape, mem: Mem, mem': Mem, mk: Marker, s: Src, lo: nat, hi: nat)
    requires MARK_STACK_DISCARDS <= mk.limit && s.Object? && s.o !in mem.R() && Later(mem, mem')
    ensures ScanWords(sh, mem', mk, s, lo, hi) == ScanWords(sh, mem, mk, s, lo, hi)
    decreases hi
  {
    if lo < hi { ScanSame(sh, mem, mem', mk, s, lo, hi - 1); }
  }

  lemma TopSame(sh: Shape, mem: Mem, mem': Mem, mk: Marker)
    requires MARK_STACK_DISCARDS <= mk.limit && mk.stack != [] && Later(mem, mem')
    requires var s := mk.stack[|mk.stack| - 1].src; s.Object? && s.o !in mem.R()
    ensures TopScan(sh, mem', mk) == TopScan(sh, mem, mk)
  {
    var e := mk.stack[|mk.stack| - 1];
    ScanSame(sh, mem, mem', mk.(stack := Cut(mk.stack, Part(e))), e.src, e.lo, Part(e));
  }

  /** No entry of the stack belongs to R. */
  ghost predicate Hidden(mk: Marker, R: set<int>) {
    R <= mk.marked && forall e {:trigger e in mk.stack} :: e in mk.stack ==> e.src.Object? && e.src.o !in R
  }

  lemma {:induction false} ScanHidden(sh: Shape, mem: Mem, mk: Marker, s: Src, lo: nat, hi: nat, R: set<int>)
    requires MARK_STACK_DISCARDS <= mk.limit && Hidden(mk, R)
    ensures Hidden(ScanWords(sh, mem, mk, s, lo, hi), R)
    decreases hi
  {
    if lo < hi {
      ScanHidden(sh, mem, mk, s, lo, hi - 1, R);
      var m, v := ScanWords(sh, mem, mk, s, lo, hi - 1), ReadWord(mem, s, hi - 1);
      forall e | e in PushContents(sh, m, v).stack ensures e.src.Object? && e.src.o !in R {
        if e in m.stack {}
      }
    }
  }

  /** What is marked anew is not in R, if all of R is marked. */
  lemma TopHidden(sh: Shape, mem: Mem, mk: Marker, R: set<int>)
    requires MARK_STACK_DISCARDS <= mk.limit && mk.stack != [] && Hidden(mk, R)
    ensures Hidden(TopScan(sh, mem, mk), R)
  {
    var e := mk.stack[|mk.stack| - 1];
    var m := mk.(stack := Cut(mk.stack, Part(e)));
    assert e in mk.stack;
    forall f | f in m.stack ensures f.src.Object? && f.src.o !in R {
      if f in mk.stack {}
    }
    ScanHidden(sh, mem, m, e.src, e.lo, Part(e), R);
  }

  /** Since memory was m0 everything on the stack has been hidden from the mutator. */
  ghost predicate Concealed(m0: Mem, m: Mem, k: Marker) {
    Later(m0, m) && !k.stopped && Hidden(k, m0.R())
  }

  /** What is hidden at first stays so, and a trace has led from k to k'. */
  ghost predicate Onward(sh: Shape, m0: Mem, m: Mem, k: Marker, m': Mem, k': Marker) {
    Concealed(m0, m, k) ==> Concealed(m0, m', k') && TracesTo(sh, m0, k, k')
  }

  lemma OnwardNone(sh: Shape, m0: Mem, m: Mem, k: Marker)
    ensures Onward(sh, m0, m, k, m, k)
  {
    TraceNone(sh, m0, k);
  }

  lemma OnwardTrans(sh: Shape, m0: Mem, m: Mem, k: Marker, m': Mem, k': Marker, m'': Mem, k'': Marker)
    requires Onward(sh, m0, m, k, m', k') && Onward(sh, m0, m', k', m'', k'')
    ensures Onward(sh, m0, m, k, m'', k'')
  {
    if Concealed(m0, m, k) { TraceJoin(sh, m0, k, k', k''); }
  }

  lemma OnwardTop(sh: Shape, m0: Mem, m: Mem, k: Marker, m': Mem, k': Marker)
    requires k.stack != [] && Later(m, m') && k'.stopped == k.stopped && MARK_STACK_DISCARDS <= k.limit
    requires Still(m, k, k.stack[|k.stack| - 1].src) ==> k' == TopScan(sh, m, k)
    ensures Onward(sh, m0, m, k, m', k')
  {
    if Concealed(m0, m, k) {
      var e := k.stack[|k.stack| - 1];
      assert e in k.stack;
      TopSame(sh, m0, m, k);
      LaterTrans(m0, m, m');
      TopHidden(sh, m0, k, m0.R());
      TraceStep(sh, m0, k, k');
    }
  }

  /** Once the stack is empty it is known whether the trace from p overflows. */
  lemma DrainDecides(sh: Shape, m0: Mem, k: Marker, m1: Mem, pushed: Marker, m: Mem, mk: Marker, p: int)
    requires MARK_STACK_DISCARDS <= k.limit && p in sh.size && pushed == PushObj(sh, k.(aim := Final(p)), p)
    requires Concealed(m0, m1, pushed) && Onward(sh, m0, m1, pushed, m, mk) && mk.stack == []
    ensures Overflows(sh, m0, k, p) <==> mk.state == Invalid
  {
    TraceDecides(sh, m0, pushed, mk);
  }

  /** If s stays as it is, mk is k0 after words lo..hi of s, as they are in mem. */
  ghost predicate AsIf(sh: Shape, mem: Mem, k0: Marker, mk: Marker, s: Src, lo: nat, hi: nat) {
    Still(mem, k0, s) && MARK_STACK_DISCARDS <= k0.limit ==> mk == ScanWords(sh, mem, k0, s, lo, hi)
  }

  lemma AsIfNext(sh: Shape, mem: Mem, mem': Mem, k0: Marker, mk: Marker, mk': Marker, s: Src, lo: nat, i: nat)
    requires AsIf(sh, mem, k0, mk, s, lo, i) && lo <= i && AsIf(sh, mem', mk, mk', s, i, i + 1)
    requires Later(mem, mem') && k0.stopped == mk.stopped && k0.limit == mk.limit && (mk.stopped ==> mem' == mem)
    ensures AsIf(sh, mem, k0, mk', s, lo, i + 1)
  {
    if Still(mem, k0, s) && MARK_STACK_DISCARDS <= k0.limit {
      StillLater(mem, mem', mk, s, i);
      assert ScanWords(sh, mem', mk, s, i, i) == mk;
    }
  }

  // ---------------------------------------------------------------- heaps that overflow the stack

  /** A comb: node c[i] points to the leaf l[i] and then to the next node.  Nothing
      of it is marked, and its leaves and its last node hold no pointers. */
  ghost predicate Comb(sh: Shape, h: Heap, marked: set<int>, c: seq<int>, l: seq<int>) {
    && |c| == |l| + 1 && 0 !in h
    && (forall i {:trigger c[i]} :: 0 <= i < |c| ==> Bare(sh, h, marked, c[i], if i < |l| then 2 else 1))
    && (forall i {:trigger l[i]} :: 0 <= i < |l| ==> Bare(sh, h, marked, l[i], 1) && h[l[i]] == [0])
    && (forall i {:trigger l[i]} :: 0 <= i < |l| ==> c[i] in h && h[c[i]] == [l[i], c[i + 1]])
    && h[c[|l|]] == [0]
    && (forall i, j {:trigger c[i], c[j]} :: 0 <= i < j < |c| ==> c[i] != c[j])
    && (forall i, j {:trigger l[i], l[j]} :: 0 <= i < j < |l| ==> l[i] != l[j])
    && (forall i, j {:trigger c[i], l[j]} :: 0 <= i < |c| && 0 <= j < |l| ==> c[i] != l[j])
  }

  ghost predicate Bare(sh: Shape, h: Heap, marked: set<int>, o: int, n: nat) {
    o in h && o in sh.size && sh.size[o] == n && o !in marked
  }

  /** Elements a..b of s. */
  ghost function Some(s: seq<int>, a: nat, b: nat): (r: set<int>)
    requires a <= b <= |s|
    ensures a == b ==> r == {}
  {
    set j | a <= j < b :: s[j]
  }

  /** The marker when it has come to node c[i]: leaves 0..i wait on the stack. */
  ghost function Level(mk: Marker, c: seq<int>, l: seq<int>, i: nat): Marker
    requires i < |c| && i <= |l|
  {
    mk.(marked := mk.marked + Some(l, 0, i) + Some(c, 1, i + 1),
    stack := seq(i, j requires 0 <= j < i => Entry(Object(l[j]), 0, 1)) + [Entry(Object(c[i]), 0, 2)])
  }

  /** Scanning node c[i] pushes its leaf and then the next node. */
  lemma LevelScan(sh: Shape, mem: Mem, mk: Marker, c: seq<int>, l: seq<int>, i: nat)
    requires Comb(sh, mem.words, mk.marked, c, l) && i < |l| && MARK_STACK_DISCARDS <= mk.limit
    ensures var m := Level(mk, c, l, i);
            TopScan(sh, mem, m) == PushContents(sh, PushContents(sh, m.(stack := m.stack[..i]), l[i]), c[i + 1])
  {
    var m := Level(mk, c, l, i);
    var m1 := m.(stack := m.stack[..i]);
    var s := Object(c[i]);
    assert mem.words[c[i]] == [l[i], c[i + 1]];
    assert m.stack[|m.stack| - 1] == Entry(s, 0, 2) && Cut(m.stack, 2) == m.stack[..i];
    assert ScanWords(sh, mem, m1, s, 0, 0) == m1;
    assert ScanWords(sh, mem, m1, s, 0, 1) == PushContents(sh, m1, l[i]);
  }

  /** The leaf and the next node were not marked before. */
  lemma LevelNew(sh: Shape, h: Heap, mk: Marker, c: seq<int>, l: seq<int>, i: nat)
    requires Comb(sh, h, mk.marked, c, l) && i < |l|
    ensures l[i] !in Level(mk, c, l, i).marked && c[i + 1] !in Level(mk, c, l, i).marked && c[i + 1] != l[i]
    ensures Level(mk, c, l, i + 1).marked == Level(mk, c, l, i).marked + {l[i]} + {c[i + 1]}
  {
    var m := Level(mk, c, l, i);
    assert Bare(sh, h, mk.marked, l[i], 1) && Bare(sh, h, mk.marked, c[i + 1], if i + 1 < |l| then 2 else 1);
    forall j | 0 <= j < i ensures l[j] != l[i] && l[j] != c[i + 1] {}
    forall j | 0 < j <= i ensures c[j] != l[i] && c[j] != c[i + 1] {}
    assert Some(l, 0, i + 1) == Some(l, 0, i) + {l[i]};
    assert Some(c, 1, i + 2) == Some(c, 1, i + 1) + {c[i + 1]};
  }

  /** As long as there is room the stack gains one entry with each level. */
  lemma LevelStep(sh: Shape, mem: Mem, mk: Marker, c: seq<int>, l: seq<int>, i: nat)
    requires Comb(sh, mem.words, mk.marked, c, l) && i + 1 < |l| && i + 1 < mk.limit && MARK_STACK_DISCARDS <= mk.limit
    ensures StepTo(sh, mem, Level(mk, c, l, i), Level(mk, c, l, i + 1))
  {
    LevelScan(sh, mem, mk, c, l, i);
    LevelNew(sh, mem.words, mk, c, l, i);
    var m, m' := Level(mk, c, l, i), Level(mk, c, l, i + 1);
    assert Bare(sh, mem.words, mk.marked, l[i], 1) && Bare(sh, mem.words, mk.marked, c[i + 1], 2);
    assert m'.stack == m.stack[..i] + [Entry(Object(l[i]), 0, 1)] + [Entry(Object(c[i + 1]), 0, 2)];
  }

  /** With the stack full of leaves the next node does not fit. */
  lemma LevelFull(sh: Shape, mem: Mem, mk: Marker, c: seq<int>, l: seq<int>, i: nat)
    requires Comb(sh, mem.words, mk.marked, c, l) && i < |l| && i + 1 == mk.limit && MARK_STACK_DISCARDS <= mk.limit
    ensures TopScan(sh, mem, Level(mk, c, l, i)).state == Invalid
  {
    LevelScan(sh, mem, mk, c, l, i);
    LevelNew(sh, mem.words, mk, c, l, i);
    assert Bare(sh, mem.words, mk.marked, l[i], 1);
    assert Bare(sh, mem.words, mk.marked, c[i + 1], if i + 1 < |l| then 2 else 1);
  }

  lemma {:induction false} LevelTrace(sh: Shape, mem: Mem, mk: Marker, c: seq<int>, l: seq<int>, i: nat)
    requires Comb(sh, mem.words, mk.marked, c, l) && i < |l| && i < mk.limit && MARK_STACK_DISCARDS <= mk.limit
    ensures TracesTo(sh, mem, Level(mk, c, l, 0), Level(mk, c, l, i))
  {
    if i == 0 {
      TraceNone(sh, mem, Level(mk, c, l, 0));
    } else {
      LevelTrace(sh, mem, mk, c, l, i - 1);
      LevelStep(sh, mem, mk, c, l, i - 1);
      TraceMore(sh, mem, Level(mk, c, l, 0), Level(mk, c, l, i - 1), Level(mk, c, l, i));
    }
  }

  /** Marking from the first node of a comb that is as long as the stack overflows
      it, although nothing points to that node. */
  lemma CombOverflows(sh: Shape, mem: Mem, mk: Marker, c: seq<int>, l: seq<int>)
    requires Comb(sh, mem.words, mk.marked, c, l) && |l| >= mk.limit >= MARK_STACK_DISCARDS && mk.stack == []
    ensures c[0] in sh.size && Overflows(sh, mem, mk, c[0])
    ensures c[0] !in Reach(mem.words, {l[0], c[1]}) && mem.words[c[0]] == [l[0], c[1]]
  {
    var m, n := mk.(aim := Final(c[0])), mk.limit - 1;
    assert Bare(sh, mem.words, mk.marked, c[0], 2);
    assert PushObj(sh, m, c[0]) == Level(m, c, l, 0);
    LevelTrace(sh, mem, m, c, l, n);
    LevelFull(sh, mem, m, c, l, n);
    var r := TopScan(sh, mem, Level(m, c, l, n));
    TraceStep(sh, mem, Level(m, c, l, n), r);
    TraceJoin(sh, mem, Level(m, c, l, 0), Level(m, c, l, n), r);
    CombUnreached(sh, mem.words, mk.marked, c, l);
  }

  lemma CombUnreached(sh: Shape, h: Heap, marked: set<int>, c: seq<int>, l: seq<int>)
    requires Comb(sh, h, marked, c, l) && |l| > 0
    ensures c[0] !in Reach(h, {l[0], c[1]})
  {
    var S := Some(l, 0, |l|) + Some(c, 1, |c|);
    forall o, v | o in S && o in h && v in h[o] && v in h ensures v in S {
      if j :| 0 < j < |c| && o == c[j] {
        if j < |l| {
          assert h[c[j]] == [l[j], c[j + 1]];
          assert l[j] in S && c[j + 1] in S;
        }
      }
    }
    assert l[0] in S && c[1] in S;
    ReachLeast(h, {l[0], c[1]}, S);
    forall j | 0 <= j < |l| ensures l[j] != c[0] {}
    forall j | 0 < j < |c| ensures c[j] != c[0] {}
  }

  // ---------------------------------------------------------------- wide objects do not

  /** No word of o is the address of an object. */
  ghost predicate Leaf(sh: Shape, mem: Mem, o: int) {
    forall i {:trigger ReadWord(mem, Object(o), i)} :: ReadWord(mem, Object(o), i) !in sh.size
  }

  /** An object that points to leaves only. */
  ghost predicate Fan(sh: Shape, mem: Mem, p: int) {
    forall i {:trigger ReadWord(mem, Object(p), i)} ::
      ReadWord(mem, Object(p), i) in sh.size ==> Leaf(sh, mem, ReadWord(mem, Object(p), i))
  }

  ghost predicate LeafEntry(sh: Shape, mem: Mem, e: Entry) { e.src.Object? && Leaf(sh, mem, e.src.o) }

  /** Leaves on top of what is left of p, if anything; no more than come from the
      words of p that are scanned at once. */
  ghost predicate Fanned(sh: Shape, mem: Mem, p: int, m: Marker) {
    && m.state == None && MARK_STACK_DISCARDS <= m.limit && |m.stack| <= SPLIT_RANGE_WORDS
    && (forall i {:trigger m.stack[i]} :: 0 < i < |m.stack| ==> LeafEntry(sh, mem, m.stack[i]))
    && (m.stack != [] ==> m.stack[0].src == Object(p) || LeafEntry(sh, mem, m.stack[0]))
  }

  /** Scanning words that lead to leaves adds entries of leaves, one a word at most. */
  lemma {:induction false} ScanFan(sh: Shape, mem: Mem, p: int, m: Marker, lo: nat, hi: nat)
    requires Fan(sh, mem, p) && MARK_STACK_DISCARDS <= m.limit && m.state == None && lo <= hi
    requires |m.stack| + (hi - lo) <= SPLIT_RANGE_WORDS
    requires forall i {:trigger m.stack[i]} :: 0 < i < |m.stack| ==> LeafEntry(sh, mem, m.stack[i])
    ensures var r := ScanWords(sh, mem, m, Object(p), lo, hi);
            && r.state == None && |r.stack| <= |m.stack| + (hi - lo) && m.stack <= r.stack
            && (forall i {:trigger r.stack[i]} :: |m.stack| <= i < |r.stack| ==> LeafEntry(sh, mem, r.stack[i]))
    decreases hi
  {
    if lo < hi { ScanFan(sh, mem, p, m, lo, hi - 1); }
  }

  /** Scanning a leaf adds nothing. */
  lemma {:induction false} ScanLeaf(sh: Shape, mem: Mem, m: Marker, s: Src, lo: nat, hi: nat)
    requires MARK_STACK_DISCARDS <= m.limit && s.Object? && Leaf(sh, mem, s.o)
    ensures ScanWords(sh, mem, m, s, lo, hi) == m
    decreases hi
  {
    if lo < hi { ScanLeaf(sh, mem, m, s, lo, hi - 1); }
  }

  lemma FanStep(sh: Shape, mem: Mem, p: int, m: Marker)
    requires Fan(sh, mem, p) && Fanned(sh, mem, p, m) && m.stack != []
    ensures Fanned(sh, mem, p, TopScan(sh, mem, m))
  {
    var n := |m.stack| - 1;
    var e := m.stack[n];
    var m1 := m.(stack := Cut(m.stack, Part(e)));
    assert forall i :: 0 <= i < n ==> m1.stack[i] == m.stack[i];
    assert |m1.stack| == n + 1 ==> m1.stack[n].src == e.src;
    if LeafEntry(sh, mem, e) {
      ScanLeaf(sh, mem, m1, e.src, e.lo, Part(e));
    } else {
      if e.lo <= Part(e) { ScanFan(sh, mem, p, m1, e.lo, Part(e)); }
    }
  }

  lemma {:induction false} FanTrace(sh: Shape, mem: Mem, p: int, tr: seq<Marker>, i: nat)
    requires IsTrace(sh, mem, tr) && Fan(sh, mem, p) && Fanned(sh, mem, p, tr[0]) && i < |tr|
    ensures Fanned(sh, mem, p, tr[i])
  {
    if i > 0 {
      FanTrace(sh, mem, p, tr, i - 1);
      assert IsStep(sh, mem, tr, i - 1);
      FanStep(sh, mem, p, tr[i - 1]);
    }
  }

  /** Marking from an object that points to leaves only does not overflow the stack,
      however many they are: its words are scanned a part at a time. */
  lemma FanFits(sh: Shape, mem: Mem, mk: Marker, p: int)
    requires Fan(sh, mem, p) && p in sh.size && mk.stack == [] && mk.state == None && MARK_STACK_DISCARDS <= mk.limit
    ensures !Overflows(sh, mem, mk, p)
  {
    var m := PushObj(sh, mk.(aim := Final(p)), p);
    assert Fanned(sh, mem, p, m);
    forall r: Marker | TracesTo(sh, mem, m, r) ensures r.state != Invalid {
      var tr :| TraceOf(sh, mem, m, r, tr);
      FanTrace(sh, mem, p, tr, |tr| - 1);
    }
  }
}
