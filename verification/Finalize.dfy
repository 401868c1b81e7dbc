/** Finalization in the order of pointers: what GC_finalize marks and enqueues, for
    normal mark procedures. */
module Finalization {
  import opened Graph
  import opened Marking
  import opened Tracing

  ghost function Elems(s: seq<int>): set<int> { set x | x in s }

  /** The objects v for which there is a pointer to v among the words of p. */
  ghost function WordsOf(h: Heap, p: int): set<int> { if p in h then Elems(h[p]) else {} }

  /** All words of the registered objects that are not marked. */
  ghost function Sources(h: Heap, marked: set<int>, fos: set<int>): set<int> {
    set p, v | p in fos && p !in marked && p in h && v in h[p] :: v
  }

  /** What is marked once everything has been marked that can be reached by one or
      more pointers from an unmarked registered object. */
  ghost function MarkedThrough(h: Heap, marked: set<int>, fos: set<int>): set<int> {
    marked + Reach(h, Sources(h, marked, fos))
  }

  /** What is marked after GC_MARK_FO(p); if the stack overflows p is marked too. */
  ghost function MarkedFo(h: Heap, marked: set<int>, p: int, over: bool): set<int> {
    marked + Reach(h, WordsOf(h, p)) + if over then {p} else {}
  }

  /** At least limit unmarked objects can be reached from p by one or more pointers. */
  ghost predicate Heavy(h: Heap, marked: set<int>, limit: nat, p: int) {
    |Reach(h, WordsOf(h, p)) - marked| >= limit
  }

  lemma LeadsTo(h: Heap, from: set<int>, marked: set<int>, o: int, v: int)
    requires Leads(h, from, marked) && o in from && o in h && v in h[o] && v in h
    ensures v in marked
  {
    var i :| 0 <= i < |h[o]| && h[o][i] == v;
    assert Word(h, o, i) == v;
  }

  lemma IsLeads(h: Heap, from: set<int>, marked: set<int>)
    requires forall o, v {:trigger v in h[o]} :: o in from && o in h && v in h[o] && v in h ==> v in marked
    ensures Leads(h, from, marked)
  {
    forall o, i | o in from && IsPtr(h, o, i) ensures Word(h, o, i) in marked { assert h[o][i] in h[o]; }
  }

  // ---------------------------------------------------------------- reachability

  lemma ReachMono(h: Heap, a: set<int>, b: set<int>)
    requires a <= b
    ensures Reach(h, a) <= Reach(h, b)
  {
    forall v | v in a && v in h ensures v in Reach(h, b) { ReachRoot(h, b, v); }
    forall o, v | o in Reach(h, b) && o in Reach(h, a) && v in h[o] && v in h
      ensures v in Reach(h, b)
    {
      ReachEdge(h, b, o, v);
    }
    ReachLeast(h, a, Reach(h, b));
  }

  lemma ReachUnion(h: Heap, a: set<int>, b: set<int>)
    ensures Reach(h, a + b) == Reach(h, a) + Reach(h, b)
  {
    ReachMono(h, a, a + b);
    ReachMono(h, b, a + b);
    var S := Reach(h, a) + Reach(h, b);
    forall v | v in a + b && v in h ensures v in S {
      if v in a { ReachRoot(h, a, v); } else { ReachRoot(h, b, v); }
    }
    forall o, v | o in S && o in Reach(h, a + b) && v in h[o] && v in h ensures v in S {
      if o in Reach(h, a) { ReachEdge(h, a, o, v); } else { ReachEdge(h, b, o, v); }
    }
    ReachLeast(h, a + b, S);
  }

  /** What can be reached from the words of something reachable is reachable. */
  lemma ReachThrough(h: Heap, a: set<int>, p: int)
    requires p in Reach(h, a)
    ensures Reach(h, WordsOf(h, p)) <= Reach(h, a)
  {
    forall v | v in WordsOf(h, p) && v in h ensures v in Reach(h, a) { ReachEdge(h, a, p, v); }
    forall o, v | o in Reach(h, a) && o in Reach(h, WordsOf(h, p)) && v in h[o] && v in h
      ensures v in Reach(h, a)
    {
      ReachEdge(h, a, o, v);
    }
    ReachLeast(h, WordsOf(h, p), Reach(h, a));
  }

  /** The words of p and of what they reach lead to nothing else. */
  lemma FoClosed(h: Heap, marked: set<int>, p: int, over: bool)
    requires Leads(h, marked, marked)
    ensures Leads(h, MarkedFo(h, marked, p, over) + {p}, MarkedFo(h, marked, p, over))
  {
    var W, m' := WordsOf(h, p), MarkedFo(h, marked, p, over);
    forall o, v | o in m' + {p} && o in h && v in h[o] && v in h ensures v in m' {
      if o in marked {
        LeadsTo(h, marked, marked, o, v);
      } else if o == p {
        ReachRoot(h, W, v);
      } else {
        ReachEdge(h, W, o, v);
      }
    }
    IsLeads(h, m' + {p}, m');
  }

  lemma FoClosedIn(mem: Mem, marked: set<int>, p: int, over: bool)
    requires mem.R() <= marked && Leads(mem.words, marked, marked)
    ensures ClosedIn(mem, MarkedFo(mem.words, marked, p, over))
    ensures Leads(mem.words, MarkedFo(mem.words, marked, p, over) + {p}, MarkedFo(mem.words, marked, p, over))
  {
    FoClosed(mem.words, marked, p, over);
    forall v | v in mem.Src() && v in mem.words ensures v in marked { ReachRoot(mem.words, mem.Src(), v); }
  }

  /** Whatever marks m' are closed, hold m and the words of p, and no more than the
      words of p reach, are those that GC_MARK_FO is to leave. */
  lemma FoResult(mem0: Mem, mem: Mem, m: set<int>, m': set<int>, p: int, over: bool)
    requires mem0.R() <= m && Leads(mem0.words, m, m) && Later(mem0, mem) && p in mem0.words && p !in m
    requires m <= m' <= MarkedFo(mem0.words, m, p, over) && Leads(mem.words, m' + {p}, m') && (over ==> p in m')
    ensures m' == MarkedFo(mem0.words, m, p, over)
  {
    var h, W := mem0.words, WordsOf(mem0.words, p);
    assert mem.words[p] == h[p];
    forall v | v in W && v in h ensures v in m' { LeadsTo(mem.words, m' + {p}, m', p, v); }
    forall o, v | o in m' && o in Reach(h, W) && v in h[o] && v in h ensures v in m' {
      if o in m {
        LeadsTo(h, m, m, o, v);
      } else {
        assert mem.words[o] == h[o];
        LeadsTo(mem.words, m' + {p}, m', o, v);
      }
    }
    ReachLeast(h, W, m');
  }

  /** Changes to what is marked do not matter to what can be reached besides. */
  lemma FoSame(h: Heap, k: Heap, m: set<int>, p: int)
    requires Leads(h, m, m) && Leads(k, m, m) && k.Keys == h.Keys && p in h && p !in m
    requires forall o {:trigger k[o]} :: o in h && o !in m ==> k[o] == h[o]
    ensures m + Reach(k, WordsOf(k, p)) == m + Reach(h, WordsOf(h, p))
  {
    FoSub(h, k, m, p);
    FoSub(k, h, m, p);
  }

  lemma FoSub(h: Heap, k: Heap, m: set<int>, p: int)
    requires Leads(h, m, m) && Leads(k, m, m) && k.Keys == h.Keys && p in h && p !in m
    requires forall o :: o in h && o !in m ==> k[o] == h[o]
    ensures Reach(k, WordsOf(k, p)) <= m + Reach(h, WordsOf(h, p))
  {
    var W, S := WordsOf(h, p), m + Reach(h, WordsOf(h, p));
    assert k[p] == h[p];
    forall v | v in W && v in k ensures v in S { ReachRoot(h, W, v); }
    forall o, v | o in S && o in Reach(k, W) && v in k[o] && v in k ensures v in S {
      if o in m { LeadsTo(k, m, m, o, v); } else { ReachEdge(h, W, o, v); }
    }
    ReachLeast(k, W, S);
  }

  lemma CountMore(a: set<int>, b: set<int>, c: set<int>)
    requires a <= b <= a + c
    ensures |b| - |a| <= |c - a|
  {
    assert b == a + (b - a) && |b| == |a| + |b - a|;
    assert c - a == (b - a) + ((c - a) - (b - a));
  }

  /** Fewer marks to begin with leave more to be marked. */
  lemma HeavyBefore(h: Heap, m0: set<int>, m: set<int>, limit0: nat, limit: nat, p: int)
    requires m0 <= m && limit0 <= limit && Heavy(h, m, limit, p)
    ensures Heavy(h, m0, limit0, p)
  {
    var R := Reach(h, WordsOf(h, p));
    assert R - m0 == (R - m) + ((R - m0) - (R - m));
  }

  /** The same objects, besides m, can be reached from p in both heaps. */
  lemma SameHeavy(h: Heap, k: Heap, m: set<int>, p: int, limit: nat)
    requires m + Reach(k, WordsOf(k, p)) == m + Reach(h, WordsOf(h, p)) && Heavy(k, m, limit, p)
    ensures Heavy(h, m, limit, p)
  {
    var a, b := Reach(k, WordsOf(k, p)), Reach(h, WordsOf(h, p));
    assert a - m == (m + a) - m && b - m == (m + b) - m;
  }

  /** With p marked too, one more closed set. */
  lemma WiderJust(mem: Mem, mk: Marker, mk': Marker, J: set<int>, J': set<int>, p: int)
    requires Just(mem, mk, Quiet, J) && mk.aim == Final(p) && mk.stack == []
    requires mk' == mk.(marked := mk.marked + {p}) && J' == J + {p}
    ensures Just(mem, mk', Quiet, J')
  {
    forall o, i | o in Scans(mk', J') && IsPtr(mem.words, o, i) ensures Word(mem.words, o, i) in J {
      assert o in Scans(mk, J);
    }
  }

  // ---------------------------------------------------------------- marking from all of them

  /** The objects among done that got marked themselves, because their marking
      overflowed the stack. */
  ghost predicate Spoilt(h: Heap, m0: set<int>, limit: nat, done: set<int>, over: set<int>) {
    over <= done - m0 && forall p {:trigger p in over} :: p in over ==> Heavy(h, m0, limit, p)
  }

  /** Of the objects fos, p alone is unmarked. */
  ghost predicate Alone(fos: set<int>, marked: set<int>, p: int) { p in fos && p !in marked && fos <= marked + {p} }

  /** Marking from p overflows, over, exactly if the trace from it does. */
  ghost predicate DecidedBy(sh: Shape, m0: Mem, k0: Marker, p: int, over: bool) {
    MARK_STACK_DISCARDS <= k0.limit && p in sh.size && (over <==> Overflows(sh, m0, k0, p))
  }

  /** What is marked when the turn comes of the i-th of the objects es, unless one
      before it has overflowed the stack. */
  ghost function Before(h: Heap, marked: set<int>, es: seq<int>, i: nat): set<int>
    requires i <= |es|
  {
    MarkedThrough(h, marked, Elems(es[..i]))
  }

  /** The i-th object overflows the stack then. */
  ghost predicate Bursts(sh: Shape, m0: Mem, k0: Marker, es: seq<int>, i: nat) {
    && i < |es| && MARK_STACK_DISCARDS <= k0.limit && es[i] in sh.size
    && es[i] !in Before(m0.words, k0.marked, es, i)
    && Overflows(sh, m0, k0.(marked := Before(m0.words, k0.marked, es, i)), es[i])
  }

  ghost predicate Calm(es: seq<int>, i: nat, over: set<int>) {
    i <= |es| && forall j :: 0 <= j < i ==> es[j] !in over
  }

  /** Up to the first object that overflows the stack it is known from the start which
      one that is. */
  ghost predicate Decided(sh: Shape, m0: Mem, k0: Marker, es: seq<int>, over: set<int>) {
    forall i: nat {:trigger Bursts(sh, m0, k0, es, i)} ::
      i < |es| && Calm(es, i, over) ==> (es[i] in over <==> Bursts(sh, m0, k0, es, i))
  }

  /** The first node of a comb, when it is the only registered object. */
  lemma CombAlone(sh: Shape, mem: Mem, mk: Marker, c: seq<int>, l: seq<int>)
    requires Comb(sh, mem.words, mk.marked, c, l) && |l| >= mk.limit >= MARK_STACK_DISCARDS && mk.stack == []
    ensures Alone({c[0]}, mk.marked, c[0]) && c[0] in sh.size && Overflows(sh, mem, mk, c[0])
    ensures c[0] !in Reach(mem.words, WordsOf(mem.words, c[0]))
  {
    CombOverflows(sh, mem, mk, c, l);
    assert Bare(sh, mem.words, mk.marked, c[0], 2);
    assert WordsOf(mem.words, c[0]) == {l[0], c[1]};
  }

  /** What marking from the registered objects es, with memory m0 and marker k0 to
      begin with, has made of the marker. */
  ghost predicate Passed(sh: Shape, m0: Mem, k0: Marker, k: Marker, es: seq<int>, over: set<int>) {
    && k.limit >= k0.limit && k.marked == MarkedThrough(m0.words, k0.marked, Elems(es)) + over
    && Leads(m0.words, k.marked, k.marked) && Spoilt(m0.words, k0.marked, k0.limit, Elems(es), over)
    && (over == {} ==> k == k0.(marked := k.marked)) && Decided(sh, m0, k0, es, over)
  }

  /** The same, looked into only where Open is mentioned. */
  ghost predicate Pass(sh: Shape, m0: Mem, k0: Marker, k: Marker, es: seq<int>, over: set<int>) {
    forall i {:trigger Open(i)} :: Open(i) ==> Passed(sh, m0, k0, k, es, over)
  }

  lemma PassStart(sh: Shape, m0: Mem, k0: Marker)
    requires Leads(m0.words, k0.marked, k0.marked)
    ensures Pass(sh, m0, k0, k0, [], {})
  {
    assert Elems([]) == {};
    MarkedNothing(m0.words, k0.marked);
  }

  lemma PassedIs(sh: Shape, m0: Mem, k0: Marker, k: Marker, es: seq<int>, over: set<int>)
    requires Pass(sh, m0, k0, k, es, over)
    ensures Passed(sh, m0, k0, k, es, over)
  {
    assert Open(0);
  }

  /** An object that is marked when its turn comes adds nothing. */
  lemma PassSkip(sh: Shape, m0: Mem, k0: Marker, k: Marker, es: seq<int>, over: set<int>, p: int)
    requires Pass(sh, m0, k0, k, es, over) && p in k.marked && p in m0.words
    ensures Pass(sh, m0, k0, k, es + [p], over)
  {
    PassedIs(sh, m0, k0, k, es, over);
    ElemsNext(es, p);
    ThroughNext(m0.words, k0.marked, Elems(es), over, p);
    DecidedNext(sh, m0, k0, k, es, over, p, false);
    PassIs(sh, m0, k0, k, es + [p], Elems(es) + {p}, over + {});
    assert over + {} == over;
  }

  lemma PassIs(sh: Shape, m0: Mem, k0: Marker, k: Marker, es: seq<int>, done: set<int>, over: set<int>)
    requires done == Elems(es) && k.limit >= k0.limit && k.marked == MarkedThrough(m0.words, k0.marked, done) + over
    requires Leads(m0.words, k.marked, k.marked) && Spoilt(m0.words, k0.marked, k0.limit, done, over)
    requires (over == {} ==> k == k0.(marked := k.marked)) && Decided(sh, m0, k0, es, over)
    ensures Pass(sh, m0, k0, k, es, over)
  {
  }

  /** An unmarked one is marked from. */
  lemma PassMark(sh: Shape, m0: Mem, k0: Marker, k: Marker, k': Marker, es: seq<int>, over: set<int>, p: int, o: bool)
    requires Pass(sh, m0, k0, k, es, over) && p in m0.words && p in sh.size && p !in k.marked
    requires k'.marked == MarkedFo(m0.words, k.marked, p, o) && k'.limit >= k.limit > 0
    requires !o ==> k' == k.(marked := k'.marked)
    requires DecidedBy(sh, m0, k, p, o) && (o ==> Heavy(m0.words, k.marked, k.limit, p))
    ensures Pass(sh, m0, k0, k', es + [p], over + if o then {p} else {})
  {
    PassedIs(sh, m0, k0, k, es, over);
    ElemsNext(es, p);
    if p in Elems(es) { NotHeavyAgain(m0.words, k0.marked, k.marked, Elems(es), k.limit, p); }
    DecidedNext(sh, m0, k0, k, es, over, p, o);
    if o { HeavyBefore(m0.words, k0.marked, k.marked, k0.limit, k.limit, p); }
    SpoiltNext(m0.words, k0.marked, k0.limit, k.marked, Elems(es), over, p, o);
    PassClosed(m0.words, k0.marked, k.marked, k'.marked, Elems(es), over, p, o);
    PassIs(sh, m0, k0, k', es + [p], Elems(es) + {p}, over + if o then {p} else {});
  }

  lemma ElemsNext(es: seq<int>, p: int)
    ensures Elems(es + [p]) == Elems(es) + {p}
  {
  }

  lemma PassClosed(h: Heap, m0: set<int>, m: set<int>, m': set<int>, done: set<int>, over: set<int>, p: int, o: bool)
    requires m == MarkedThrough(h, m0, done) + over && m' == MarkedFo(h, m, p, o) && Leads(h, m, m)
    requires p in h && p !in m && over <= done
    ensures m' == MarkedThrough(h, m0, done + {p}) + (over + if o then {p} else {}) && Leads(h, m', m')
  {
    ThroughNext(h, m0, done, over, p);
    PassMarks(h, m0, m, m', done, over, p, o);
    FoClosed(h, m, p, o);
    LeadsLess(h, m', p);
  }

  lemma SpoiltNext(h: Heap, m0: set<int>, limit: nat, m: set<int>, done: set<int>, over: set<int>, p: int, o: bool)
    requires Spoilt(h, m0, limit, done, over) && m0 <= m && p !in m && (o ==> Heavy(h, m0, limit, p))
    ensures Spoilt(h, m0, limit, done + {p}, over + if o then {p} else {})
  {
  }

  /** The turn of p, whose marking overflows if o. */
  lemma DecidedNext(sh: Shape, m0: Mem, k0: Marker, k: Marker, es: seq<int>, over: set<int>, p: int, o: bool)
    requires Decided(sh, m0, k0, es, over) && over <= Elems(es) && (o ==> p !in es)
    requires k.marked == MarkedThrough(m0.words, k0.marked, Elems(es)) + over
    requires over == {} ==> k == k0.(marked := k.marked)
    requires if p in k.marked then !o else DecidedBy(sh, m0, k, p, o)
    ensures Decided(sh, m0, k0, es + [p], over + if o then {p} else {})
  {
    var es', over' := es + [p], over + if o then {p} else {};
    forall i: nat | i < |es'| && Calm(es', i, over') ensures es'[i] in over' <==> Bursts(sh, m0, k0, es', i) {
      if i < |es| {
        assert es[i] in es && forall j :: 0 <= j < i ==> es[j] == es'[j];
        assert Calm(es, i, over);
        BurstsSame(sh, m0, k0, es, p, i);
      } else {
        NoneOver(es, es', over, over');
        BurstsLast(sh, m0, k0, k, es, p, o);
      }
    }
  }

  lemma BurstsSame(sh: Shape, m0: Mem, k0: Marker, es: seq<int>, p: int, i: nat)
    requires i < |es|
    ensures Bursts(sh, m0, k0, es + [p], i) <==> Bursts(sh, m0, k0, es, i)
  {
    assert (es + [p])[..i] == es[..i];
  }

  lemma BurstsLast(sh: Shape, m0: Mem, k0: Marker, k: Marker, es: seq<int>, p: int, o: bool)
    requires k.marked == MarkedThrough(m0.words, k0.marked, Elems(es)) && k == k0.(marked := k.marked)
    requires if p in k.marked then !o else DecidedBy(sh, m0, k, p, o)
    ensures Bursts(sh, m0, k0, es + [p], |es|) <==> o
  {
    assert (es + [p])[..|es|] == es;
    assert Before(m0.words, k0.marked, es + [p], |es|) == k.marked;
  }

  lemma NoneOver(es: seq<int>, es': seq<int>, over: set<int>, over': set<int>)
    requires over <= Elems(es) && over <= over' && es <= es' && Calm(es', |es|, over')
    ensures over == {}
  {
    forall q | q in es ensures q !in over {
      var j :| 0 <= j < |es| && es[j] == q;
      assert es'[j] == q;
    }
  }

  /** No object overflows the stack if and only if none would from the start. */
  lemma NoneBursts(sh: Shape, m0: Mem, k0: Marker, es: seq<int>, over: set<int>)
    requires Decided(sh, m0, k0, es, over) && over <= Elems(es)
    ensures over == {} <==> forall i: nat {:trigger Bursts(sh, m0, k0, es, i)} :: !Bursts(sh, m0, k0, es, i)
  {
    if over == {} {
      forall i: nat ensures !Bursts(sh, m0, k0, es, i) { assert i < |es| ==> Calm(es, i, over); }
    } else {
      var i := FirstIn(es, over);
      assert Bursts(sh, m0, k0, es, i);
    }
  }

  lemma FirstIn(es: seq<int>, over: set<int>) returns (i: nat)
    requires over <= Elems(es) && over != {}
    ensures i < |es| && es[i] in over && Calm(es, i, over)
  {
    i := 0;
    while i < |es| && es[i] !in over
      invariant i <= |es| && Calm(es, i, over)
    {
      i := i + 1;
    }
    if i == |es| { NoneOver(es, es, over, over); }
  }

  /** Where p alone is unmarked the trace from it decides. */
  lemma AloneDecided(sh: Shape, m0: Mem, k0: Marker, es: seq<int>, over: set<int>, p: int)
    requires Decided(sh, m0, k0, es, over) && over <= Elems(es) - k0.marked && Alone(Elems(es), k0.marked, p)
    requires MARK_STACK_DISCARDS <= k0.limit && p in sh.size
    ensures DecidedBy(sh, m0, k0, p, p in over)
  {
    var i := FirstIn(es, {p});
    var S := Elems(es[..i]);
    forall q | q in S ensures q in k0.marked {
      var j :| 0 <= j < i && es[j] == q;
      assert q in Elems(es);
    }
    assert Sources(m0.words, k0.marked, S) == {} == Sources(m0.words, k0.marked, {});
    MarkedNothing(m0.words, k0.marked);
    assert Before(m0.words, k0.marked, es, i) == k0.marked && k0.(marked := k0.marked) == k0;
    forall j | 0 <= j < i ensures es[j] !in over { assert es[j] in S; }
    assert Calm(es, i, over);
    assert Bursts(sh, m0, k0, es, i) <==> Overflows(sh, m0, k0, p);
  }

  lemma PassMarks(h: Heap, m0: set<int>, m: set<int>, m': set<int>, done: set<int>, over: set<int>, p: int, o: bool)
    requires m == MarkedThrough(h, m0, done) + over && m' == MarkedFo(h, m, p, o)
    requires MarkedThrough(h, m0, done + {p}) == MarkedThrough(h, m0, done) + Reach(h, WordsOf(h, p))
    ensures m' == MarkedThrough(h, m0, done + {p}) + (over + if o then {p} else {})
  {
  }

  lemma LeadsLess(h: Heap, m: set<int>, p: int)
    requires Leads(h, m + {p}, m)
    ensures Leads(h, m, m)
  {
  }

  /** All that can be reached from an object that was marked from is marked. */
  lemma NotHeavyAgain(h: Heap, m0: set<int>, m: set<int>, done: set<int>, limit: nat, p: int)
    requires MarkedThrough(h, m0, done) <= m && p in done && p !in m0 && p in h && limit > 0
    ensures !Heavy(h, m, limit, p)
  {
    forall v | v in WordsOf(h, p) ensures v in Sources(h, m0, done) { SourceIn(h, m0, done, p, v); }
    ReachMono(h, WordsOf(h, p), Sources(h, m0, done));
    assert Reach(h, WordsOf(h, p)) - m == {};
  }

  lemma ThroughNext(h: Heap, m0: set<int>, done: set<int>, over: set<int>, p: int)
    requires p in h && over <= done
    ensures MarkedThrough(h, m0, done + {p}) ==
            MarkedThrough(h, m0, done) + if p in MarkedThrough(h, m0, done) + over then {} else Reach(h, WordsOf(h, p))
  {
    if p in MarkedThrough(h, m0, done) + over {
      OldSource(h, m0, done, p, over);
    } else {
      NewSource(h, m0, done, p);
    }
  }

  /** What is left to say of it once it is over. */
  lemma PassResults(sh: Shape, m0: Mem, k0: Marker, k: Marker, es: seq<int>, over: set<int>)
    requires Pass(sh, m0, k0, k, es, over) && MARK_STACK_DISCARDS <= k0.limit && Elems(es) <= sh.size.Keys
    ensures OverOK(sh, m0, k0, es, over) && k0.marked <= k.marked
  {
    PassedIs(sh, m0, k0, k, es, over);
    NoneBursts(sh, m0, k0, es, over);
    forall p | Alone(Elems(es), k0.marked, p) ensures DecidedBy(sh, m0, k0, p, p in over) {
      AloneDecided(sh, m0, k0, es, over, p);
    }
  }

  /** Which of the objects es overflow the stack: none if and only if none does in its
      turn; the first is the first that does; only objects from which at least as many
      unmarked ones can be reached as the stack has entries; and if there is one that
      is not marked, whatever the trace from it does. */
  ghost predicate OverOK(sh: Shape, m0: Mem, k0: Marker, es: seq<int>, over: set<int>) {
    && (over == {} <==> forall i: nat {:trigger Bursts(sh, m0, k0, es, i)} :: !Bursts(sh, m0, k0, es, i))
    && Decided(sh, m0, k0, es, over)
    && (forall p {:trigger p in over} :: p in over ==> Heavy(m0.words, k0.marked, k0.limit, p))
    && (forall p {:trigger Alone(Elems(es), k0.marked, p)} ::
          Alone(Elems(es), k0.marked, p) ==> DecidedBy(sh, m0, k0, p, p in over))
  }

  /** What is to be queued: unmarked, not to be reached from registered objects, and
      not among those that overflowed the stack. */
  ghost predicate Due(h: Heap, marked: set<int>, fos: set<int>, over: set<int>, p: int) {
    p in fos && p !in marked && p !in over && forall q :: q in fos ==> p !in Reach(h, WordsOf(h, q))
  }

  /** That is what is still unmarked after the pass. */
  lemma QueuedExactly(sh: Shape, m0: Mem, k0: Marker, k: Marker, es: seq<int>, over: set<int>, queued: seq<int>)
    requires Pass(sh, m0, k0, k, es, over) && Leads(m0.words, k0.marked, k0.marked)
    requires Elems(queued) == Elems(es) - k.marked
    ensures forall p :: p in queued <==> Due(m0.words, k0.marked, Elems(es), over, p)
  {
    var fos := Elems(es);
    PassedIs(sh, m0, k0, k, es, over);
    forall p ensures p in queued <==> Due(m0.words, k0.marked, fos, over, p) {
      assert p in queued <==> p in Elems(queued);
      if p !in k0.marked { ThroughIff(m0.words, k0.marked, fos, p); }
    }
  }

  /** After the queue has been filled with unmarked registered objects, nothing
      that is marked or can be reached leads to anything unmarked. */
  lemma Revived(mem0: Mem, mem: Mem, m0: set<int>, marked: set<int>, fos: set<int>, queued: seq<int>)
    requires Later(mem0, mem) && mem0.R() <= m0 && mem.R() <= marked && Leads(mem.words, marked, marked)
    requires MarkedThrough(mem0.words, m0, fos) <= marked
    requires forall p :: p in queued ==> p in fos && p !in marked && p in mem0.words
    ensures ClosedIn(mem.(now := queued + mem.now), marked + Elems(queued))
  {
    var m' := marked + Elems(queued);
    forall v | v in mem.(now := queued + mem.now).Src() && v in mem.words ensures v in m' {
      if v !in queued { ReachRoot(mem.words, mem.Src(), v); }
    }
    forall o, v | o in m' && o in mem.words && v in mem.words[o] && v in mem.words ensures v in m' {
      if o in marked {
        LeadsTo(mem.words, marked, marked, o, v);
      } else {
        assert mem.words[o] == mem0.words[o];
        SourceIn(mem0.words, m0, fos, o, v);
        ReachRoot(mem0.words, Sources(mem0.words, m0, fos), v);
      }
    }
    IsLeads(mem.words, m', m');
  }

  /** A chain has been gone through up to place k: what was unmarked has been taken
      out, marked and queued, and what was marked is still there. */
  ghost predicate Sifting(chain0: seq<int>, chain: seq<int>, k: nat, queued: seq<int>, m0: set<int>, marked: set<int>) {
    && k <= |chain| && NoDup(queued) && marked == m0 + Elems(queued)
    && (forall p {:trigger p in queued} :: p in queued ==> p in chain0 && p !in m0)
    && (forall p {:trigger p in chain0} :: p in chain0 ==> p in chain[k..] || p in queued || p in chain[..k])
    && (forall p {:trigger p in chain[..k]} :: p in chain[..k] ==> p in marked)
    && (forall p {:trigger p in chain} :: p in chain ==> p in chain0)
    && (forall p {:trigger p in m0} :: p in m0 && p in chain0 ==> p in chain)
  }

  lemma SiftStart(chain: seq<int>, m0: set<int>)
    ensures Sifting(chain, chain, 0, [], m0, m0)
  {
    assert chain[0..] == chain && Elems([]) == {};
  }

  lemma SiftNext(chain0: seq<int>, chain: seq<int>, k: nat, queued: seq<int>, m0: set<int>, marked: set<int>)
    requires Sifting(chain0, chain, k, queued, m0, marked) && k < |chain|
    ensures var p := chain[k];
            if p in marked then Sifting(chain0, chain, k + 1, queued, m0, marked)
            else Sifting(chain0, chain[..k] + chain[k + 1..], k, [p] + queued, m0, marked + {p})
  {
    var p := chain[k];
    assert chain[k..] == [p] + chain[k + 1..];
    assert p in chain;
    if p in marked {
      assert chain[..k + 1] == chain[..k] + [p];
    } else {
      var c := chain[..k] + chain[k + 1..];
      assert c[..k] == chain[..k] && c[k..] == chain[k + 1..];
      assert forall x :: x in c ==> x in chain;
      assert chain == chain[..k] + [p] + chain[k + 1..];
      assert Elems([p] + queued) == {p} + Elems(queued);
      assert p !in queued by { assert p in queued ==> p in Elems(queued); }
    }
  }

  /** The whole chain has been gone through. */
  ghost predicate Sifted(chain0: seq<int>, chain: seq<int>, queued: seq<int>, m0: set<int>, marked: set<int>) {
    && NoDup(queued) && marked == m0 + Elems(queued) && Elems(queued) == Elems(chain0) - m0
    && (forall p {:trigger p in chain} :: p in chain ==> p in chain0 && p in marked)
    && (forall p {:trigger p in chain0} :: p in chain0 && p in m0 ==> p in chain)
  }

  lemma SiftEnd(chain0: seq<int>, chain: seq<int>, queued: seq<int>, m0: set<int>, marked: set<int>)
    requires Sifting(chain0, chain, |chain|, queued, m0, marked)
    ensures Sifted(chain0, chain, queued, m0, marked)
  {
    assert chain[..|chain|] == chain && chain[|chain|..] == [];
    forall p | p in Elems(chain0) - m0 ensures p in Elems(queued) {
      assert p in chain0;
    }
    forall p | p in Elems(queued) ensures p in Elems(chain0) - m0 {
      assert p in queued;
    }
  }

  ghost predicate NoDup(s: seq<int>) { forall i, j :: 0 <= i < j < |s| ==> s[i] != s[j] }

  lemma NoDupJoin(a: seq<int>, b: seq<int>)
    requires NoDup(a) && NoDup(b) && forall x :: x in a ==> x !in b
    ensures NoDup(a + b)
  {
    forall i, j | 0 <= i < j < |a + b| ensures (a + b)[i] != (a + b)[j] {
      if i < |a| <= j { assert a[i] in a && b[j - |a|] in b; }
    }
  }

  lemma MemberOf(table: seq<seq<int>>, i: nat, p: int)
    requires i < |table| && p in table[i]
    ensures p in Members(table)
    decreases |table|
  {
    if i < |table| - 1 { MemberOf(table[..|table| - 1], i, p); }
  }

  lemma KeptNext(a: set<int>, b: set<int>, c: seq<int>, d: seq<int>, m0: set<int>, m1: set<int>, m2: set<int>)
    requires a * m0 <= b <= a * m1 && m0 <= m1 <= m2
    requires forall p :: p in d ==> p in c && p in m2
    requires forall p :: p in c && p in m1 ==> p in d
    ensures (a + Elems(c)) * m0 <= b + Elems(d) <= (a + Elems(c)) * m2
  {
    forall p | p in (a + Elems(c)) * m0 ensures p in b + Elems(d) {
      if p in a { assert p in a * m0; } else { assert p in c && p in d; }
    }
    forall p | p in b + Elems(d) ensures p in (a + Elems(c)) * m2 {
      if p in b { assert p in a * m1; } else { assert p in d; }
    }
  }

  /** Chains 0..i of the table T0 have been gone through, and T is what is left. */
  ghost predicate Queued(T0: seq<seq<int>>, T: seq<seq<int>>, i: nat, m0: set<int>, queued: seq<int>)
    requires i <= |T0| == |T|
  {
    && NoDup(queued) && Elems(queued) == Members(T0[..i]) - m0
    && Members(T0[..i]) * m0 <= Members(T[..i]) <= Members(T0[..i]) * (m0 + Elems(queued))
  }

  lemma QueuedNext(T0: seq<seq<int>>, T: seq<seq<int>>, T': seq<seq<int>>, i: nat, m0: set<int>, q0: seq<int>,
                   q: seq<int>)
    requires i < |T0| == |T| == |T'| && T[i..] == T0[i..] && T' == T[i := T'[i]] && Queued(T0, T, i, m0, q0)
    requires Sifted(T[i], T'[i], q, m0 + Elems(q0), m0 + Elems(q0) + Elems(q))
    ensures Queued(T0, T', i + 1, m0, q + q0) && T'[i + 1..] == T0[i + 1..]
  {
    assert T[i] == T[i..][0] == T0[i..][0] == T0[i];
    assert T'[..i] == T[..i] && T'[i + 1..] == T[i..][1..] && T0[i + 1..] == T0[i..][1..];
    KeptNext(Members(T0[..i]), Members(T'[..i]), T0[i], T'[i], m0, m0 + Elems(q0), m0 + Elems(q0) + Elems(q));
    EnqueuedNext(T0, T', i);
    assert forall p :: p in q ==> p in Elems(q) && p !in m0 + Elems(q0);
    assert forall p :: p in q0 ==> p in Elems(q0);
    NoDupJoin(q, q0);
    assert Elems(q + q0) == Elems(q) + Elems(q0);
  }

  lemma EnqueuedNext(old_: seq<seq<int>>, new_: seq<seq<int>>, i: nat)
    requires i < |old_| == |new_|
    ensures Members(old_[..i + 1]) == Members(old_[..i]) + Elems(old_[i])
    ensures Members(new_[..i + 1]) == Members(new_[..i]) + Elems(new_[i])
  {
    MembersNext(old_, i);
    MembersNext(new_, i);
  }

  lemma {:induction false} TotalUpdate(table: seq<seq<int>>, i: nat, chain: seq<int>)
    requires i < |table|
    ensures Total(table[i := chain]) == Total(table) - |table[i]| + |chain|
    decreases |table|
  {
    var n := |table| - 1;
    if i == n {
      assert table[i := chain][..n] == table[..n];
    } else {
      assert table[i := chain][..n] == table[..n][i := chain];
      TotalUpdate(table[..n], i, chain);
    }
  }

  // ---------------------------------------------------------------- marking through objects

  lemma NewSource(h: Heap, m0: set<int>, done: set<int>, p: int)
    requires p in h && p !in m0
    ensures MarkedThrough(h, m0, done + {p}) == MarkedThrough(h, m0, done) + Reach(h, WordsOf(h, p))
  {
    var a, b := Sources(h, m0, done + {p}), Sources(h, m0, done) + WordsOf(h, p);
    forall v | v in a ensures v in b {
      var q :| q in done + {p} && q !in m0 && q in h && v in h[q];
      if q != p { SourceIn(h, m0, done, q, v); }
    }
    forall v | v in b ensures v in a {
      if v in WordsOf(h, p) {
        SourceIn(h, m0, done + {p}, p, v);
      } else {
        var q :| q in done && q !in m0 && q in h && v in h[q];
        SourceIn(h, m0, done + {p}, q, v);
      }
    }
    assert a == b;
    ReachUnion(h, Sources(h, m0, done), WordsOf(h, p));
  }

  /** An object that is marked when its turn comes adds nothing. */
  lemma OldSource(h: Heap, m0: set<int>, done: set<int>, p: int, spoilt: set<int>)
    requires p in MarkedThrough(h, m0, done) + spoilt && spoilt <= done
    ensures MarkedThrough(h, m0, done + {p}) == MarkedThrough(h, m0, done)
  {
    if p in m0 || p in spoilt {
      assert Sources(h, m0, done + {p}) == Sources(h, m0, done);
    } else {
      NewSource(h, m0, done, p);
      ReachThrough(h, Sources(h, m0, done), p);
    }
  }

  lemma SourceIn(h: Heap, m0: set<int>, fos: set<int>, p: int, v: int)
    requires p in fos && p !in m0 && p in h && v in h[p]
    ensures v in Sources(h, m0, fos)
  {
  }

  /** An unmarked object is marked through registered objects exactly if it can be
      reached by one or more pointers from one of them. */
  lemma ThroughIff(h: Heap, m0: set<int>, fos: set<int>, p: int)
    requires Leads(h, m0, m0) && p !in m0
    ensures p in MarkedThrough(h, m0, fos) <==> exists q :: q in fos && p in Reach(h, WordsOf(h, q))
  {
    if p in Reach(h, Sources(h, m0, fos)) { SomeSource(h, m0, fos, p); }
    forall q | q in fos && p in Reach(h, WordsOf(h, q)) ensures p in Reach(h, Sources(h, m0, fos)) {
      if q in m0 {
        forall v | v in WordsOf(h, q) && v in h ensures v in m0 { LeadsTo(h, m0, m0, q, v); }
        forall o, v | o in m0 && o in Reach(h, WordsOf(h, q)) && v in h[o] && v in h
          ensures v in m0
        {
          LeadsTo(h, m0, m0, o, v);
        }
        ReachLeast(h, WordsOf(h, q), m0);
      } else {
        forall v | v in WordsOf(h, q) ensures v in Sources(h, m0, fos) { SourceIn(h, m0, fos, q, v); }
        ReachMono(h, WordsOf(h, q), Sources(h, m0, fos));
      }
    }
  }

  /** Something reachable from the words of all of them is from those of one. */
  lemma SomeSource(h: Heap, m0: set<int>, fos: set<int>, p: int)
    requires p in Reach(h, Sources(h, m0, fos))
    ensures exists q :: q in fos && p in Reach(h, WordsOf(h, q))
  {
    var src := Sources(h, m0, fos);
    var path :| IsPath(h, path) && path[0] in src && path[|path| - 1] == p;
    var q :| q in fos && q !in m0 && q in h && path[0] in h[q];
    assert path[0] in WordsOf(h, q);
    assert Reaches(h, WordsOf(h, q), p);
  }

  ghost function Members(table: seq<seq<int>>): set<int> {
    if table == [] then {} else Members(table[..|table| - 1]) + Elems(table[|table| - 1])
  }

  ghost function Total(table: seq<seq<int>>): nat {
    if table == [] then 0 else Total(table[..|table| - 1]) + |table[|table| - 1]|
  }

  /** Changing chain i by the entry o changes the members by o at most. */
  lemma {:induction false} MembersUpdate(table: seq<seq<int>>, i: nat, chain: seq<int>, o: int)
    requires i < |table|
    requires forall p :: p in chain ==> p in table[i] || p == o
    requires forall p :: p in table[i] && p != o ==> p in chain
    ensures Members(table[i := chain]) <= Members(table) + {o}
    ensures Members(table) - {o} <= Members(table[i := chain])
    decreases |table|
  {
    var n := |table| - 1;
    if i == n {
      assert table[i := chain][..n] == table[..n];
      forall p | p in Elems(chain) ensures p in Elems(table[i]) + {o} { assert p in chain; }
      forall p | p in Elems(table[i]) - {o} ensures p in Elems(chain) { assert p in table[i]; }
    } else {
      assert table[i := chain][..n] == table[..n][i := chain];
      MembersUpdate(table[..n], i, chain, o);
    }
  }

  /** The chain for an object. */
  function Slot(hash: int -> nat, table: seq<seq<int>>, o: int): (i: nat)
    requires |table| > 0
    ensures i < |table|
  {
    hash(o) % |table|
  }

  /** Every entry is in the chain for it, and only once. */
  ghost predicate Hashed(hash: int -> nat, table: seq<seq<int>>) {
    forall i {:trigger table[i]} :: 0 <= i < |table| ==>
      NoDup(table[i]) && forall o {:trigger o in table[i]} :: o in table[i] ==> Slot(hash, table, o) == i
  }

  /** The entry for an object, if there is one, is in the chain for it. */
  lemma InItsChain(hash: int -> nat, table: seq<seq<int>>, o: int)
    requires Hashed(hash, table) && |table| > 0
    ensures o in Members(table) <==> o in table[Slot(hash, table, o)]
  {
    if o in Members(table) {
      var i := ChainOf(table, o);
    }
    if o in table[Slot(hash, table, o)] { MemberOf(table, Slot(hash, table, o), o); }
  }

  lemma {:induction false} ChainOf(table: seq<seq<int>>, o: int) returns (i: nat)
    requires o in Members(table)
    ensures i < |table| && o in table[i]
    decreases |table|
  {
    if o in table[|table| - 1] { i := |table| - 1; } else { i := ChainOf(table[..|table| - 1], o); }
  }

  /** What is left of a chain without its k-th entry. */
  lemma Without(chain: seq<int>, k: nat)
    requires NoDup(chain) && k < |chain|
    ensures NoDup(chain[..k] + chain[k + 1..])
    ensures forall x :: x in chain[..k] + chain[k + 1..] <==> x in chain && x != chain[k]
  {
    var s := chain[..k] + chain[k + 1..];
    forall i, j | 0 <= i < j < |s| ensures s[i] != s[j] {
      assert s[i] == chain[if i < k then i else i + 1] && s[j] == chain[if j < k then j else j + 1];
    }
    forall x | x in chain && x != chain[k] ensures x in s {
      var j :| 0 <= j < |chain| && chain[j] == x;
      assert s[if j < k then j else j - 1] == x;
    }
    forall x | x in s ensures x in chain && x != chain[k] {
      var j :| 0 <= j < |s| && s[j] == x;
      assert chain[if j < k then j else j + 1] == x;
    }
  }

  lemma HashedLess(hash: int -> nat, table: seq<seq<int>>, i: nat, k: nat)
    requires Hashed(hash, table) && i < |table| && k < |table[i]|
    ensures Hashed(hash, table[i := table[i][..k] + table[i][k + 1..]])
  {
    var t' := table[i := table[i][..k] + table[i][k + 1..]];
    assert NoDup(table[i]);
    Without(table[i], k);
    forall j | 0 <= j < |t'| ensures NoDup(t'[j]) && forall o :: o in t'[j] ==> Slot(hash, t', o) == j {
      assert table[j] == table[j];
    }
  }

  /** As many entries as objects. */
  lemma {:induction false} HashedTotal(hash: int -> nat, table: seq<seq<int>>, j: nat)
    requires Hashed(hash, table) && j <= |table|
    ensures Total(table[..j]) == |Members(table[..j])|
    ensures forall o :: o in Members(table[..j]) ==> |table| > 0 && Slot(hash, table, o) < j
    decreases j
  {
    if j > 0 {
      HashedTotal(hash, table, j - 1);
      var t, c := table[..j], table[j - 1];
      assert t[..j - 1] == table[..j - 1] && t[j - 1] == c;
      assert NoDup(c);
      NoDupSize(c);
      assert Members(table[..j - 1]) !! Elems(c);
    }
  }

  lemma {:induction false} NoDupSize(s: seq<int>)
    requires NoDup(s)
    ensures |Elems(s)| == |s|
    decreases |s|
  {
    if s != [] {
      var n := |s| - 1;
      NoDupSize(s[..n]);
      assert Elems(s) == Elems(s[..n]) + {s[n]};
      assert s[n] !in Elems(s[..n]);
    }
  }

  /** If as many entries have gone as were queued, exactly the queued ones have. */
  lemma GoneExactly(hash: int -> nat, t: seq<seq<int>>, t': seq<seq<int>>, queued: seq<int>)
    requires Hashed(hash, t) && Hashed(hash, t') && NoDup(queued) && Total(t') == Total(t) - |queued|
    requires Members(t') <= Members(t) <= Members(t') + Elems(queued) && Elems(queued) <= Members(t)
    ensures Members(t') == Members(t) - Elems(queued)
  {
    assert t[..|t|] == t && t'[..|t'|] == t';
    HashedTotal(hash, t, |t|);
    HashedTotal(hash, t', |t'|);
    NoDupSize(queued);
    var a, b := Members(t'), Elems(queued);
    assert |a + b| == |a| + |b| - |a * b|;
    assert a + b == Members(t);
    assert |a * b| == 0;
  }

  lemma HashedMore(hash: int -> nat, table: seq<seq<int>>, o: int)
    requires Hashed(hash, table) && |table| > 0 && o !in table[Slot(hash, table, o)]
    ensures var i := Slot(hash, table, o); Hashed(hash, table[i := [o] + table[i]])
  {
    var i := Slot(hash, table, o);
    assert NoDup(table[i]);
  }

  /** The entries in the order of the table. */
  ghost function Flat(table: seq<seq<int>>): (r: seq<int>) {
    if table == [] then [] else Flat(table[..|table| - 1]) + table[|table| - 1]
  }

  lemma {:induction false} FlatMembers(table: seq<seq<int>>)
    ensures Elems(Flat(table)) == Members(table)
    decreases |table|
  {
    if table != [] { FlatMembers(table[..|table| - 1]); }
  }

  lemma MembersNext(table: seq<seq<int>>, i: nat)
    requires i < |table|
    ensures Members(table[..i + 1]) == Members(table[..i]) + Elems(table[i])
    ensures Flat(table[..i + 1]) == Flat(table[..i]) + table[i]
  {
    assert table[..i + 1][..i] == table[..i];
  }

  lemma {:induction false} NoMembers(n: nat)
    ensures Members(seq(n, _ => [])) == {} && Total(seq(n, _ => [])) == 0
  {
    if n > 0 {
      var t: seq<seq<int>> := seq(n, _ => []);
      assert t[..n - 1] == seq(n - 1, _ => []);
      NoMembers(n - 1);
    }
  }

  lemma MarkedNothing(h: Heap, marked: set<int>)
    ensures MarkedThrough(h, marked, {}) == marked
  {
    assert Sources(h, marked, {}) == {};
    ReachLeast(h, {}, {});
  }
}
