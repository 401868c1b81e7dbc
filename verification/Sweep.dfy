/** What lazy sweeping may rely on: the free lists, the blocks waiting to be swept,
    and why nothing a sweep takes can be reached. */
module Sweeping {
  import opened Graph
  import opened Marking

  datatype Lists = Lists(
    free: set<int>,             // objects on the free lists
    reclaim: set<nat>)          // blocks on the reclaim lists

  /** Nothing on a free list is kept or lies in a block still to be swept. */
  ghost predicate FreeOK(sh: Shape, keep: set<int>, marked: set<int>, uncLive: set<int>, l: Lists) {
    && l.free <= sh.size.Keys == sh.blk.Keys
    && l.free !! keep && l.free !! uncLive
    && l.reclaim <= sh.objs.Keys
    && (forall o {:trigger o in l.free} :: o in l.free ==>
          sh.blk[o] !in l.reclaim && (sh.blk[o] in sh.unc ==> o in marked))
    && (forall o {:trigger o in uncLive} :: o in uncLive && o in sh.blk ==> sh.blk[o] in sh.unc)
  }

  /** What a block waiting to be swept would lose is not kept. */
  ghost predicate ReclaimOK(sh: Shape, keep: set<int>, marked: set<int>, l: Lists) {
    forall o {:trigger sh.blk[o]} :: o in sh.blk && sh.blk[o] in l.reclaim && o !in marked ==> o !in keep
  }

  /** Only the link in the first word is left of a swept object. */
  ghost predicate Cleared(w: seq<int>) {
    forall i :: 1 <= i < |w| ==> w[i] == 0
  }

  /** n words with a link in the first and zero in the others. */
  function ClearedWords(n: nat, link: int): (w: seq<int>)
    ensures |w| == n && Cleared(w) && (n > 0 ==> w[0] == link)
  {
    seq(n, i => if i == 0 then link else 0)
  }

  ghost predicate Blank(h: Heap, l: Lists) {
    forall o {:trigger o in l.free} :: o in l.free && o in h ==> Cleared(h[o])
  }

  ghost predicate ListsOK(sh: Shape, mem: Mem, mk: Marker, l: Lists, keep: set<int>) {
    && FreeOK(sh, keep, mk.marked, mem.uncLive, l)
    && ReclaimOK(sh, keep, mk.marked, l)
    && Blank(mem.words, l)
  }

  /** What may still be used: it holds what the roots point to, the registered
      objects fos and every marked object that is on no free list.  No pointer leads
      out of it, nor out of it and the free lists together. */
  ghost predicate Kept(mem: Mem, mk: Marker, l: Lists, keep: set<int>, fos: set<int>) {
    ClosedIn(mem, keep) && Just(mem, mk, Quiet, keep + l.free) && fos <= keep <= mem.words.Keys
  }

  /** What holds whenever the collector is not at work. */
  ghost predicate AtRest(track: bool, sh: Shape, mem: Mem, mk: Marker, l: Lists, keep: set<int>, fos: set<int>) {
    Quiescent(track, sh, mem, mk) && ListsOK(sh, mem, mk, l, keep) && Kept(mem, mk, l, keep, fos)
  }

  /** Marking and mutator steps keep the free lists, as marks grow. */
  lemma FreeLater(sh: Shape, mem: Mem, mem': Mem, mk: Marker, mk': Marker, l: Lists, keep: set<int>)
    requires FreeOK(sh, keep, mk.marked, mem.uncLive, l) && Blank(mem.words, l) && ClosedIn(mem, keep)
    requires Later(mem, mem') && mk.marked <= mk'.marked
    ensures FreeOK(sh, keep, mk'.marked, mem'.uncLive, l) && Blank(mem'.words, l) && ClosedIn(mem', keep)
  {
    ReachIn(mem, keep);
    ClosedLater(mem, mem', keep);
    forall o | o in l.free && o in mem'.words ensures Cleared(mem'.words[o]) {
      assert mem'.words[o] == mem.words[o];
    }
  }

  lemma ListsLater(sh: Shape, mem: Mem, mem': Mem, mk: Marker, mk': Marker, l: Lists, keep: set<int>)
    requires ListsOK(sh, mem, mk, l, keep) && ClosedIn(mem, keep)
    requires Later(mem, mem') && mk.marked <= mk'.marked
    ensures ListsOK(sh, mem', mk', l, keep) && ClosedIn(mem', keep)
  {
    FreeLater(sh, mem, mem', mk, mk', l, keep);
  }

  lemma KeptLater(mem: Mem, mem': Mem, mk: Marker, l: Lists, keep: set<int>, fos: set<int>)
    requires Kept(mem, mk, l, keep, fos) && Later(mem, mem')
    ensures Kept(mem', mk, l, keep, fos)
  {
    ClosedLater(mem, mem', keep);
    JustLater(mem, mem', mk, Quiet, keep + l.free);
  }

  /** Changes that leave all marked objects steady keep the invariant of the marker
      between collector calls. */
  lemma QuiescentSteady(track: bool, sh: Shape, sh': Shape, mem: Mem, mem': Mem, mk: Marker, mk': Marker)
    requires Quiescent(track, sh, mem, mk)
    requires sh'.Valid() && WordsOK(sh', mem'.words) && sh.lastBlock <= sh'.lastBlock && |mem'.statics| == |mem.statics|
    requires mem.dirty <= mem'.dirty && (!track ==> mem'.dirty == {})
    requires mk' == mk.(marked := mk'.marked)
    requires track ==> forall o {:trigger Steady(sh, sh', mem, mem', mk, mk', o)} ::
                         o in mk'.marked ==> Steady(sh, sh', mem, mem', mk, mk', o)
    requires MarksOK(sh', mk'.marked, mem'.uncLive) && StackOK(sh', |mem.statics|, mk.limit, mk.stack)
    requires !mk.objectsAreMarked ==> OnlyUncollectable(sh', mk'.marked)
    ensures Quiescent(track, sh', mem', mk')
  {
    if track { ColourSteady(sh, sh', mem, mem', mk, mk'); }
  }

  /** The members of J that are left hold the same words, or words that lead into J'. */
  ghost predicate Within(mem: Mem, mem': Mem, J: set<int>, J': set<int>, o: int) {
    o in mem'.words ==>
      || (o in J && o in mem.words && mem'.words[o] == mem.words[o]
          && forall v :: v in mem.words[o] && v in mem'.words ==> v in mem.words)
      || (forall v :: v in mem'.words[o] && v in mem'.words ==> v in J')
  }

  lemma ClosedWithin(mem: Mem, mem': Mem, J: set<int>, J': set<int>)
    requires ClosedIn(mem, J) && J <= J'
    requires forall v :: v in mem'.Src() && v in mem'.words ==> v in J'
    requires forall o {:trigger Within(mem, mem', J, J', o)} :: o in J' ==> Within(mem, mem', J, J', o)
    ensures ClosedIn(mem', J')
  {
    forall o, i | o in J' && IsPtr(mem'.words, o, i) ensures Word(mem'.words, o, i) in J' {
      assert Within(mem, mem', J, J', o);
      assert mem'.words[o][i] in mem'.words[o];
      if o in mem.words && mem'.words[o] == mem.words[o] { assert Word(mem.words, o, i) == Word(mem'.words, o, i); }
    }
  }

  // ---------------------------------------------------------------- sweeping a block

  /** The words and the free lists after the objects os of a block were swept: each
      is linked to the one before it, or to an object that was free already. */
  ghost predicate Swept(w0: Heap, w: Heap, marked: set<int>, free0: set<int>, free: set<int>, os: seq<int>) {
    && w.Keys == w0.Keys
    && free == free0 + (set o | o in os && o !in marked)
    && (forall o {:trigger w[o]} :: o in w ==>
          && |w[o]| == |w0[o]|
          && (if o in os && o !in marked then Cleared(w[o]) && Linked(w[o], free) else w[o] == w0[o]))
  }

  ghost predicate Linked(w: seq<int>, free: set<int>) { w != [] ==> w[0] == 0 || w[0] in free }

  /** Sweeping block b off the reclaim lists is invisible to the mutator. */
  lemma SweepKeeps(track: bool, sh: Shape, mem: Mem, mem': Mem, mk: Marker, mk': Marker, l: Lists, l': Lists, b: nat,
                   keep: set<int>, fos: set<int>)
    requires AtRest(track, sh, mem, mk, l, keep, fos) && b in l.reclaim
    requires Swept(mem.words, mem'.words, mk.marked, l.free, l'.free, sh.objs[b])
    requires mem' == mem.(words := mem'.words, dirty := mem'.dirty)
    requires mem'.dirty == if track then mem.dirty + {b} else mem.dirty
    requires mk' == mk.(marked := if b in sh.unc then mk.marked + (set o | o in sh.objs[b]) else mk.marked)
    requires l'.reclaim == l.reclaim - {b}
    ensures AtRest(track, sh, mem', mk', l', keep, fos)
    ensures SameToMutator(sh, sh, mem, mem') && l'.free !! mem.R()
  {
    assert sh.BlockOK(b);
    ReachIn(mem, keep);
    forall o | o in sh.objs[b] ensures o in sh.size && sh.blk[o] == b && (o in keep ==> o in mk.marked) {}
    forall o | o in keep && o in mem.words ensures o in mem'.words && mem'.words[o] == mem.words[o] {}
    GarbageIsInvisible(sh, sh, mem, mem');
    SweptQuiescent(track, sh, mem, mem', mk, mk', l, l', b);
    SweptKept(sh, mem, mem', mk, mk', l, l', b, keep, fos);
  }

  lemma SweptQuiescent(track: bool, sh: Shape, mem: Mem, mem': Mem, mk: Marker, mk': Marker, l: Lists, l': Lists,
                       b: nat)
    requires Quiescent(track, sh, mem, mk) && b in sh.objs && sh.BlockOK(b)
    requires Swept(mem.words, mem'.words, mk.marked, l.free, l'.free, sh.objs[b])
    requires mem' == mem.(words := mem'.words, dirty := mem'.dirty)
    requires mem'.dirty == if track then mem.dirty + {b} else mem.dirty
    requires mk' == mk.(marked := if b in sh.unc then mk.marked + (set o | o in sh.objs[b]) else mk.marked)
    ensures Quiescent(track, sh, mem', mk')
  {
    forall o | o in mk'.marked && track ensures Steady(sh, sh, mem, mem', mk, mk', o) {}
    QuiescentSteady(track, sh, sh, mem, mem', mk, mk');
  }

  lemma SweptKept(sh: Shape, mem: Mem, mem': Mem, mk: Marker, mk': Marker, l: Lists, l': Lists, b: nat,
                  keep: set<int>, fos: set<int>)
    requires Kept(mem, mk, l, keep, fos) && b in sh.objs && sh.BlockOK(b) && 0 !in mem.words && l.free <= mem.words.Keys
    requires Swept(mem.words, mem'.words, mk.marked, l.free, l'.free, sh.objs[b]) && mk.aim.Collect?
    requires mem' == mem.(words := mem'.words, dirty := mem'.dirty)
    requires mk' == mk.(marked := if b in sh.unc then mk.marked + (set o | o in sh.objs[b]) else mk.marked)
    requires forall o :: o in sh.objs[b] && o in keep ==> o in mk.marked
    ensures Kept(mem', mk', l', keep, fos)
  {
    var J, J' := keep + l.free, keep + l'.free;
    assert mem'.Src() == mem.Src();
    forall o | o in keep ensures Within(mem, mem', keep, keep, o) {}
    ClosedWithin(mem, mem', keep, keep);
    forall o | o in J' ensures Within(mem, mem', J, J', o) {
      if o in mem'.words && o in sh.objs[b] && o !in mk.marked {
        forall v | v in mem'.words[o] && v in mem'.words ensures v in J' {}
      }
    }
    ClosedWithin(mem, mem', J, J');
    forall e | e in mk'.stack ensures InJ(e.src, J') { assert InJ(e.src, J); }
  }

  // ---------------------------------------------------------------- the end of a collection

  /** The links of the free lists are zeroed. */
  function Clobbered(h: Heap, free: set<int>): (r: Heap)
    ensures r.Keys == h.Keys
    ensures forall o {:trigger r[o]} :: o in r ==> |r[o]| == |h[o]| && (o !in free ==> r[o] == h[o])
  {
    map o | o in h :: if o in free && |h[o]| > 0 then h[o][0 := 0] else h[o]
  }

  /** The free lists are dropped: their marks cleared, their links clobbered.  What
      is marked and on no list is all that is kept. */
  lemma DropKeeps(track: bool, sh: Shape, mem: Mem, mem': Mem, mk: Marker, mk': Marker, l: Lists, keep: set<int>,
                  fos: set<int>)
    requires Quiescent(track, sh, mem, mk) && Kept(mem, mk, l, keep, fos) && mk.stack == []
    requires FreeOK(sh, keep, mk.marked, mem.uncLive, l)
    requires mem.R() <= mk.marked && fos <= mk.marked && Leads(mem.words, mk.marked, mk.marked)
    requires mem' == mem.(words := mem'.words) && mem'.words.Keys == mem.words.Keys
    requires forall o {:trigger mem'.words[o]} :: o in mem'.words ==>
               |mem'.words[o]| == |mem.words[o]| && (o !in l.free ==> mem'.words[o] == mem.words[o])
    requires mk' == mk.(marked := mk.marked - l.free)
    ensures AtRest(track, sh, mem', mk', Lists({}, {}), mk'.marked, fos)
    ensures SameToMutator(sh, sh, mem, mem') && mem'.R() <= mk'.marked
  {
    ReachIn(mem, keep);
    forall o | o in mem.R() ensures o in mem'.words && mem'.words[o] == mem.words[o] {}
    GarbageIsInvisible(sh, sh, mem, mem');
    DropClosed(mem, mk, l, keep, fos);
    forall o | o in mk'.marked ensures Within(mem, mem', mk'.marked, mk'.marked, o) {}
    assert mem'.Src() == mem.Src();
    ClosedWithin(mem, mem', mk'.marked, mk'.marked);
    forall o | o in mk'.marked && track ensures Steady(sh, sh, mem, mem', mk, mk', o) {
      forall v | v in mem.words[o] && v in mem.words ensures v in mk.marked ==> v in mk'.marked {
        var i :| 0 <= i < |mem.words[o]| && mem.words[o][i] == v;
        assert Word(mem.words, o, i) == v;
      }
    }
    QuiescentSteady(track, sh, sh, mem, mem', mk, mk');
    assert mk'.marked + {} == mk'.marked;
  }

  /** Marked objects on no free list point to such objects only. */
  lemma DropClosed(mem: Mem, mk: Marker, l: Lists, keep: set<int>, fos: set<int>)
    requires Kept(mem, mk, l, keep, fos) && l.free !! keep && mk.aim.Collect?
    requires mem.R() <= mk.marked && Leads(mem.words, mk.marked, mk.marked)
    ensures ClosedIn(mem, mk.marked - l.free)
  {
    forall v | v in mem.Src() && v in mem.words ensures v in mk.marked - l.free { ReachRoot(mem.words, mem.Src(), v); }
    forall o, i | o in mk.marked - l.free && IsPtr(mem.words, o, i)
      ensures Word(mem.words, o, i) in mk.marked - l.free
    {
      assert o in keep && Word(mem.words, o, i) in keep;
    }
  }

  /** Putting a block on the reclaim lists, when only marked objects are kept. */
  lemma EnqueueKeeps(sh: Shape, mem: Mem, mk: Marker, l: Lists, b: nat, keep: set<int>)
    requires ListsOK(sh, mem, mk, l, keep) && l.free == {} && b in sh.objs && keep <= mk.marked
    ensures ListsOK(sh, mem, mk, l.(reclaim := l.reclaim + {b}), keep)
  {
  }

  /** How many of the objects os are marked, and GC_block_nearly_full. */
  function Marks(os: seq<int>, marked: set<int>): nat { |set o | o in os && o in marked| }

  predicate NearlyFull(os: seq<int>, marked: set<int>) { Marks(os, marked) > 7 * |os| / 8 }

  /** What GC_reclaim_block makes of block b. */
  ghost predicate Sorted(sh: Shape, marked: set<int>, l: Lists, b: int) {
    0 <= b && b in sh.objs ==>
      Marks(sh.objs[b], marked) > 0 && (b in l.reclaim <==> !NearlyFull(sh.objs[b], marked))
  }

  ghost predicate SortedBelow(sh: Shape, marked: set<int>, l: Lists, b: int) {
    forall c {:trigger Sorted(sh, marked, l, c)} :: c < b ==> Sorted(sh, marked, l, c)
  }

  /** No block from b on waits to be swept. */
  ghost predicate NoneFrom(l: Lists, b: int) { forall c {:trigger c in l.reclaim} :: b <= c ==> c !in l.reclaim }

  lemma SortedNext(sh: Shape, sh': Shape, marked: set<int>, l: Lists, l': Lists, b: nat)
    requires SortedBelow(sh, marked, l, b) && sh'.objs - {b} == sh.objs - {b} && Sorted(sh', marked, l', b)
    requires l'.reclaim - {b} == l.reclaim - {b}
    ensures SortedBelow(sh', marked, l', b + 1)
  {
    forall c | c < b ensures Sorted(sh', marked, l', c) {
      assert Sorted(sh, marked, l, c);
      if 0 <= c {
        assert c in sh'.objs <==> c in sh'.objs - {b};
        assert c in sh'.objs ==> sh'.objs[c] == (sh'.objs - {b})[c] == (sh.objs - {b})[c] == sh.objs[c];
        assert c in l'.reclaim <==> c in l'.reclaim - {b};
        assert c in l.reclaim <==> c in l.reclaim - {b};
      }
    }
  }

  /** The block headers without block b. */
  function WithoutBlock(sh: Shape, b: nat): (r: Shape)
    requires b in sh.objs
  {
    var gone := set o | o in sh.objs[b];
    sh.(size := sh.size - gone, blk := sh.blk - gone, objs := sh.objs - {b}, unc := sh.unc - {b},
    accel := sh.accel - {b})
  }

  lemma WithoutBlockValid(sh: Shape, b: nat)
    requires sh.Valid() && b in sh.objs
    ensures WithoutBlock(sh, b).Valid()
  {
    var r := WithoutBlock(sh, b);
    assert sh.BlockOK(b);
    forall o | o in r.size ensures r.ObjOK(o) { assert sh.ObjOK(o); }
    forall c | c in r.objs ensures r.BlockOK(c) {
      assert sh.BlockOK(c);
      forall k | 0 <= k < |r.objs[c]| ensures r.objs[c][k] in r.size && r.blk[r.objs[c][k]] == c {
        assert sh.objs[c][k] in sh.size && sh.blk[sh.objs[c][k]] == c;
      }
    }
  }

  /** GC_reclaim_block has dealt with block b. */
  lemma SortedReclaimed(sh: Shape, sh': Shape, marked: set<int>, l: Lists, l': Lists, b: nat)
    requires SortedBelow(sh, marked, l, b) && NoneFrom(l, b)
    requires b !in sh.objs ==> sh' == sh && l' == l
    requires b in sh.objs && Marks(sh.objs[b], marked) == 0 ==> sh' == WithoutBlock(sh, b) && l' == l
    requires b in sh.objs && Marks(sh.objs[b], marked) != 0 ==>
               sh' == sh && l'.reclaim == l.reclaim + if NearlyFull(sh.objs[b], marked) then {} else {b}
    ensures SortedBelow(sh', marked, l', b + 1) && NoneFrom(l', b + 1) && sh'.lastBlock == sh.lastBlock
  {
    assert b !in l.reclaim;
    SortedNext(sh, sh', marked, l, l', b);
  }

  /** Giving back a block without marks, when only marked objects are kept. */
  lemma FreeBlockKeeps(track: bool, sh: Shape, mem: Mem, mem': Mem, mk: Marker, l: Lists, b: nat, keep: set<int>,
                       fos: set<int>)
    requires AtRest(track, sh, mem, mk, l, keep, fos) && keep <= mk.marked && mk.stack == []
    requires mk.state == None && b in sh.objs && b !in l.reclaim && l.free == {}
    requires forall o :: o in sh.objs[b] ==> o !in mk.marked
    requires mem' == mem.(words := mem.words - (set o | o in sh.objs[b]))
    ensures AtRest(track, WithoutBlock(sh, b), mem', mk, l, keep, fos)
    ensures SameToMutator(sh, WithoutBlock(sh, b), mem, mem')
  {
    var sh' := WithoutBlock(sh, b);
    WithoutBlockValid(sh, b);
    assert sh.BlockOK(b);
    ReachIn(mem, keep);
    forall o | o in mk.marked ensures o in sh'.size && sh'.blk[o] == sh.blk[o] && sh.blk[o] != b {
      assert sh.ObjOK(o);
    }
    forall o | o in mk.marked ensures o in mem'.words && mem'.words[o] == mem.words[o] {}
    GarbageIsInvisible(sh, sh', mem, mem');
    forall o | o in mk.marked && track ensures Steady(sh, sh', mem, mem', mk, mk, o) {}
    QuiescentSteady(track, sh, sh', mem, mem', mk, mk);
    assert mem'.Src() == mem.Src() && keep + l.free == keep;
    forall o | o in keep ensures Within(mem, mem', keep, keep, o) {}
    ClosedWithin(mem, mem', keep, keep);
  }

  // ---------------------------------------------------------------- allocation

  /** Memory after the free object o was handed out with its link cleared. */
  function Allocated(sh: Shape, mem: Mem, o: int, track: bool): (r: Mem)
    requires o in mem.words && o in sh.blk
  {
    var w := mem.words[o];
    mem.(words := mem.words[o := if |w| > 0 then w[0 := 0] else w],
    regs := mem.regs + [o],
    uncLive := if sh.blk[o] in sh.unc then mem.uncLive + {o} else mem.uncLive,
    dirty := if track then mem.dirty + {sh.blk[o]} else mem.dirty)
  }

  /** An object handed out is one nobody could reach, and brings no pointers. */
  lemma AllocReach(sh: Shape, mem: Mem, l: Lists, o: int, track: bool)
    requires sh.Valid() && WordsOK(sh, mem.words) && o in l.free && o in mem.words && Blank(mem.words, l)
    ensures Allocated(sh, mem, o, track).R() <= mem.R() + {o}
    ensures forall v :: v in Allocated(sh, mem, o, track).words[o] ==> v == 0
  {
    var m' := Allocated(sh, mem, o, track);
    assert Cleared(mem.words[o]);
    assert forall v :: v in m'.words[o] ==> v == 0;
    ReachFresh(mem.words, mem.Src(), o, m'.words[o], m'.Src());
  }

  /** An object handed out is kept from then on. */
  lemma AllocKeeps(track: bool, sh: Shape, mem: Mem, mk: Marker, l: Lists, o: int, keep: set<int>, fos: set<int>)
    requires AtRest(track, sh, mem, mk, l, keep, fos) && o in l.free
    ensures var mem' := Allocated(sh, mem, o, track);
            && AtRest(track, sh, mem', mk, l.(free := l.free - {o}), keep + {o}, fos)
            && o !in mem.R() && mem'.R() <= mem.R() + {o}
  {
    var mem' := Allocated(sh, mem, o, track);
    ReachIn(mem, keep);
    AllocReach(sh, mem, l, o, track);
    forall q | q in mk.marked && track ensures Steady(sh, sh, mem, mem', mk, mk, q) {}
    QuiescentSteady(track, sh, sh, mem, mem', mk, mk);
    AllocKept(sh, mem, mk, l, o, keep, fos, track);
  }

  lemma AllocSrc(sh: Shape, mem: Mem, o: int, track: bool)
    requires o in mem.words && o in sh.blk
    ensures forall v :: v in Allocated(sh, mem, o, track).Src() ==> v in mem.Src() || v == o
  {
    var mem' := Allocated(sh, mem, o, track);
    forall v | v in mem'.Src() ensures v in mem.Src() || v == o {
      if v in mem'.regs + mem'.now && v != o { assert v in mem.regs || v in mem.now; }
    }
  }

  lemma AllocKept(sh: Shape, mem: Mem, mk: Marker, l: Lists, o: int, keep: set<int>, fos: set<int>, track: bool)
    requires sh.Valid() && WordsOK(sh, mem.words) && Blank(mem.words, l)
    requires Kept(mem, mk, l, keep, fos) && o in l.free && o in mem.words && mk.aim.Collect?
    ensures Kept(Allocated(sh, mem, o, track), mk, l.(free := l.free - {o}), keep + {o}, fos)
  {
    var mem' := Allocated(sh, mem, o, track);
    AllocReach(sh, mem, l, o, track);
    AllocSrc(sh, mem, o, track);
    forall q | q in keep + {o} ensures Within(mem, mem', keep, keep + {o}, q) {}
    ClosedWithin(mem, mem', keep, keep + {o});
    var J, J' := keep + l.free, (keep + {o}) + (l.free - {o});
    assert J' == J;
    forall q | q in J ensures Within(mem, mem', J, J, q) {}
    ClosedWithin(mem, mem', J, J);
  }

  /** The block headers with a new block b holding the objects os. */
  function WithBlock(sh: Shape, b: nat, os: seq<int>, n: nat, unc: bool, small: bool): (r: Shape)
  {
    var new_ := set o | o in os;
    sh.(size := sh.size + (map o | o in new_ :: n), blk := sh.blk + (map o | o in new_ :: b),
    objs := sh.objs[b := os],
    unc := if unc then sh.unc + {b} else sh.unc,
    accel := if small then sh.accel + {b} else sh.accel,
    lastBlock := if b > sh.lastBlock then b else sh.lastBlock,
    least := Least(sh.least, os), greatest := Greatest(sh.greatest, os))
  }

  function Least(lo: int, os: seq<int>): (r: int)
    ensures r <= lo && forall o :: o in os ==> r <= o
  {
    if os == [] then lo else
      assert forall o :: o in os ==> o == os[0] || o in os[1..];
      var r := Least(lo, os[1..]);
      if os[0] < r then os[0] else r
  }

  function Greatest(hi: int, os: seq<int>): (r: int)
    ensures r >= hi && forall o :: o in os ==> r > o
  {
    if os == [] then hi else
      assert forall o :: o in os ==> o == os[0] || o in os[1..];
      var r := Greatest(hi, os[1..]);
      if os[0] >= r then os[0] + 1 else r
  }

  lemma WithBlockValid(sh: Shape, b: nat, os: seq<int>, n: nat, unc: bool, small: bool)
    requires sh.Valid() && 0 < b && b !in sh.objs && |os| <= MAX_BLOCK_OBJS && 0 !in os
    requires forall o :: o in os ==> o !in sh.size
    ensures WithBlock(sh, b, os, n, unc, small).Valid()
  {
    var r := WithBlock(sh, b, os, n, unc, small);
    forall o | o in r.size ensures r.ObjOK(o) {
      if o in sh.size { assert sh.ObjOK(o); }
    }
    forall c | c in r.objs ensures r.BlockOK(c) {
      if c != b {
        assert sh.BlockOK(c);
        forall k | 0 <= k < |r.objs[c]| ensures r.objs[c][k] in r.size && r.blk[r.objs[c][k]] == c {
          assert sh.objs[c][k] in sh.size && sh.blk[sh.objs[c][k]] == c;
        }
      }
    }
  }

  /** No word of memory is the address of one of os. */
  ghost predicate Unmentioned(mem: Mem, os: seq<int>) {
    && (forall v {:trigger v in os} :: v in mem.Src() ==> v !in os)
    && (forall o {:trigger mem.words[o]} ::
            o in mem.words ==> forall v {:trigger v in os} :: v in mem.words[o] ==> v !in os)
  }

  /** Memory gains the objects os, cleared and linked to one another or to the free
      object head, and nothing else changes. */
  ghost predicate Gains(h: Heap, h': Heap, os: seq<int>, n: nat, head: int) {
    && h'.Keys == h.Keys + (set o | o in os)
    && (forall o {:trigger h'[o]} :: o in h' ==>
          if o in os then |h'[o]| == n && Cleared(h'[o]) && (n > 0 ==> h'[o][0] == head || h'[o][0] in os)
          else h'[o] == h[o])
  }

  /** GC_build_fl: each object is linked to the one before it, the first to head. */
  function BuildFl(h: Heap, os: seq<int>, n: nat, head: int): (r: Heap) {
    if os == [] then h
    else
      var k := |os| - 1;
      BuildFl(h, os[..k], n, head)[os[k] := ClearedWords(n, if k == 0 then head else os[k - 1])]
  }

  lemma {:induction false} BuildFlGains(h: Heap, os: seq<int>, n: nat, head: int)
    ensures Gains(h, BuildFl(h, os, n, head), os, n, head)
    decreases |os|
  {
    if os != [] {
      var k := |os| - 1;
      BuildFlGains(h, os[..k], n, head);
      assert os == os[..k] + [os[k]];
      assert k > 0 ==> os[k - 1] in os;
    }
  }

  /** Memory with the new block b of free objects os. */
  function WithNew(mem: Mem, b: nat, os: seq<int>, n: nat, head: int, track: bool): (r: Mem) {
    mem.(words := BuildFl(mem.words, os, n, head), dirty := if track then mem.dirty + {b} else mem.dirty)
  }

  /** The old objects keep their sizes and blocks. */
  ghost predicate Extends(sh: Shape, sh': Shape, b: nat) {
    && sh.size.Keys == sh.blk.Keys && sh.size.Keys <= sh'.size.Keys && sh.blk.Keys <= sh'.blk.Keys
    && (forall o {:trigger sh'.size[o]} :: o in sh.size ==>
          sh'.size[o] == sh.size[o] && sh'.blk[o] == sh.blk[o] != b)
    && sh'.unc - {b} == sh.unc - {b}
  }

  /** sh' is sh with a new block b of the n-word objects os. */
  ghost predicate HasNew(sh: Shape, sh': Shape, b: nat, os: seq<int>, n: nat, unc: bool) {
    && Extends(sh, sh', b) && sh'.Valid() && sh.lastBlock <= sh'.lastBlock && sh.objs.Keys <= sh'.objs.Keys
    && sh'.size.Keys == sh'.blk.Keys == sh.size.Keys + (set o | o in os)
    && (forall o :: o in os ==> sh'.size[o] == n && sh'.blk[o] == b)
    && (b in sh'.unc <==> unc)
  }

  lemma WithBlockIsNew(sh: Shape, b: nat, os: seq<int>, n: nat, unc: bool, small: bool)
    requires sh.Valid() && 0 < b && b !in sh.objs && |os| <= MAX_BLOCK_OBJS && 0 !in os
    requires forall o :: o in os ==> o !in sh.size
    ensures HasNew(sh, WithBlock(sh, b, os, n, unc, small), b, os, n, unc)
  {
    WithBlockValid(sh, b, os, n, unc, small);
    forall o | o in sh.size ensures sh.blk[o] != b { assert sh.ObjOK(o); }
  }

  lemma GainsIsInvisible(sh: Shape, sh': Shape, b: nat, mem: Mem, mem': Mem, os: seq<int>, n: nat, head: int)
    requires WordsOK(sh, mem.words) && Extends(sh, sh', b) && Gains(mem.words, mem'.words, os, n, head)
    requires (forall o :: o in os ==> o !in mem.words) && Unmentioned(mem, os)
    requires mem' == mem.(words := mem'.words, dirty := mem'.dirty)
    ensures SameToMutator(sh, sh', mem, mem')
  {
    forall o | o in mem.R() ensures o in mem'.words && mem'.words[o] == mem.words[o] && sh'.blk[o] == sh.blk[o] {
      assert sh'.size[o] == sh.size[o];
    }
    forall o, v | o in mem.R() && v in mem'.words[o] && v in mem'.words ensures v in mem.words {
      assert v in mem.words[o];
    }
    GarbageIsInvisible(sh, sh', mem, mem');
  }

  /** The old objects lie in the same blocks, of the same kind. */
  lemma ExtendsBlk(sh: Shape, sh': Shape, b: nat, o: int)
    requires Extends(sh, sh', b) && o in sh.size
    ensures sh'.size[o] == sh.size[o] && sh'.blk[o] == sh.blk[o] && (sh.blk[o] in sh.unc <==> sh.blk[o] in sh'.unc)
  {
    assert sh'.size[o] == sh.size[o];
    assert sh.blk[o] in sh.unc <==> sh.blk[o] in sh.unc - {b};
    assert sh.blk[o] in sh'.unc <==> sh.blk[o] in sh'.unc - {b};
  }

  lemma GainsQuiescent(track: bool, sh: Shape, sh': Shape, b: nat, mem: Mem, mem': Mem, mk: Marker, mk': Marker,
                       os: seq<int>, n: nat, head: int)
    requires Quiescent(track, sh, mem, mk) && Extends(sh, sh', b) && Gains(mem.words, mem'.words, os, n, head)
    requires sh'.Valid() && WordsOK(sh', mem'.words) && sh.lastBlock <= sh'.lastBlock && Unmentioned(mem, os)
    requires mem' == mem.(words := mem'.words, dirty := if track then mem.dirty + {b} else mem.dirty)
    requires mk' == mk.(marked := mk'.marked) && mk.marked <= mk'.marked <= sh'.size.Keys
    requires forall o :: o in os ==> o !in mem.words && sh'.blk[o] == b
    requires forall o :: o in mk'.marked && o !in mk.marked ==> o in os && b in sh'.unc
    ensures Quiescent(track, sh', mem', mk')
  {
    forall e | e in mk.stack ensures EntryOK(sh', |mem.statics|, e) {
      assert EntryOK(sh, |mem.statics|, e);
      if e.src.Object? { ExtendsBlk(sh, sh', b, e.src.o); }
    }
    forall o | o in sh.size ensures sh'.blk[o] == sh.blk[o] && (sh.blk[o] in sh.unc <==> sh.blk[o] in sh'.unc) {
      ExtendsBlk(sh, sh', b, o);
    }
    forall o | o in mk'.marked && track ensures Steady(sh, sh', mem, mem', mk, mk', o) {}
    QuiescentSteady(track, sh, sh', mem, mem', mk, mk');
  }

  lemma GainsLists(sh: Shape, sh': Shape, b: nat, mem: Mem, mem': Mem, mk: Marker, mk': Marker,
                   l: Lists, os: seq<int>, n: nat, head: int, keep: set<int>)
    requires Extends(sh, sh', b) && sh'.Valid() && WordsOK(sh, mem.words) && WordsOK(sh', mem'.words)
    requires ListsOK(sh, mem, mk, l, keep) && MarksOK(sh, mk.marked, mem.uncLive) && b !in l.reclaim
    requires l.reclaim <= sh'.objs.Keys
    requires Gains(mem.words, mem'.words, os, n, head) && mk.marked <= mk'.marked && mem'.uncLive == mem.uncLive
    requires forall o ::
            o in os ==> o !in mem.words && o !in keep && sh'.blk[o] == b && (b in sh'.unc ==> o in mk'.marked)
    ensures ListsOK(sh', mem', mk', l.(free := l.free + (set o | o in os)), keep)
  {
    var l' := l.(free := l.free + (set o | o in os));
    forall o | o in sh.size ensures sh'.blk[o] == sh.blk[o] && (sh.blk[o] in sh.unc <==> sh.blk[o] in sh'.unc) {
      ExtendsBlk(sh, sh', b, o);
    }
    forall o | o in l'.free ensures o in mem'.words && Cleared(mem'.words[o]) && o !in keep && o !in mem.uncLive {}
    forall o | o in l'.free ensures sh'.blk[o] !in l.reclaim && (sh'.blk[o] in sh'.unc ==> o in mk'.marked) {}
    forall o | o in sh'.blk && sh'.blk[o] in l.reclaim && o !in mk'.marked ensures o !in keep {
      if o in os {} else { assert sh.blk[o] in l.reclaim; }
    }
  }

  lemma GainsKept(mem: Mem, mem': Mem, mk: Marker, mk': Marker, l: Lists, os: seq<int>, n: nat, head: int,
                  keep: set<int>, fos: set<int>)
    requires Kept(mem, mk, l, keep, fos) && Gains(mem.words, mem'.words, os, n, head) && Unmentioned(mem, os)
    requires mem' == mem.(words := mem'.words, dirty := mem'.dirty) && mk.aim.Collect?
    requires (head == 0 || head in l.free) && 0 !in mem'.words && forall o :: o in os ==> o !in mem.words
    requires mk' == mk.(marked := mk'.marked) && mk'.marked <= mk.marked + (set o | o in os)
    requires keep !! (set o | o in os)
    ensures Kept(mem', mk', l.(free := l.free + (set o | o in os)), keep, fos)
  {
    var J, J' := keep + l.free, keep + (l.free + (set o | o in os));
    assert mem'.Src() == mem.Src();
    forall o | o in keep ensures Within(mem, mem', keep, keep, o) {}
    ClosedWithin(mem, mem', keep, keep);
    forall o | o in J' ensures Within(mem, mem', J, J', o) {
      if o in os {
        forall v | v in mem'.words[o] && v in mem'.words ensures v in J' {}
      }
    }
    ClosedWithin(mem, mem', J, J');
    forall e | e in mk'.stack ensures InJ(e.src, J') { assert InJ(e.src, J); }
  }

  /** Adding a block of free objects is invisible to the mutator. */
  lemma NewBlockKeeps(track: bool, sh: Shape, sh': Shape, mem: Mem, mem': Mem, mk: Marker, mk': Marker, l: Lists,
                      b: nat, os: seq<int>, n: nat, unc: bool, head: int, keep: set<int>, fos: set<int>)
    requires AtRest(track, sh, mem, mk, l, keep, fos) && (head == 0 || head in l.free)
    requires b !in sh.objs && 0 !in os && (forall o :: o in os ==> o !in sh.size) && Unmentioned(mem, os)
    requires HasNew(sh, sh', b, os, n, unc) && Gains(mem.words, mem'.words, os, n, head)
    requires mem' == mem.(words := mem'.words, dirty := if track then mem.dirty + {b} else mem.dirty)
    requires mk' == mk.(marked := if unc then mk.marked + (set o | o in os) else mk.marked)
    ensures AtRest(track, sh', mem', mk', l.(free := l.free + (set o | o in os)), keep, fos)
    ensures SameToMutator(sh, sh', mem, mem')
  {
    GainsIsInvisible(sh, sh', b, mem, mem', os, n, head);
    GainsWords(sh, sh', b, mem.words, mem'.words, os, n, unc, head);
    GainsQuiescent(track, sh, sh', b, mem, mem', mk, mk', os, n, head);
    GainsLists(sh, sh', b, mem, mem', mk, mk', l, os, n, head, keep);
    GainsKept(mem, mem', mk, mk', l, os, n, head, keep, fos);
  }

  /** GC_new_hblk: the headers, the free list and the marks of the new block. */
  lemma WithBlockKeeps(track: bool, sh: Shape, mem: Mem, mk: Marker, mk': Marker, l: Lists,
                       b: nat, os: seq<int>, n: nat, unc: bool, small: bool, head: int, keep: set<int>, fos: set<int>)
    requires AtRest(track, sh, mem, mk, l, keep, fos) && (head == 0 || head in l.free) && Unmentioned(mem, os)
    requires 0 < b && b !in sh.objs && |os| <= MAX_BLOCK_OBJS && 0 !in os && forall o :: o in os ==> o !in sh.size
    requires mk' == mk.(marked := if unc then mk.marked + (set o | o in os) else mk.marked)
    ensures var sh', mem' := WithBlock(sh, b, os, n, unc, small), WithNew(mem, b, os, n, head, track);
            && AtRest(track, sh', mem', mk', l.(free := l.free + (set o | o in os)), keep, fos)
            && SameToMutator(sh, sh', mem, mem') && |mem'.statics| == |mem.statics|
  {
    var sh', mem' := WithBlock(sh, b, os, n, unc, small), WithNew(mem, b, os, n, head, track);
    WithBlockIsNew(sh, b, os, n, unc, small);
    BuildFlGains(mem.words, os, n, head);
    NewBlockKeeps(track, sh, sh', mem, mem', mk, mk', l, b, os, n, unc, head, keep, fos);
  }

  lemma GainsWords(sh: Shape, sh': Shape, b: nat, h: Heap, h': Heap, os: seq<int>, n: nat, unc: bool, head: int)
    requires WordsOK(sh, h) && HasNew(sh, sh', b, os, n, unc) && Gains(h, h', os, n, head)
    ensures WordsOK(sh', h')
  {
    forall o | o in h' ensures |h'[o]| == sh'.size[o] {
      if o !in os { assert sh'.size[o] == sh.size[o] && |h[o]| == sh.size[o]; }
    }
  }
}
