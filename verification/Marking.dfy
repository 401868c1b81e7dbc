/** The marker's data and its invariant: the mark states of GC_mark_some, the
    bounded mark stack, and what has to hold of the mark bits in each state. */
module Marking {
  import opened Graph

  // A 64-bit configuration: 4096-byte blocks, 16-byte granules.
  const INITIAL_MARK_STACK_SIZE: nat := 4096
  const MARK_STACK_DISCARDS: nat := 512   // entries thrown away on overflow
  const SPLIT_RANGE_WORDS: nat := 128
  const HBLK_WORDS: nat := 512
  const MAX_BLOCK_OBJS: nat := 256        // objects of one granule in one block

  datatype State =
    | None | PushRescuers | PushUncollectable | RootsPushed | PartiallyInvalid | Invalid

  /** Where a range of words lies. */
  datatype Src = Static | Object(o: int)

  /** A mark stack entry: words lo..hi of an object or of the static roots. */
  datatype Entry = Entry(src: Src, lo: nat, hi: nat)

  /** The range being scanned: words lo..hi of src, and the deferred word d. */
  datatype Act = Act(src: Src, lo: int, hi: int, d: int)

  const Quiet := Act(Static, 0, 0, -1)

  /** The block headers: the objects each allocated block is divided into. */
  datatype Shape = Shape(
    size: map<int, nat>,        // words the descriptor of an object covers
    blk: map<int, nat>,         // the block an object lies in
    objs: map<nat, seq<int>>,   // the objects of an allocated block
    unc: set<nat>,              // blocks of uncollectable objects
    accel: set<nat>,            // blocks of objects of 1, 2 or 4 granules
    lastBlock: nat,
    least: int,                 // the plausible heap addresses
    greatest: int)
  {
    ghost predicate Valid() {
      && blk.Keys == size.Keys && 0 !in size
      && unc <= objs.Keys
      && (forall o {:trigger ObjOK(o)} :: o in size ==> ObjOK(o))
      && (forall b {:trigger BlockOK(b)} :: b in objs ==> BlockOK(b))
    }

    ghost predicate ObjOK(o: int) {
      least <= o < greatest && o in blk && blk[o] in objs && o in objs[blk[o]]
    }

    ghost predicate BlockOK(b: nat) {
      && b in objs && 0 < b <= lastBlock && |objs[b]| <= MAX_BLOCK_OBJS
      && (forall k :: 0 <= k < |objs[b]| ==>
                        objs[b][k] in size && objs[b][k] in blk && blk[objs[b][k]] == b)
    }
  }

  /** What the mutator works on, and the pages it has written. */
  datatype Mem = Mem(
    words: Heap,
    statics: seq<int>,          // the static data segments
    regs: seq<int>,             // registers and stacks of all mutator threads
    now: seq<int>,              // GC_finalize_now, the last enqueued first
    uncLive: set<int>,          // uncollectable objects handed out
    dirty: set<nat>)            // blocks written since the dirty bits were read
  {
    /** The words from which the mutator can start. */
    ghost function Src(): set<int> { (set v | v in statics) + (set v | v in regs + now) + uncLive }

    /** The objects the mutator can reach. */
    ghost function R(): (r: set<int>)
      ensures r <= words.Keys
    {
      Reach(words, Src())
    }
  }

  /** What the marker is at work for: a collection, or GC_MARK_FO, which marks from
      object p without marking p itself, with the mutator running. */
  datatype Aim = Collect | Final(p: int)

  /** The marker's own globals. */
  datatype Marker = Marker(
    marked: set<int>,
    limit: nat,                 // size of the mark stack
    stack: seq<Entry>,
    state: State,
    scanPtr: nat,
    objectsAreMarked: bool,
    tooSmall: bool,
    grungy: set<nat>,           // blocks that were dirty when the bits were read
    stopped: bool,              // is the world stopped?
    aim: Aim)

  /** Mentioned where an invariant that is passed around whole is to be looked into. */
  ghost predicate Open(i: int) { true }

  // ---------------------------------------------------------------- the invariant

  /** Word i of object o, and whether there is one and it is a pointer. */
  ghost function Word(h: Heap, o: int, i: int): int {
    if o in h && 0 <= i < |h[o]| then h[o][i] else 0
  }

  ghost predicate IsPtr(h: Heap, o: int, i: int) {
    o in h && 0 <= i < |h[o]| && h[o][i] in h
  }

  ghost predicate Has(e: Entry, s: Src, i: int) { e.src == s && e.lo <= i < e.hi }

  ghost predicate InAct(a: Act, s: Src, i: int) { a.src == s && (a.lo <= i < a.hi || 0 <= i == a.d) }

  /** Word i of s lies in a range still to be scanned. */
  ghost predicate Pending(stack: seq<Entry>, a: Act, s: Src, i: int) {
    InAct(a, s, i) || exists e :: e in stack && Has(e, s, i)
  }

  /** Every pointer in an object of from that is neither dirty nor exempt leads to a
      marked object or lies in a range still to be scanned. */
  ghost predicate Tri(h: Heap, blk: map<int, nat>, from: set<int>, marked: set<int>,
                      stack: seq<Entry>, a: Act, dirty: set<nat>, ex: set<int>)
    requires h.Keys <= blk.Keys
  {
    forall o, i {:trigger Word(h, o, i)} ::
      o in from && IsPtr(h, o, i) && o !in ex && blk[o] !in dirty
      ==> Word(h, o, i) in marked || Pending(stack, a, Object(o), i)
  }

  /** The objects the marker answers for: all marked ones, and the one it marks from. */
  ghost function From(mk: Marker): set<int> {
    if mk.aim.Final? then mk.marked + {mk.aim.p} else mk.marked
  }

  /** The blocks that will be looked at again. */
  ghost function Dirt(mem: Mem, mk: Marker): set<nat> { if mk.aim.Final? then {} else mem.dirty }

  /** May objects of block b break the invariant in this state? */
  ghost predicate Ex(state: State, scanPtr: nat, grungy: set<nat>, unc: set<nat>, b: nat) {
    match state
    case Invalid => true
    case PartiallyInvalid => b >= scanPtr
    case PushRescuers => b >= scanPtr && b in grungy
    case PushUncollectable => b >= scanPtr && b in unc
    case _ => false
  }

  /** The objects that may break it, once those in done have been pushed. */
  ghost function ExSet(sh: Shape, mk: Marker, done: set<int>): set<int> {
    set o | o in sh.blk && Ex(mk.state, mk.scanPtr, mk.grungy, sh.unc, sh.blk[o])
            && (mk.state == Invalid || o !in done)
  }

  ghost predicate WordsOK(sh: Shape, words: Heap) {
    && words.Keys == sh.size.Keys == sh.blk.Keys
    && forall o {:trigger words[o]} :: o in words ==> |words[o]| == sh.size[o]
  }

  ghost predicate MarksOK(sh: Shape, marked: set<int>, uncLive: set<int>) {
    uncLive <= marked <= sh.size.Keys
  }

  ghost predicate EntryOK(sh: Shape, nStatics: nat, e: Entry) {
    && e.lo < e.hi
    && match e.src
       case Static => e.hi <= nStatics
       case Object(o) => o in sh.size && e.hi <= sh.size[o]
  }

  ghost predicate StackOK(sh: Shape, nStatics: nat, limit: nat, stack: seq<Entry>) {
    && INITIAL_MARK_STACK_SIZE <= limit
    && |stack| <= limit
    && (forall e {:trigger EntryOK(sh, nStatics, e)} :: e in stack ==> EntryOK(sh, nStatics, e))
  }

  ghost predicate Core(sh: Shape, mem: Mem, mk: Marker) {
    && WordsOK(sh, mem.words)
    && MarksOK(sh, mk.marked, mem.uncLive)
    && StackOK(sh, |mem.statics|, mk.limit, mk.stack)
    && (mk.stopped ==> mem.dirty == {})
  }

  ghost predicate RootsDone(mem: Mem, marked: set<int>, stack: seq<Entry>, a: Act) {
    && (forall i {:trigger mem.statics[i]} :: 0 <= i < |mem.statics| && mem.statics[i] in mem.words
         ==> mem.statics[i] in marked || Pending(stack, a, Static, i))
    && (forall v :: v in mem.regs + mem.now && v in mem.words ==> v in marked)
  }

  /** The invariant of the current mark state, with a the range that has been
      taken off the stack and is being scanned. */
  ghost predicate Colour(sh: Shape, mem: Mem, mk: Marker, a: Act, done: set<int>)
    requires WordsOK(sh, mem.words)
  {
    && Tri(mem.words, sh.blk, From(mk), mk.marked, mk.stack, a, Dirt(mem, mk), ExSet(sh, mk, done))
    && (mk.stopped && mk.state == RootsPushed ==> RootsDone(mem, mk.marked, mk.stack, a))
    && Seen(mem, mk)
  }

  /** While objects are finalized everything the mutator can reach is marked. */
  ghost predicate Seen(mem: Mem, mk: Marker) { mk.aim.Final? ==> mem.R() <= mk.marked }

  /** Every pointer in an object of from leads to a marked object. */
  ghost predicate Leads(h: Heap, from: set<int>, marked: set<int>) {
    forall o, i {:trigger Word(h, o, i)} :: o in from && IsPtr(h, o, i) ==> Word(h, o, i) in marked
  }

  /** The set J holds what the roots point to and is closed under pointers. */
  ghost predicate ClosedIn(mem: Mem, J: set<int>) {
    (forall v {:trigger v in mem.Src()} :: v in mem.Src() && v in mem.words ==> v in J) && Leads(mem.words, J, J)
  }

  lemma ReachIn(mem: Mem, J: set<int>)
    requires ClosedIn(mem, J)
    ensures mem.R() <= J
  {
    forall o, v | o in J && o in mem.R() && v in mem.words[o] && v in mem.words ensures v in J {
      var i :| 0 <= i < |mem.words[o]| && mem.words[o][i] == v;
      assert Word(mem.words, o, i) == v;
    }
    ReachLeast(mem.words, mem.Src(), J);
  }

  ghost predicate InJ(s: Src, J: set<int>) { s.Object? ==> s.o in J }

  /** The objects whose words may be scanned, if J holds all that may be marked. */
  ghost function Scans(mk: Marker, J: set<int>): set<int> { if mk.aim.Final? then J + {mk.aim.p} else J }

  /** Everything marked is in J, and so is all that the words to be scanned point to. */
  ghost predicate Just(mem: Mem, mk: Marker, a: Act, J: set<int>) {
    && ClosedIn(mem, J) && Leads(mem.words, Scans(mk, J), J) && mk.marked <= J && InJ(a.src, Scans(mk, J))
    && (forall e {:trigger e in mk.stack} :: e in mk.stack ==> InJ(e.src, Scans(mk, J)))
  }

  lemma JustRead(mem: Mem, mk: Marker, a: Act, J: set<int>, i: int)
    requires Just(mem, mk, a, J) && ReadWord(mem, a.src, i) in mem.words && 0 !in mem.words
    ensures ReadWord(mem, a.src, i) in J
  {
    match a.src
    case Object(o) => assert Word(mem.words, o, i) == ReadWord(mem, a.src, i);
    case Static => assert ReadWord(mem, a.src, i) in mem.statics && ReadWord(mem, a.src, i) in mem.Src();
  }

  lemma JustPush(sh: Shape, mem: Mem, mk: Marker, a: Act, J: set<int>, v: int)
    requires Just(mem, mk, a, J) && MARK_STACK_DISCARDS <= mk.limit && sh.size.Keys == mem.words.Keys
    requires v in mem.words ==> v in J
    ensures Just(mem, PushContents(sh, mk, v), a, J)
  {
    if v in sh.size && v !in mk.marked { JustPushObj(sh, mem, mk.(marked := mk.marked + {v}), a, J, v); }
  }

  lemma JustPushObj(sh: Shape, mem: Mem, mk: Marker, a: Act, J: set<int>, o: int)
    requires Just(mem, mk, a, J) && MARK_STACK_DISCARDS <= mk.limit && o in sh.size && o in Scans(mk, J)
    ensures Just(mem, PushObj(sh, mk, o), a, J)
  {
    forall e | e in PushObj(sh, mk, o).stack ensures InJ(e.src, Scans(mk, J)) {
      if e in mk.stack {}
    }
  }

  /** A larger closed set will do as well. */
  lemma JustWiden(mem: Mem, mk: Marker, a: Act, J: set<int>, J': set<int>)
    requires Just(mem, mk, a, J) && J <= J' && ClosedIn(mem, J')
    ensures Just(mem, mk, a, J')
  {
    forall e | e in mk.stack ensures InJ(e.src, Scans(mk, J')) { assert InJ(e.src, Scans(mk, J)); }
    forall o, i | o in Scans(mk, J') && IsPtr(mem.words, o, i) ensures Word(mem.words, o, i) in J' {
      if o !in J' { assert o in Scans(mk, J); }
    }
  }

  /** Everything that can be reached from the roots or from marked objects. */
  ghost function Live(mem: Mem, marked: set<int>): set<int> {
    Reach(mem.words, mem.Src() + marked)
  }

  lemma LiveClosed(mem: Mem, marked: set<int>)
    requires marked <= mem.words.Keys
    ensures ClosedIn(mem, Live(mem, marked)) && marked <= Live(mem, marked)
  {
    var src, J := mem.Src() + marked, Live(mem, marked);
    forall v | v in src && v in mem.words ensures v in J { ReachRoot(mem.words, src, v); }
    forall o, i | o in J && IsPtr(mem.words, o, i) ensures Word(mem.words, o, i) in J {
      ReachEdge(mem.words, src, o, mem.words[o][i]);
    }
  }

  /** It is the least closed set that holds the marked objects. */
  lemma LiveLeast(mem: Mem, marked: set<int>, J: set<int>)
    requires ClosedIn(mem, J) && marked <= J
    ensures Live(mem, marked) <= J
  {
    forall o, v | o in J && o in Live(mem, marked) && v in mem.words[o] && v in mem.words ensures v in J {
      var i :| 0 <= i < |mem.words[o]| && mem.words[o][i] == v;
      assert Word(mem.words, o, i) == v;
    }
    ReachLeast(mem.words, mem.Src() + marked, J);
  }

  lemma JustStart(mem: Mem, mk: Marker)
    requires mk.stack == [] && mk.marked <= mem.words.Keys && mk.aim.Collect?
    ensures Just(mem, mk, Quiet, Live(mem, mk.marked))
  {
    LiveClosed(mem, mk.marked);
  }

  ghost predicate Struct(sh: Shape, mem: Mem, mk: Marker) {
    && sh.Valid() && Core(sh, mem, mk) && mk.scanPtr <= sh.lastBlock + 1
    && (mk.state == None ==> mk.stack == [])
    && (!mk.objectsAreMarked ==> OnlyUncollectable(sh, mk.marked))
  }

  ghost predicate OnlyUncollectable(sh: Shape, marked: set<int>) {
    forall o :: o in marked && o in sh.blk ==> sh.blk[o] in sh.unc
  }

  /** What holds between two calls of GC_mark_some; track tells whether dirty bits
      are maintained, without which marking needs a stopped world. */
  ghost predicate MarkOK(track: bool, sh: Shape, mem: Mem, mk: Marker) {
    && Struct(sh, mem, mk) && Colour(sh, mem, mk, Quiet, {})
    && (track || mem.dirty == {}) && (track || mk.stopped || mk.aim.Final?)
    && (mk.state == PushRescuers ==> track)
    && (mk.state == PartiallyInvalid || mk.state == RootsPushed ==> mk.objectsAreMarked)
    && (mk.state == Invalid && !mk.objectsAreMarked ==> mk.scanPtr == 0)
    && (mk.aim.Final? ==> mk.objectsAreMarked && mk.aim.p in mk.marked && !mk.stopped)
  }

  /** What holds between calls of the collector: with dirty bits a collection may
      be in progress, without them there is nothing of it to be kept. */
  ghost predicate Quiescent(track: bool, sh: Shape, mem: Mem, mk: Marker) {
    && !mk.stopped && mk.aim.Collect?
    && (if track then MarkOK(track, sh, mem, mk)
        else Struct(sh, mem, mk) && mem.dirty == {} && (mk.state == None || mk.state == Invalid))
  }

  // ---------------------------------------------------------------- pushing

  /** PUSH_OBJ: overflow throws the top of the stack away and invalidates. */
  function PushObj(sh: Shape, mk: Marker, o: int): (r: Marker)
    requires o in sh.size && MARK_STACK_DISCARDS <= mk.limit
  {
    if sh.size[o] == 0 then mk
    else
      var e := Entry(Object(o), 0, sh.size[o]);
      if |mk.stack| < mk.limit then mk.(stack := mk.stack + [e])
      else mk.(stack := mk.stack[..mk.limit - MARK_STACK_DISCARDS] + [e], state := Invalid, tooSmall := true)
  }

  /** PUSH_CONTENTS of a plausible pointer: mark and push what was unmarked. */
  function PushContents(sh: Shape, mk: Marker, v: int): (r: Marker)
    requires MARK_STACK_DISCARDS <= mk.limit
  {
    if v in sh.size && v !in mk.marked then PushObj(sh, mk.(marked := mk.marked + {v}), v) else mk
  }

  lemma PushObjCore(sh: Shape, mem: Mem, mk: Marker, o: int)
    requires Core(sh, mem, mk) && o in sh.size
    ensures Core(sh, mem, PushObj(sh, mk, o))
  {
    var r := PushObj(sh, mk, o);
    forall e | e in r.stack ensures EntryOK(sh, |mem.statics|, e) {
      if e in mk.stack {}
    }
  }

  /** Marking v and pushing its words keeps the invariant. */
  lemma TriMark(h: Heap, blk: map<int, nat>, from: set<int>, marked: set<int>, stack: seq<Entry>,
                a: Act, dirty: set<nat>, ex: set<int>, v: int, stack': seq<Entry>)
    requires h.Keys <= blk.Keys && v in h
    requires Tri(h, blk, from, marked, stack, a, dirty, ex)
    requires stack' == if |h[v]| > 0 then stack + [Entry(Object(v), 0, |h[v]|)] else stack
    ensures Tri(h, blk, from + {v}, marked + {v}, stack', a, dirty, ex)
  {
    forall o, i | o in from + {v} && IsPtr(h, o, i) && o !in ex && blk[o] !in dirty
                  && Word(h, o, i) !in marked + {v}
      ensures Pending(stack', a, Object(o), i)
    {
      if o == v {
        assert Has(stack'[|stack|], Object(o), i);
      } else if !InAct(a, Object(o), i) {
        var e :| e in stack && Has(e, Object(o), i);
        assert e in stack';
      }
    }
  }

  lemma InvalidColour(sh: Shape, mem: Mem, mk: Marker, a: Act, done: set<int>)
    requires WordsOK(sh, mem.words) && mk.state == Invalid && Seen(mem, mk)
    ensures Colour(sh, mem, mk, a, done)
  {
    assert forall o :: o in sh.blk ==> o in ExSet(sh, mk, done);
  }

  lemma PushContentsKeeps(sh: Shape, mem: Mem, mk: Marker, a: Act, done: set<int>, v: int)
    requires Core(sh, mem, mk) && Colour(sh, mem, mk, a, done)
    ensures var r := PushContents(sh, mk, v);
            Core(sh, mem, r) && Colour(sh, mem, r, a, done) && (v in sh.size ==> v in r.marked)
  {
    if v in sh.size && v !in mk.marked {
      var m1 := mk.(marked := mk.marked + {v});
      PushObjCore(sh, mem, m1, v);
      var r := PushObj(sh, m1, v);
      if r.state == Invalid {
        InvalidColour(sh, mem, r, a, done);
      } else {
        assert ExSet(sh, r, done) == ExSet(sh, mk, done) && From(r) == From(mk) + {v};
        TriMark(mem.words, sh.blk, From(mk), mk.marked, mk.stack, a, Dirt(mem, mk),
                ExSet(sh, mk, done), v, r.stack);
      }
    }
  }

  /** Pushing a marked object discharges what the invariant asks of it. */
  lemma PushObjDone(sh: Shape, mem: Mem, mk: Marker, done: set<int>, o: int)
    requires Core(sh, mem, mk) && Colour(sh, mem, mk, Quiet, done) && o in mk.marked
    ensures var r := PushObj(sh, mk, o);
            Core(sh, mem, r) && Colour(sh, mem, r, Quiet, done + {o})
  {
    PushObjCore(sh, mem, mk, o);
    var r := PushObj(sh, mk, o);
    if r.state == Invalid {
      InvalidColour(sh, mem, r, Quiet, done + {o});
    } else {
      forall q, i | q in From(mk) && IsPtr(mem.words, q, i) && q !in ExSet(sh, r, done + {o})
                    && sh.blk[q] !in Dirt(mem, mk) && Word(mem.words, q, i) !in mk.marked
        ensures Pending(r.stack, Quiet, Object(q), i)
      {
        if q == o {
          assert Has(r.stack[|mk.stack|], Object(q), i);
        } else {
          assert q !in ExSet(sh, mk, done);
          var e :| e in mk.stack && Has(e, Object(q), i);
          assert e in r.stack;
        }
      }
      if mk.stopped && mk.state == RootsPushed {
        forall i | 0 <= i < |mem.statics| && mem.statics[i] in mem.words && mem.statics[i] !in mk.marked
          ensures Pending(r.stack, Quiet, Static, i)
        {
          var e :| e in mk.stack && Has(e, Static, i);
          assert e in r.stack;
        }
      }
    }
  }

  /** Starting to scan a marked object directly, without pushing it. */
  lemma StartScan(sh: Shape, mem: Mem, mk: Marker, done: set<int>, o: int)
    requires Core(sh, mem, mk) && Colour(sh, mem, mk, Quiet, done) && o in mk.marked
    ensures Colour(sh, mem, mk, Act(Object(o), 0, sh.size[o], -1), done + {o})
  {
    var a := Act(Object(o), 0, sh.size[o], -1);
    forall q, i | q in From(mk) && IsPtr(mem.words, q, i) && q !in ExSet(sh, mk, done + {o})
                  && sh.blk[q] !in Dirt(mem, mk) && Word(mem.words, q, i) !in mk.marked
      ensures Pending(mk.stack, a, Object(q), i)
    {
      if q != o {
        assert q !in ExSet(sh, mk, done);
        assert Pending(mk.stack, Quiet, Object(q), i);
      }
    }
    if mk.stopped && mk.state == RootsPushed {
      forall i | 0 <= i < |mem.statics| && mem.statics[i] in mem.words && mem.statics[i] !in mk.marked
        ensures Pending(mk.stack, a, Static, i)
      {
        assert Pending(mk.stack, Quiet, Static, i);
      }
    }
  }

  /** Objects that are unmarked or hold no words need no push. */
  lemma NothingToPush(sh: Shape, mem: Mem, mk: Marker, done: set<int>, more: set<int>)
    requires Core(sh, mem, mk) && Colour(sh, mem, mk, Quiet, done)
    requires forall o :: o in more ==> o !in From(mk) || (o in sh.size && sh.size[o] == 0)
    ensures Colour(sh, mem, mk, Quiet, done + more)
  {
    forall q, i | q in From(mk) && IsPtr(mem.words, q, i) && q !in ExSet(sh, mk, done + more)
                  && sh.blk[q] !in Dirt(mem, mk)
      ensures Word(mem.words, q, i) in mk.marked || Pending(mk.stack, Quiet, Object(q), i)
    {
      assert |mem.words[q]| == sh.size[q];
      assert q !in ExSet(sh, mk, done);
    }
  }

  /** Does the scan of this state push from block b? */
  predicate Wanted(sh: Shape, mk: Marker, b: nat) {
    && b in sh.objs
    && (mk.state == PushRescuers ==> b in mk.grungy)
    && (mk.state == PushUncollectable ==> b in sh.unc)
  }

  /** Moving scanPtr past block h, once its objects have been pushed. */
  lemma ScanAdvance(sh: Shape, mem: Mem, old_: Marker, mk: Marker, h: nat)
    requires sh.Valid() && WordsOK(sh, mem.words) && h in sh.objs
    requires Colour(sh, mem, mk, Quiet, set o | o in sh.objs[h])
    requires mk.grungy == old_.grungy && mk.scanPtr == old_.scanPtr && (mk.state == old_.state || mk.state == Invalid)
    requires forall b :: mk.scanPtr <= b < h ==> !Wanted(sh, old_, b)
    ensures Colour(sh, mem, mk.(scanPtr := h + 1), Quiet, {})
  {
    var m1, done := mk.(scanPtr := h + 1), set o | o in sh.objs[h];
    forall o | o in ExSet(sh, mk, done) ensures o in ExSet(sh, m1, {}) {
      assert sh.ObjOK(o);
      if mk.scanPtr <= sh.blk[o] < h { assert !Wanted(sh, old_, sh.blk[o]); }
    }
    forall q, i | q in From(mk) && IsPtr(mem.words, q, i) && q !in ExSet(sh, m1, {}) && sh.blk[q] !in Dirt(mem, mk)
      ensures Word(mem.words, q, i) in mk.marked || Pending(mk.stack, Quiet, Object(q), i)
    {
      assert q !in ExSet(sh, mk, done);
    }
  }

  /** No block is left to push from: no object is exempt any more. */
  lemma ScanEnd(sh: Shape, mem: Mem, mk: Marker)
    requires sh.Valid() && WordsOK(sh, mem.words) && mk.state != Invalid
    requires Colour(sh, mem, mk, Quiet, {})
    requires forall b :: mk.scanPtr <= b <= sh.lastBlock ==> !Wanted(sh, mk, b)
    ensures Colour(sh, mem, mk.(scanPtr := 0), Quiet, sh.blk.Keys)
  {
    forall q, i | q in From(mk) && IsPtr(mem.words, q, i) && sh.blk[q] !in Dirt(mem, mk)
      ensures Word(mem.words, q, i) in mk.marked || Pending(mk.stack, Quiet, Object(q), i)
    {
      assert sh.ObjOK(q) && sh.BlockOK(sh.blk[q]);
      if mk.scanPtr <= sh.blk[q] { assert !Wanted(sh, mk, sh.blk[q]); }
      assert q !in ExSet(sh, mk, {});
    }
  }

  /** The word at index i of s, as the marker reads it. */
  function ReadWord(mem: Mem, s: Src, i: int): int {
    match s
    case Static => if 0 <= i < |mem.statics| then mem.statics[i] else 0
    case Object(o) => if o in mem.words && 0 <= i < |mem.words[o]| then mem.words[o][i] else 0
  }

  /** Nothing more is asked of word i: it is no pointer, or its target is marked,
      or the mutator may write it and it will be looked at again. */
  ghost predicate Settled(sh: Shape, mem: Mem, mk: Marker, s: Src, v: int) {
    v !in mem.words || v in mk.marked || Rescanned(sh, mem, mk, s)
  }

  /** Will the words of s be looked at again before the mark phase can end? */
  ghost predicate Rescanned(sh: Shape, mem: Mem, mk: Marker, s: Src) {
    match s
    case Static => !mk.stopped
    case Object(o) => o in sh.blk && sh.blk[o] in Dirt(mem, mk)
  }

  /** Word i of s was v when it was read, and since then nothing was written there
      that has to be looked at. */
  ghost predicate Known(sh: Shape, mem: Mem, mk: Marker, s: Src, i: int, v: int) {
    ReadWord(mem, s, i) == v || Settled(sh, mem, mk, s, ReadWord(mem, s, i))
  }

  /** A settled word can be dropped from the range being scanned. */
  lemma Scanned(sh: Shape, mem: Mem, mk: Marker, a: Act, a': Act, done: set<int>, i: int)
    requires Core(sh, mem, mk) && Colour(sh, mem, mk, a, done)
    requires InAct(a, a.src, i) ==> Settled(sh, mem, mk, a.src, ReadWord(mem, a.src, i))
    requires forall j :: InAct(a, a.src, j) && j != i ==> InAct(a', a.src, j)
    ensures Colour(sh, mem, mk, a', done)
  {
    forall q, j | q in From(mk) && IsPtr(mem.words, q, j) && q !in ExSet(sh, mk, done)
                  && sh.blk[q] !in Dirt(mem, mk) && Word(mem.words, q, j) !in mk.marked
      ensures Pending(mk.stack, a', Object(q), j)
    {
      assert Pending(mk.stack, a, Object(q), j);
    }
    if mk.stopped && mk.state == RootsPushed {
      forall j | 0 <= j < |mem.statics| && mem.statics[j] in mem.words && mem.statics[j] !in mk.marked
        ensures Pending(mk.stack, a', Static, j)
      {
        assert Pending(mk.stack, a, Static, j);
      }
    }
  }

  // ---------------------------------------------------------------- the stack

  function Len(e: Entry): nat { if e.hi > e.lo then e.hi - e.lo else 0 }

  /** Words still to be scanned, over the whole stack. */
  ghost function Work(stack: seq<Entry>): nat {
    if stack == [] then 0 else Work(stack[..|stack| - 1]) + Len(stack[|stack| - 1])
  }

  /** Take words lo..m of the top entry off the stack; the rest stays. */
  function Cut(stack: seq<Entry>, m: nat): (r: seq<Entry>)
    requires stack != []
  {
    var e := stack[|stack| - 1];
    stack[..|stack| - 1] + (if m < e.hi then [Entry(e.src, m, e.hi)] else [])
  }

  lemma CutKeeps(sh: Shape, mem: Mem, mk: Marker, m: nat)
    requires Core(sh, mem, mk) && Colour(sh, mem, mk, Quiet, {}) && mk.stack != []
    requires mk.stack[|mk.stack| - 1].lo < m <= mk.stack[|mk.stack| - 1].hi
    ensures var e, r := mk.stack[|mk.stack| - 1], mk.(stack := Cut(mk.stack, m));
            && EntryOK(sh, |mem.statics|, e)
            && Core(sh, mem, r) && Colour(sh, mem, r, Act(e.src, e.lo, m, -1), {})
            && Work(r.stack) < Work(mk.stack)
  {
    var e, stack := mk.stack[|mk.stack| - 1], Cut(mk.stack, m);
    assert e in mk.stack && EntryOK(sh, |mem.statics|, e);
    forall f | f in stack ensures EntryOK(sh, |mem.statics|, f) {
      if f in mk.stack {}
    }
    var a := Act(e.src, e.lo, m, -1);
    forall s, i | Pending(mk.stack, Quiet, s, i) && (s.Object? || 0 <= i) ensures Pending(stack, a, s, i) {
      if !InAct(a, s, i) {
        var f :| f in mk.stack && Has(f, s, i);
        if f in mk.stack[..|mk.stack| - 1] {
          assert f in stack;
        } else {
          assert Has(stack[|stack| - 1], s, i) && stack[|stack| - 1] in stack;
        }
      }
    }
    assert ExSet(sh, mk.(stack := stack), {}) == ExSet(sh, mk, {});
    if m < e.hi {
      assert stack[..|stack| - 1] == mk.stack[..|mk.stack| - 1];
    } else {
      assert stack == mk.stack[..|mk.stack| - 1];
    }
  }

  lemma JustCut(mem: Mem, mk: Marker, J: set<int>, m: nat)
    requires Just(mem, mk, Quiet, J) && mk.stack != []
    ensures var e := mk.stack[|mk.stack| - 1]; Just(mem, mk.(stack := Cut(mk.stack, m)), Act(e.src, e.lo, m, -1), J)
  {
    var e := mk.stack[|mk.stack| - 1];
    assert e in mk.stack;
    assert InJ(e.src, Scans(mk, J));
    forall f | f in Cut(mk.stack, m) ensures InJ(f.src, Scans(mk, J)) {
      if f in mk.stack {}
    }
  }

  // ---------------------------------------------------------------- the mutator

  /** What a mutator thread may do: move words between its registers, the static
      data and the objects it holds pointers to.  Integers are not pointers. */
  datatype MutOp =
    | Load(r: nat, i: nat)
    | Store(r: nat, i: nat, s: nat)
    | StoreInt(r: nat, i: nat, v: int)
    | LoadStatic(i: nat)
    | StoreStatic(i: nat, r: nat)
    | Recall(o: int)
    | Invoke                    // GC_invoke_finalizers takes an object off its queue
    | Drop(r: nat)
    | Int(v: int)

  predicate CanWrite(mem: Mem, r: nat, i: nat) {
    r < |mem.regs| && mem.regs[r] in mem.words && i < |mem.words[mem.regs[r]]|
  }

  function WriteWord(sh: Shape, mem: Mem, o: int, i: nat, v: int, track: bool): Mem
    requires o in mem.words && i < |mem.words[o]| && o in sh.blk
  {
    mem.(words := mem.words[o := mem.words[o][i := v]],
    dirty := if track then mem.dirty + {sh.blk[o]} else mem.dirty)
  }

  /** One mutator step; with track, a write to a page makes it dirty. */
  function Mutate(sh: Shape, mem: Mem, op: MutOp, track: bool): (r: Mem)
    requires mem.words.Keys == sh.blk.Keys
  {
    match op
    case Load(r, i) =>
      if CanWrite(mem, r, i) then mem.(regs := mem.regs + [mem.words[mem.regs[r]][i]]) else mem
    case Store(r, i, s) =>
      if CanWrite(mem, r, i) && s < |mem.regs|
      then WriteWord(sh, mem, mem.regs[r], i, mem.regs[s], track) else mem
    case StoreInt(r, i, v) =>
      if CanWrite(mem, r, i) && v !in mem.words then WriteWord(sh, mem, mem.regs[r], i, v, track) else mem
    case LoadStatic(i) =>
      if i < |mem.statics| then mem.(regs := mem.regs + [mem.statics[i]]) else mem
    case StoreStatic(i, r) =>
      if i < |mem.statics| && r < |mem.regs| then mem.(statics := mem.statics[i := mem.regs[r]]) else mem
    case Recall(o) => if o in mem.uncLive then mem.(regs := mem.regs + [o]) else mem
    case Invoke => if mem.now != [] then mem.(regs := mem.regs + [mem.now[0]], now := mem.now[1..]) else mem
    case Drop(r) =>
      if r < |mem.regs| then mem.(regs := mem.regs[..r] + mem.regs[r + 1..]) else mem
    case Int(v) => if v !in mem.words then mem.(regs := mem.regs + [v]) else mem
  }

  /** Objects outside R hold the same words as before. */
  ghost predicate Untouched(h: Heap, k: Heap, R: set<int>) {
    forall o {:trigger k[o]} :: o in h && o in k && o !in R ==> k[o] == h[o]
  }

  /** No pointer leads out of R. */
  ghost predicate Inside(h: Heap, R: set<int>) {
    forall o, v {:trigger v in h[o]} :: o in R && o in h && v in h[o] && v in h ==> v in R
  }

  /** All a marker may rely on about any number of mutator steps. */
  ghost predicate Evolves(sh: Shape, track: bool, m: Mem, m': Mem) {
    && WordsOK(sh, m'.words)
    && |m'.statics| == |m.statics|
    && m'.uncLive == m.uncLive
    && m.dirty <= m'.dirty && (!track ==> m'.dirty == m.dirty)
    && m'.R() <= m.R()
    && Untouched(m.words, m'.words, m.R()) && Inside(m'.words, m.R())
    && (track ==> forall o {:trigger m'.words[o]} ::
                    o in m'.words && o in m.words && sh.blk[o] !in m'.dirty ==> m'.words[o] == m.words[o])
  }

  /** What remains of it over many calls: nothing new can be reached. */
  ghost predicate Later(m: Mem, m': Mem) {
    && m'.words.Keys == m.words.Keys
    && |m'.statics| == |m.statics|
    && m'.uncLive == m.uncLive
    && m'.R() <= m.R()
    && Untouched(m.words, m'.words, m.R()) && Inside(m'.words, m.R())
  }

  lemma LaterTrans(a: Mem, b: Mem, c: Mem)
    requires Later(a, b) && Later(b, c)
    ensures Later(a, c)
  {
  }

  lemma EvolvesTrans(sh: Shape, track: bool, a: Mem, b: Mem, c: Mem)
    requires Evolves(sh, track, a, b) && Evolves(sh, track, b, c)
    ensures Evolves(sh, track, a, c)
  {
  }

  lemma ReachInside(mem: Mem)
    ensures Inside(mem.words, mem.R())
  {
    forall o, v | o in mem.R() && v in mem.words[o] && v in mem.words ensures v in mem.R() {
      ReachEdge(mem.words, mem.Src(), o, v);
    }
  }

  /** Writing a word that is no pointer or is held in some register. */
  lemma WriteEvolves(sh: Shape, mem: Mem, o: int, i: nat, v: int, track: bool)
    requires WordsOK(sh, mem.words) && o in mem.words && i < |mem.words[o]|
    requires o in mem.regs && (v in mem.words ==> v in mem.regs)
    ensures Evolves(sh, track, mem, WriteWord(sh, mem, o, i, v, track))
  {
    var src, m' := mem.Src(), WriteWord(sh, mem, o, i, v, track);
    if v in mem.words { ReachRoot(mem.words, src, v); }
    ReachRoot(mem.words, src, o);
    ReachStore(mem.words, src, o, i, v);
    ReachInside(mem);
    assert m'.Src() == src;
    forall q, w | q in mem.R() && w in m'.words[q] && w in m'.words ensures w in mem.R() {
      if w in mem.words[q] {}
    }
  }

  /** Moving words that can be reached between registers and static data. */
  lemma MoveEvolves(sh: Shape, track: bool, mem: Mem, m': Mem)
    requires WordsOK(sh, mem.words)
    requires m' == mem.(statics := m'.statics, regs := m'.regs, now := m'.now) && |m'.statics| == |mem.statics|
    requires forall v :: (v in m'.regs || v in m'.now || v in m'.statics) && v in mem.words ==>
                           v in mem.regs || v in mem.now || v in mem.statics || v in mem.R()
    ensures Evolves(sh, track, mem, m')
  {
    var src, src' := mem.Src(), m'.Src();
    forall v | v in src' && v in m'.words ensures v in mem.R() {
      if v in src { ReachRoot(mem.words, src, v); }
    }
    ReachAgrees(mem.words, m'.words, src, src');
    ReachInside(mem);
  }

  lemma MutateEvolves(sh: Shape, mem: Mem, op: MutOp, track: bool)
    requires WordsOK(sh, mem.words)
    ensures Evolves(sh, track, mem, Mutate(sh, mem, op, track))
  {
    var src := mem.Src();
    ReachInside(mem);
    match op
    case Store(r, i, s) =>
      if CanWrite(mem, r, i) && s < |mem.regs| { WriteEvolves(sh, mem, mem.regs[r], i, mem.regs[s], track); }
    case StoreInt(r, i, v) =>
      if CanWrite(mem, r, i) && v !in mem.words { WriteEvolves(sh, mem, mem.regs[r], i, v, track); }
    case Load(r, i) =>
      if CanWrite(mem, r, i) {
        ReachRoot(mem.words, src, mem.regs[r]);
        var v := mem.words[mem.regs[r]][i];
        if v in mem.words { ReachEdge(mem.words, src, mem.regs[r], v); }
      }
      MoveEvolves(sh, track, mem, Mutate(sh, mem, op, track));
    case Recall(o) =>
      if o in mem.uncLive && o in mem.words { ReachRoot(mem.words, src, o); }
      MoveEvolves(sh, track, mem, Mutate(sh, mem, op, track));
    case _ =>
      MoveEvolves(sh, track, mem, Mutate(sh, mem, op, track));
  }

  lemma ColourEvolves(sh: Shape, track: bool, mem: Mem, mem': Mem, mk: Marker, a: Act, done: set<int>)
    requires Core(sh, mem, mk) && Colour(sh, mem, mk, a, done)
    requires Evolves(sh, track, mem, mem') && !mk.stopped && (track || mk.aim.Final?)
    ensures Core(sh, mem', mk) && Colour(sh, mem', mk, a, done)
  {
    forall o, i | o in From(mk) && IsPtr(mem'.words, o, i) && o !in ExSet(sh, mk, done)
                  && sh.blk[o] !in Dirt(mem', mk) && Word(mem'.words, o, i) !in mk.marked
      ensures Pending(mk.stack, a, Object(o), i)
    {
      assert mem'.words[o][i] in mem'.words[o];
      assert mem'.words[o] == mem.words[o];
      assert Word(mem.words, o, i) == Word(mem'.words, o, i);
    }
  }

  lemma ClosedLater(mem: Mem, mem': Mem, J: set<int>)
    requires ClosedIn(mem, J) && Later(mem, mem')
    ensures ClosedIn(mem', J)
  {
    ReachIn(mem, J);
    forall v | v in mem'.Src() && v in mem'.words ensures v in J { ReachRoot(mem'.words, mem'.Src(), v); }
    forall o, i | o in J && IsPtr(mem'.words, o, i) ensures Word(mem'.words, o, i) in J {
      assert mem'.words[o][i] in mem'.words[o];
      if o !in mem.R() { assert Word(mem.words, o, i) == Word(mem'.words, o, i); }
    }
  }

  lemma JustLater(mem: Mem, mem': Mem, mk: Marker, a: Act, J: set<int>)
    requires Just(mem, mk, a, J) && Later(mem, mem')
    ensures Just(mem', mk, a, J)
  {
    ClosedLater(mem, mem', J);
    ReachIn(mem, J);
    LeadsLater(mem, mem', Scans(mk, J), J);
  }

  /** Mutator steps keep the marked objects closed, if all they can reach is marked. */
  lemma LeadsLater(mem: Mem, mem': Mem, from: set<int>, marked: set<int>)
    requires Leads(mem.words, from, marked) && mem.R() <= marked && Later(mem, mem')
    ensures Leads(mem'.words, from, marked)
  {
    forall o, i | o in from && IsPtr(mem'.words, o, i) ensures Word(mem'.words, o, i) in marked {
      assert mem'.words[o][i] in mem'.words[o];
      if o !in mem.R() { assert Word(mem.words, o, i) == Word(mem'.words, o, i); }
    }
  }

  /** A word read before mutator steps is still there, or need not be looked at. */
  lemma KnownEvolves(sh: Shape, track: bool, mem: Mem, mem': Mem, mk: Marker, mk': Marker, s: Src, i: int, v: int)
    requires WordsOK(sh, mem.words) && Seen(mem, mk) && (track || mk.stopped || mk.aim.Final?)
    requires if mk.stopped then mem' == mem else Evolves(sh, track, mem, mem')
    requires mk.marked <= mk'.marked && mk'.stopped == mk.stopped && mk'.aim == mk.aim
    requires Known(sh, mem, mk, s, i, v)
    ensures Known(sh, mem', mk', s, i, v)
  {
    if !mk.stopped && s.Object? && ReadWord(mem', s, i) != ReadWord(mem, s, i) && mk.aim.Final? {
      assert s.o in mem'.words && s.o in mem.R();
      assert 0 <= i < |mem'.words[s.o]| && mem'.words[s.o][i] in mem'.words[s.o];
    }
  }

  /** The end of marking leaves nobody exempt. */
  lemma SameExempt(sh: Shape, mem: Mem, mk: Marker, mk': Marker)
    requires WordsOK(sh, mem.words) && Colour(sh, mem, mk, Quiet, {})
    requires mk.state == RootsPushed && mk' == mk.(state := None)
    ensures Colour(sh, mem, mk', Quiet, {})
  {
    forall o | o in sh.blk ensures o !in ExSet(sh, mk, {}) {}
    forall q, i | q in From(mk) && IsPtr(mem.words, q, i) && sh.blk[q] !in Dirt(mem, mk)
      ensures Word(mem.words, q, i) in mk.marked || Pending(mk.stack, Quiet, Object(q), i)
    {
      assert q !in ExSet(sh, mk, {});
    }
  }

  /** At the start of a scan of the whole heap every object is exempt. */
  lemma StartValidating(sh: Shape, mem: Mem, mk: Marker)
    requires WordsOK(sh, mem.words) && mk.state == PartiallyInvalid && mk.scanPtr == 0 && Seen(mem, mk)
    requires mk.aim.Final? ==> mk.aim.p in mk.marked
    ensures Colour(sh, mem, mk, Quiet, {})
  {
    assert forall o :: o in sh.blk ==> o in ExSet(sh, mk, {});
  }

  /** When only uncollectable objects are marked, they are all exempt. */
  lemma StartUncollectable(sh: Shape, mem: Mem, mk: Marker)
    requires Core(sh, mem, mk) && mk.state == PushUncollectable && mk.scanPtr == 0 && mk.aim.Collect?
    requires forall o :: o in mk.marked && o in sh.blk ==> sh.blk[o] in sh.unc
    ensures Colour(sh, mem, mk, Quiet, {})
  {
    assert forall o :: o in mk.marked ==> o in ExSet(sh, mk, {});
  }

  /** Exempting more objects again. */
  lemma Restart(sh: Shape, mem: Mem, mk: Marker)
    requires WordsOK(sh, mem.words) && Colour(sh, mem, mk, Quiet, sh.blk.Keys)
    ensures Colour(sh, mem, mk, Quiet, {})
  {
    forall q, i | q in From(mk) && IsPtr(mem.words, q, i) && q !in ExSet(sh, mk, {}) && sh.blk[q] !in Dirt(mem, mk)
      ensures Word(mem.words, q, i) in mk.marked || Pending(mk.stack, Quiet, Object(q), i)
    {
      assert q !in ExSet(sh, mk, sh.blk.Keys);
    }
  }

  /** Pushing a range of the static data. */
  lemma PushRange(sh: Shape, mem: Mem, mk: Marker, e: Entry)
    requires Core(sh, mem, mk) && Colour(sh, mem, mk, Quiet, sh.blk.Keys)
    requires mk.state != RootsPushed && |mk.stack| < mk.limit && EntryOK(sh, |mem.statics|, e)
    ensures var r := mk.(stack := mk.stack + [e]);
            Core(sh, mem, r) && Colour(sh, mem, r, Quiet, sh.blk.Keys)
  {
    var r := mk.(stack := mk.stack + [e]);
    forall f | f in r.stack ensures EntryOK(sh, |mem.statics|, f) {
      if f in mk.stack {}
    }
    forall q, i | q in From(mk) && IsPtr(mem.words, q, i) && q !in ExSet(sh, r, sh.blk.Keys)
                  && sh.blk[q] !in Dirt(mem, mk) && Word(mem.words, q, i) !in mk.marked
      ensures Pending(r.stack, Quiet, Object(q), i)
    {
      assert q !in ExSet(sh, mk, sh.blk.Keys);
      var f :| f in mk.stack && Has(f, Object(q), i);
      assert f in r.stack;
    }
  }

  // ---------------------------------------------------------------- the end of marking

  /** With every object pushed and the roots covered, the roots are pushed. */
  lemma RootsArePushed(sh: Shape, mem: Mem, mk: Marker)
    requires Core(sh, mem, mk) && mk.state != Invalid
    requires Colour(sh, mem, mk, Quiet, sh.blk.Keys)
    requires mk.stopped ==> RootsDone(mem, mk.marked, mk.stack, Quiet)
    ensures Core(sh, mem, mk.(state := RootsPushed)) && Colour(sh, mem, mk.(state := RootsPushed), Quiet, {})
  {
    var m1 := mk.(state := RootsPushed);
    forall o | o in sh.blk ensures o !in ExSet(sh, mk, sh.blk.Keys) && o !in ExSet(sh, m1, {}) {}
    assert forall o :: o in ExSet(sh, m1, {}) ==> o in sh.blk;
    forall q, i | q in From(mk) && IsPtr(mem.words, q, i) && sh.blk[q] !in Dirt(mem, mk)
      ensures Word(mem.words, q, i) in mk.marked || Pending(mk.stack, Quiet, Object(q), i)
    {
      assert q !in ExSet(sh, mk, sh.blk.Keys);
    }
  }

  /** Roots pushed in a stopped world and nothing left to scan: everything
      reachable is marked. */
  lemma AllMarked(sh: Shape, mem: Mem, mk: Marker)
    requires Core(sh, mem, mk) && Colour(sh, mem, mk, Quiet, {})
    requires mk.state == RootsPushed && mk.stack == [] && mk.stopped
    ensures mem.R() <= mk.marked
  {
    AllClosed(sh, mem, mk);
    forall v | v in mem.Src() && v in mem.words ensures v in mk.marked {
      if v in mem.statics {
        var i :| 0 <= i < |mem.statics| && mem.statics[i] == v;
      }
    }
    ReachIn(mem, mk.marked);
  }

  /** Nothing exempt and nothing left to scan: no pointer leads out of the marked
      objects, reachable or not. */
  lemma AllClosed(sh: Shape, mem: Mem, mk: Marker)
    requires Core(sh, mem, mk) && Colour(sh, mem, mk, Quiet, {})
    requires (mk.state == RootsPushed || mk.state == None) && mk.stack == [] && (mk.stopped || mk.aim.Final?)
    ensures Leads(mem.words, From(mk), mk.marked)
  {
    forall o, i | o in From(mk) && IsPtr(mem.words, o, i) ensures Word(mem.words, o, i) in mk.marked {
      assert o !in ExSet(sh, mk, {});
      assert !Pending(mk.stack, Quiet, Object(o), i);
    }
  }

  /** PUSH_OBJ of an unmarked object, when the marked ones are closed: what is
      marked from then on can be reached from it. */
  lemma StartFinal(sh: Shape, mem: Mem, mk: Marker, p: int, J: set<int>)
    requires Core(sh, mem, mk) && mk.state == None && mk.stack == [] && mk.aim == Final(p) && !mk.stopped
    requires mem.R() <= mk.marked && Leads(mem.words, mk.marked, mk.marked) && p in sh.size
    requires ClosedIn(mem, J) && mk.marked <= J && Leads(mem.words, J + {p}, J)
    ensures var r := PushObj(sh, mk, p);
            Core(sh, mem, r) && Colour(sh, mem, r, Quiet, {}) && Just(mem, r, Quiet, J)
  {
    PushObjCore(sh, mem, mk, p);
    var r := PushObj(sh, mk, p);
    forall o, i | o in From(r) && IsPtr(mem.words, o, i)
      ensures Word(mem.words, o, i) in mk.marked || Pending(r.stack, Quiet, Object(o), i)
    {
      if o == p && o !in mk.marked {
        assert |mem.words[o]| == sh.size[o];
        assert Has(r.stack[0], Object(o), i);
      }
    }
    JustPushObj(sh, mem, mk, Quiet, J, p);
  }

  /** Closed marks satisfy the invariant between collections. */
  lemma ClosedQuiescent(track: bool, sh: Shape, mem: Mem, mk: Marker)
    requires Struct(sh, mem, mk) && mk.state == None && !mk.stopped && mk.aim.Collect? && (!track ==> mem.dirty == {})
    requires Leads(mem.words, mk.marked, mk.marked)
    ensures Quiescent(track, sh, mem, mk)
  {
  }

  // ---------------------------------------------------------------- cycles

  /** Reading the dirty bits at the start of a partial collection: the blocks
      that were dirty are now exempt until they have been pushed from. */
  lemma InitiatePartial(sh: Shape, mem: Mem, mk: Marker)
    requires Core(sh, mem, mk) && Colour(sh, mem, mk, Quiet, {}) && mk.state == None && mk.aim.Collect?
    ensures var mem' := mem.(dirty := {});
            var mk' := mk.(state := PushRescuers, grungy := mem.dirty, scanPtr := 0, stopped := true);
            Core(sh, mem', mk') && Colour(sh, mem', mk', Quiet, {})
  {
    var mem', mk' := mem.(dirty := {}), mk.(state := PushRescuers, grungy := mem.dirty, scanPtr := 0, stopped := true);
    forall q, i | q in mk.marked && IsPtr(mem.words, q, i) && q !in ExSet(sh, mk', {})
      ensures Word(mem.words, q, i) in mk.marked || Pending(mk.stack, Quiet, Object(q), i)
    {
      assert sh.blk[q] !in mem.dirty;
      assert q !in ExSet(sh, mk, {});
    }
  }

  /** The mutator cannot tell mem' from mem: it reaches the same objects, in the
      same blocks, with the same words. */
  ghost predicate SameToMutator(sh: Shape, sh': Shape, mem: Mem, mem': Mem) {
    && mem'.statics == mem.statics && mem'.regs == mem.regs && mem'.now == mem.now && mem'.uncLive == mem.uncLive
    && mem'.R() == mem.R()
    && (forall o {:trigger mem'.words[o]} :: o in mem.R() ==> mem'.words[o] == mem.words[o])
    && (forall o {:trigger sh'.blk[o]} :: o in mem.R() && o in sh'.blk && o in sh.blk ==> sh'.blk[o] == sh.blk[o])
  }

  lemma SameTrans(sh: Shape, sh': Shape, sh'': Shape, a: Mem, b: Mem, c: Mem)
    requires WordsOK(sh', b.words)
    requires SameToMutator(sh, sh', a, b) && SameToMutator(sh', sh'', b, c)
    ensures SameToMutator(sh, sh'', a, c)
  {
  }

  /** Where two heaps agree on all that can be reached in the first, nothing more can
      be reached in the second. */
  lemma ReachSub(h: Heap, h': Heap, src: set<int>)
    requires AgreesOn(h, h', Reach(h, src)) && forall v :: v in src && v in h' ==> v in h
    ensures Reach(h', src) <= Reach(h, src)
  {
    forall v | v in src && v in h' ensures v in Reach(h, src) { ReachRoot(h, src, v); }
    ReachAgrees(h, h', src, src);
  }

  /** Nor anything less, if it is still there. */
  lemma ReachSup(h: Heap, h': Heap, src: set<int>)
    requires AgreesOn(h, h', Reach(h, src)) && Reach(h, src) <= h'.Keys && Reach(h', src) <= Reach(h, src)
    ensures Reach(h, src) <= Reach(h', src)
  {
    var R' := Reach(h', src);
    forall v | v in src && v in h ensures v in R' {
      ReachRoot(h, src, v);
      ReachRoot(h', src, v);
    }
    forall o, v | o in R' && v in h[o] && v in h ensures v in R' {
      ReachEdge(h, src, o, v);
      ReachEdge(h', src, o, v);
    }
    ReachLeast(h, src, R');
  }

  /** Whatever is done to objects nobody can reach, as long as no word in use
      becomes a pointer, the mutator cannot tell. */
  lemma GarbageIsInvisible(sh: Shape, sh': Shape, mem: Mem, mem': Mem)
    requires mem' == mem.(words := mem'.words, dirty := mem'.dirty)
    requires AgreesOn(mem.words, mem'.words, mem.R()) && mem.R() <= mem'.words.Keys
    requires forall v :: v in mem.Src() && v in mem'.words ==> v in mem.words
    requires forall o :: o in mem.R() && o in sh'.blk && o in sh.blk ==> sh'.blk[o] == sh.blk[o]
    ensures SameToMutator(sh, sh', mem, mem')
  {
    assert mem'.Src() == mem.Src();
    ReachSub(mem.words, mem'.words, mem.Src());
    ReachSup(mem.words, mem'.words, mem.Src());
  }

  /** Object o, marked afterwards, holds the same words as before and was marked,
      and what it points to is marked if it was; or else its block is dirty. */
  ghost predicate Steady(sh: Shape, sh': Shape, mem: Mem, mem': Mem, mk: Marker, mk': Marker, o: int) {
    o in mem'.words && o in sh'.blk ==>
      || sh'.blk[o] in mem'.dirty
      || (&& o in mk.marked && o in mem.words && mem'.words[o] == mem.words[o]
          && o in sh.blk && sh'.blk[o] == sh.blk[o] && (sh.blk[o] in sh.unc <==> sh.blk[o] in sh'.unc)
          && forall v ::
                  v in mem.words[o] && v in mem'.words ==> v in mem.words && (v in mk.marked ==> v in mk'.marked))
  }

  /** Changes to memory and marks that leave all marked objects steady keep the
      marker's invariant. */
  lemma ColourSteady(sh: Shape, sh': Shape, mem: Mem, mem': Mem, mk: Marker, mk': Marker)
    requires WordsOK(sh, mem.words) && Colour(sh, mem, mk, Quiet, {})
    requires WordsOK(sh', mem'.words) && mem.dirty <= mem'.dirty
    requires mk' == mk.(marked := mk'.marked) && !mk.stopped && mk.aim.Collect?
    requires forall o {:trigger Steady(sh, sh', mem, mem', mk, mk', o)} ::
               o in mk'.marked ==> Steady(sh, sh', mem, mem', mk, mk', o)
    ensures Colour(sh', mem', mk', Quiet, {})
  {
    forall q, i | q in mk'.marked && IsPtr(mem'.words, q, i) && q !in ExSet(sh', mk', {}) && sh'.blk[q] !in mem'.dirty
      ensures Word(mem'.words, q, i) in mk'.marked || Pending(mk.stack, Quiet, Object(q), i)
    {
      assert Steady(sh, sh', mem, mem', mk, mk', q);
      var v := mem.words[q][i];
      assert Word(mem.words, q, i) == v && Word(mem'.words, q, i) == v && v in mem.words[q];
      assert q !in ExSet(sh, mk, {});
    }
  }
}
