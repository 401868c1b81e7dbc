/** The object graph the marker works on, and what "reachable" means in it. */
module Graph {

  /** Each object base address, with the words its mark descriptor makes the
      marker examine.  A word is a pointer exactly when it is a key of the heap;
      an object whose descriptor is 0 has no words. */
  type Heap = map<int, seq<int>>

  /** A nonempty chain of objects, each holding a pointer to the next. */
  ghost predicate IsPath(h: Heap, p: seq<int>) {
    && |p| > 0
    && (forall k :: 0 <= k < |p| ==> p[k] in h)
    && (forall k :: 0 <= k < |p| - 1 ==> p[k + 1] in h[p[k]])
  }

  ghost predicate Reaches(h: Heap, src: set<int>, o: int) {
    exists p :: IsPath(h, p) && p[0] in src && p[|p| - 1] == o
  }

  /** The objects reachable from the words in src. */
  ghost function Reach(h: Heap, src: set<int>): set<int> {
    set o | o in h && Reaches(h, src, o)
  }

  lemma ReachRoot(h: Heap, src: set<int>, o: int)
    requires o in src && o in h
    ensures o in Reach(h, src)
  {
    assert IsPath(h, [o]);
  }

  lemma ReachEdge(h: Heap, src: set<int>, a: int, b: int)
    requires a in Reach(h, src) && b in h[a] && b in h
    ensures b in Reach(h, src)
  {
    var p :| IsPath(h, p) && p[0] in src && p[|p| - 1] == a;
    var q := p + [b];
    assert forall k :: 0 <= k < |q| - 1 ==> q[k + 1] in h[q[k]];
    assert IsPath(h, q) && q[0] in src && q[|q| - 1] == b;
  }

  /** S holds the roots and is closed under the pointers of its reachable members. */
  ghost predicate Closed(h: Heap, src: set<int>, S: set<int>) {
    && (forall v :: v in src && v in h ==> v in S)
    && (forall o, v :: o in S && o in Reach(h, src) && v in h[o] && v in h ==> v in S)
  }

  lemma {:induction false} PathInClosed(h: Heap, src: set<int>, S: set<int>, p: seq<int>)
    requires Closed(h, src, S) && IsPath(h, p) && p[0] in src
    ensures p[|p| - 1] in S
    decreases |p|
  {
    if |p| == 1 {
      var v := p[0];
      assert v in src && v in h && v in S;
    } else {
      var q := p[..|p| - 1];
      assert IsPath(h, q);
      PathInClosed(h, src, S, q);
      var o, v := p[|p| - 2], p[|p| - 1];
      assert q[|q| - 1] == o && o in Reach(h, src);
      assert p[|p| - 2 + 1] in h[o];
      assert v in h[o] && v in h;
    }
  }

  /** Reachability is the least closed set. */
  lemma ReachLeast(h: Heap, src: set<int>, S: set<int>)
    requires Closed(h, src, S)
    ensures Reach(h, src) <= S
  {
    forall o | o in Reach(h, src) ensures o in S {
      var p :| IsPath(h, p) && p[0] in src && p[|p| - 1] == o;
      PathInClosed(h, src, S, p);
    }
  }

  /** The heap k is the heap h as far as the set S can see: same contents for
      every member, and no word of a member has newly become a pointer. */
  ghost predicate AgreesOn(h: Heap, k: Heap, S: set<int>) {
    forall o :: o in S && o in k ==>
                  o in h && k[o] == h[o] && (forall v :: v in k[o] && v in k ==> v in h)
  }

  /** Changing only what cannot be reached adds nothing to what can. */
  lemma ReachAgrees(h: Heap, k: Heap, src: set<int>, src': set<int>)
    requires AgreesOn(h, k, Reach(h, src))
    requires forall v :: v in src' && v in k ==> v in Reach(h, src)
    ensures Reach(k, src') <= Reach(h, src)
  {
    forall o, v | o in Reach(h, src) && o in Reach(k, src') && v in k[o] && v in k
      ensures v in Reach(h, src)
    {
      ReachEdge(h, src, o, v);
    }
    ReachLeast(k, src', Reach(h, src));
  }

  /** Storing a word that is no pointer, or points to something reachable. */
  lemma ReachStore(h: Heap, src: set<int>, o: int, i: nat, v: int)
    requires o in h && i < |h[o]|
    requires v in h ==> v in Reach(h, src)
    ensures Reach(h[o := h[o][i := v]], src) <= Reach(h, src)
  {
    var k := h[o := h[o][i := v]];
    forall v' | v' in src && v' in k ensures v' in Reach(h, src) { ReachRoot(h, src, v'); }
    forall a, b | a in Reach(h, src) && a in Reach(k, src) && b in k[a] && b in k
      ensures b in Reach(h, src)
    {
      if b in h[a] { ReachEdge(h, src, a, b); }
    }
    ReachLeast(k, src, Reach(h, src));
  }

  /** Handing out an object without pointers makes reachable at most that object. */
  lemma ReachFresh(h: Heap, src: set<int>, o: int, w: seq<int>, src': set<int>)
    requires o in h && (forall v :: v in w ==> v !in h)
    requires forall v :: v in src' ==> v in src || v == o
    ensures Reach(h[o := w], src') <= Reach(h, src) + {o}
  {
    var k := h[o := w];
    var S := Reach(h, src) + {o};
    forall v | v in src' && v in k ensures v in S {
      if v in src { ReachRoot(h, src, v); }
    }
    forall a, b | a in S && a in Reach(k, src') && b in k[a] && b in k ensures b in S {
      if a != o { ReachEdge(h, src, a, b); }
    }
    ReachLeast(k, src', S);
  }
}
