/** The ranges of static data that GC_push_roots pushes, and whether they fit the mark
    stack: there GC_push_all aborts where other pushes overflow. */
module Ranges {
  import opened Marking
  import Exclusions

  /** Words lo..hi of the static data, which lie at the address at. */
  datatype Stretch = Stretch(lo: nat, hi: nat, at: nat)

  /** The ranges make up the n words of static data. */
  ghost predicate RangesOK(ranges: seq<Stretch>, n: nat) {
    && (forall j {:trigger ranges[j]} :: 0 <= j < |ranges| ==> ranges[j].lo < ranges[j].hi <= n)
    && (forall i :: 0 <= i < n ==> InRanges(ranges, i))
  }

  ghost predicate InRanges(ranges: seq<Stretch>, i: int) {
    exists j :: 0 <= j < |ranges| && ranges[j].lo <= i < ranges[j].hi
  }

  /** Every word lo..hi of the static data lies in some entry of the stack. */
  ghost predicate Covers(stack: seq<Entry>, lo: nat, hi: nat) {
    forall i {:trigger Pending(stack, Quiet, Static, i)} :: lo <= i < hi ==> Pending(stack, Quiet, Static, i)
  }

  function Max(a: int, b: int): int { if a >= b then a else b }

  lemma CoversStays(stack: seq<Entry>, stack': seq<Entry>, lo: nat, hi: nat)
    requires Covers(stack, lo, hi) && stack <= stack'
    ensures Covers(stack', lo, hi)
  {
    forall i | lo <= i < hi ensures Pending(stack', Quiet, Static, i) {
      assert Pending(stack, Quiet, Static, i);
      if !InAct(Quiet, Static, i) {
        var e :| e in stack && Has(e, Static, i);
        assert e in stack';
      }
    }
  }

  lemma CoversLast(stack: seq<Entry>, lo: nat, hi: nat)
    requires stack != [] && stack[|stack| - 1] == Entry(Static, lo, hi)
    ensures Covers(stack, lo, hi)
  {
    forall i | lo <= i < hi ensures Pending(stack, Quiet, Static, i) {
      assert Has(stack[|stack| - 1], Static, i);
    }
  }

  lemma CoversMore(stack: seq<Entry>, lo: nat, h: nat, hi: nat)
    requires Covers(stack, lo, h)
    ensures Covers(stack + [Entry(Static, h, hi)], lo, hi)
  {
    var s := stack + [Entry(Static, h, hi)];
    CoversStays(stack, s, lo, h);
    CoversLast(s, h, hi);
    forall i | lo <= i < hi ensures Pending(s, Quiet, Static, i) {}
  }

  lemma RangesCover(ranges: seq<Stretch>, n: nat, stack: seq<Entry>)
    requires RangesOK(ranges, n) && forall j :: 0 <= j < |ranges| ==> Covers(stack, ranges[j].lo, ranges[j].hi)
    ensures Covers(stack, 0, n)
  {
    forall i | 0 <= i < n ensures Pending(stack, Quiet, Static, i) {
      assert InRanges(ranges, i);
      var j :| 0 <= j < |ranges| && ranges[j].lo <= i < ranges[j].hi;
      assert Covers(stack, ranges[j].lo, ranges[j].hi);
    }
  }

  /** How far the next entry for words h..hi goes: to the end of the page, or of all
      words if that is nearer or more than three quarters of the stack are in use. */
  function PageEnd(limit: nat, size: nat, h: nat, hi: nat): (r: nat)
    requires h < hi
    ensures h < r <= hi
  {
    if h + HBLK_WORDS > hi || size - 1 > 3 * limit / 4 then hi else h + HBLK_WORDS
  }

  /** How many entries GC_push_selected leaves on a stack of size entries. */
  function AfterPages(limit: nat, size: nat, h: nat, hi: nat): nat
    decreases if h <= hi then hi - h else 0
  {
    if h >= hi then size else AfterPages(limit, size + 1, PageEnd(limit, size, h, hi), hi)
  }

  /** Where the page ends in which r begins. */
  function FirstEnd(r: Stretch): (h: nat)
    ensures r.lo < h
  {
    r.lo + (HBLK_WORDS - r.at % HBLK_WORDS)
  }

  function AfterRange(limit: nat, size: nat, r: Stretch): nat {
    if r.hi <= FirstEnd(r) then size + 1 else AfterPages(limit, size + 1, FirstEnd(r), r.hi)
  }

  function AfterRanges(limit: nat, size: nat, ranges: seq<Stretch>): nat
    decreases |ranges|
  {
    if ranges == [] then size else AfterRanges(limit, AfterRange(limit, size, ranges[0]), ranges[1..])
  }

  /** With enough pages the stack is filled to three quarters. */
  lemma {:induction false} FillUp(limit: nat, size: nat, h: nat, hi: nat)
    requires size <= 3 * limit / 4 + 2 && h + HBLK_WORDS * (3 * limit / 4 + 3 - size) <= hi
    ensures AfterPages(limit, size, h, hi) == 3 * limit / 4 + 3
    decreases 3 * limit / 4 + 2 - size
  {
    if size <= 3 * limit / 4 + 1 { FillUp(limit, size + 1, h + HBLK_WORDS, hi); }
  }

  /** The k-th of n ranges: the first takes up n pages, the others two each. */
  function WideRange(n: nat, k: nat): Stretch {
    if k == 0 then Stretch(0, n * HBLK_WORDS, 0) else TwoPagesAt(n + 2 * (k - 1))
  }

  function TwoPagesAt(a: nat): Stretch { Stretch(a * HBLK_WORDS, (a + 2) * HBLK_WORDS, a * HBLK_WORDS) }

  /** The k-th up to the one before the m-th. */
  function WideRanges(n: nat, k: nat, m: nat): (r: seq<Stretch>)
    requires k <= m
    ensures |r| == m - k && forall i :: 0 <= i < m - k ==> r[i] == WideRange(n, k + i)
  {
    seq(m - k, i requires 0 <= i => WideRange(n, k + i))
  }

  lemma TwoPages(limit: nat, size: nat, a: nat)
    requires size > 3 * limit / 4 + 1
    ensures AfterRange(limit, size, TwoPagesAt(a)) == size + 2
  {
    assert (a * HBLK_WORDS) % HBLK_WORDS == 0;
    var h, hi := (a + 1) * HBLK_WORDS, (a + 2) * HBLK_WORDS;
    assert FirstEnd(TwoPagesAt(a)) == h;
    assert PageEnd(limit, size + 1, h, hi) == hi && AfterPages(limit, size + 2, hi, hi) == size + 2;
  }

  /** From there on each takes two entries more. */
  lemma {:induction false} TwoEach(limit: nat, size: nat, n: nat, k: nat, m: nat)
    requires size > 3 * limit / 4 + 1 && 0 < k <= m
    ensures AfterRanges(limit, size, WideRanges(n, k, m)) == size + 2 * (m - k)
    decreases m - k
  {
    var rs := WideRanges(n, k, m);
    if k < m {
      assert rs[1..] == WideRanges(n, k + 1, m);
      var a := n + 2 * (k - 1);
      assert rs[0] == WideRange(n, k) == TwoPagesAt(a);
      TwoPages(limit, size, a);
      TwoEach(limit, size + 2, n, k + 1, m);
    }
  }

  // ---------------------------------------------------------------- which ranges fit

  lemma {:induction false} PagesGrow(limit: nat, size: nat, h: nat, hi: nat)
    ensures size <= AfterPages(limit, size, h, hi) <= Max(size, 3 * limit / 4 + 2) + 1
    ensures h < hi ==> size < AfterPages(limit, size, h, hi)
    decreases if h <= hi then hi - h else 0
  {
    if h < hi { PagesGrow(limit, size + 1, PageEnd(limit, size, h, hi), hi); }
  }

  lemma RangeGrows(limit: nat, size: nat, r: Stretch)
    ensures size < AfterRange(limit, size, r) <= Max(size, 3 * limit / 4 + 1) + 2
  {
    PagesGrow(limit, size + 1, FirstEnd(r), r.hi);
  }

  lemma {:induction false} RangesGrow(limit: nat, size: nat, ranges: seq<Stretch>)
    ensures size + |ranges| <= AfterRanges(limit, size, ranges) <= Max(size, 3 * limit / 4 + 1) + 2 * |ranges|
    decreases |ranges|
  {
    if ranges != [] {
      RangeGrows(limit, size, ranges[0]);
      RangesGrow(limit, AfterRange(limit, size, ranges[0]), ranges[1..]);
    }
  }

  /** A stack larger by d that holds no more than d entries more: no fewer entries
      stay free. */
  lemma {:induction false} PagesShift(limit: nat, size: nat, h: nat, hi: nat, size': nat, d: nat)
    requires size' <= size + d
    ensures AfterPages(limit + d, size', h, hi) <= AfterPages(limit, size, h, hi) + d
    decreases if h <= hi then hi - h else 0
  {
    if h + HBLK_WORDS <= hi {
      PagesGrow(limit + d, size', h, hi);
      if size - 1 <= 3 * limit / 4 {
        PagesGrow(limit, size + 1, h + HBLK_WORDS, hi);
        if size' - 1 <= 3 * (limit + d) / 4 { PagesShift(limit, size + 1, h + HBLK_WORDS, hi, size' + 1, d); }
      }
    }
  }

  lemma {:induction false} RangesShift(limit: nat, size: nat, ranges: seq<Stretch>, size': nat, d: nat)
    requires size' <= size + d
    ensures AfterRanges(limit + d, size', ranges) <= AfterRanges(limit, size, ranges) + d
    decreases |ranges|
  {
    if ranges != [] {
      var r := ranges[0];
      PagesShift(limit, size + 1, FirstEnd(r), r.hi, size' + 1, d);
      RangesShift(limit, AfterRange(limit, size, r), ranges[1..], AfterRange(limit + d, size', r), d);
    }
  }

  /** How many entries GC_push_roots leaves of its ranges on a stack of size entries:
      whole ranges in a full collection, pages in a partial one. */
  function Needs(all: bool, limit: nat, size: nat, ranges: seq<Stretch>): nat {
    if all then size + |ranges| else AfterRanges(limit, size, ranges)
  }

  /** How full the stack may be when GC_mark_some comes to push the roots. */
  function Threshold(all: bool, limit: nat): int {
    if all then limit / 4 else limit - INITIAL_MARK_STACK_SIZE / 2
  }

  /** The ranges fit however full the stack is then, and however large. */
  ghost predicate AlwaysFit(all: bool, ranges: seq<Stretch>) {
    forall limit: nat, size: nat {:trigger Needs(all, limit, size, ranges)} ::
      INITIAL_MARK_STACK_SIZE <= limit && size <= Threshold(all, limit) ==> Needs(all, limit, size, ranges) <= limit
  }

  /** They fit the initial stack, as full as it may be. */
  predicate Fit(all: bool, ranges: seq<Stretch>) {
    Needs(all, INITIAL_MARK_STACK_SIZE, Threshold(all, INITIAL_MARK_STACK_SIZE), ranges) <= INITIAL_MARK_STACK_SIZE
  }

  /** Full collections must never abort, nor partial ones if there are any. */
  predicate Fits(incremental: bool, ranges: seq<Stretch>) {
    Fit(true, ranges) && (incremental ==> Fit(false, ranges))
  }

  lemma FitRoom(all: bool, ranges: seq<Stretch>, limit: nat, size: nat)
    requires Fit(all, ranges) && INITIAL_MARK_STACK_SIZE <= limit && size <= Threshold(all, limit)
    ensures Needs(all, limit, size, ranges) <= limit
  {
    if !all {
      RangesShift(INITIAL_MARK_STACK_SIZE, INITIAL_MARK_STACK_SIZE / 2, ranges, size, limit - INITIAL_MARK_STACK_SIZE);
    }
  }

  /** Pushing the roots never aborts, whatever is on the stack and however it has
      grown, if and only if the ranges fit the initial stack at its fullest. */
  lemma AlwaysFitIff(all: bool, ranges: seq<Stretch>)
    ensures AlwaysFit(all, ranges) <==> Fit(all, ranges)
  {
    if Fit(all, ranges) {
      forall limit: nat, size: nat | INITIAL_MARK_STACK_SIZE <= limit && size <= Threshold(all, limit)
        ensures Needs(all, limit, size, ranges) <= limit
      {
        FitRoom(all, ranges, limit, size);
      }
    }
  }

  /** MAX_ROOT_SETS. */
  const MAX_ROOT_SETS: nat := 2048

  /** In a full collection as many ranges fit as there can be root sets; in a partial
      one a quarter of that, less one, always do. */
  lemma FewFit(ranges: seq<Stretch>)
    ensures Fit(true, ranges) <==> |ranges| <= 3 * INITIAL_MARK_STACK_SIZE / 4
    ensures |ranges| <= MAX_ROOT_SETS ==> Fit(true, ranges)
    ensures |ranges| < MAX_ROOT_SETS / 4 ==> Fit(false, ranges)
    ensures |ranges| > INITIAL_MARK_STACK_SIZE / 2 ==> !Fit(false, ranges)
  {
    RangesGrow(INITIAL_MARK_STACK_SIZE, INITIAL_MARK_STACK_SIZE / 2, ranges);
  }

  /** A quarter need not fit: the pages of these fill a stack of the initial size, half
      full as it may be in MS_PUSH_RESCUERS, beyond its end. */
  lemma TooManyRanges()
    ensures var rs := WideRanges(2000, 0, MAX_ROOT_SETS / 4);
            |rs| == MAX_ROOT_SETS / 4 && RangesOK(rs, rs[|rs| - 1].hi) && !Fit(false, rs)
  {
    var limit, m := INITIAL_MARK_STACK_SIZE, MAX_ROOT_SETS / 4;
    var rs := WideRanges(2000, 0, m);
    FillUp(limit, limit / 2 + 1, HBLK_WORDS, 2000 * HBLK_WORDS);
    assert AfterRange(limit, limit / 2, rs[0]) == 3 * limit / 4 + 3;
    assert rs[1..] == WideRanges(2000, 1, m);
    TwoEach(limit, 3 * limit / 4 + 3, 2000, 1, m);
    WideOK(2000, m);
  }

  /** They make up the words up to the end of the last. */
  lemma WideOK(n: nat, m: nat)
    requires n > 0 && m > 0
    ensures var rs := WideRanges(n, 0, m); RangesOK(rs, rs[m - 1].hi)
  {
    var rs := WideRanges(n, 0, m);
    forall j | 0 <= j < m ensures rs[j].lo < rs[j].hi <= rs[m - 1].hi { assert rs[j] == WideRange(n, j); }
    forall i | 0 <= i < rs[m - 1].hi ensures InRanges(rs, i) { WideHas(n, m, i); }
  }

  lemma {:induction false} WideHas(n: nat, m: nat, i: nat)
    requires m > 0 && i < WideRange(n, m - 1).hi
    ensures InRanges(WideRanges(n, 0, m), i)
    decreases m
  {
    var rs := WideRanges(n, 0, m);
    if WideRange(n, m - 1).lo <= i {
      assert rs[m - 1].lo <= i < rs[m - 1].hi;
    } else {
      WideHas(n, m - 1, i);
      var j :| 0 <= j < m - 1 && WideRanges(n, 0, m - 1)[j].lo <= i < WideRanges(n, 0, m - 1)[j].hi;
      assert rs[j] == WideRanges(n, 0, m - 1)[j];
    }
  }

  // ---------------------------------------------------------------- root sets

  function WordsIn(rs: seq<Exclusions.Range>): nat
    requires forall i :: 0 <= i < |rs| ==> rs[i].start < rs[i].end
  {
    if rs == [] then 0 else WordsIn(rs[..|rs| - 1]) + (rs[|rs| - 1].end - rs[|rs| - 1].start)
  }

  predicate IsAt(r: Stretch, s: Exclusions.Range) { r.at == s.start && r.hi - r.lo == s.end - s.start }

  /** Address ranges that make up the static data, one after the other. */
  function Packed(rs: seq<Exclusions.Range>): (r: seq<Stretch>)
    requires forall i :: 0 <= i < |rs| ==> rs[i].start < rs[i].end
    ensures |r| == |rs| && forall i :: 0 <= i < |rs| ==> IsAt(r[i], rs[i])
  {
    if rs == [] then [] else
      var before := rs[..|rs| - 1];
      Packed(before) + [Stretch(WordsIn(before), WordsIn(rs), rs[|rs| - 1].start)]
  }

  lemma {:induction false} PackedOK(rs: seq<Exclusions.Range>)
    requires forall i :: 0 <= i < |rs| ==> rs[i].start < rs[i].end
    ensures RangesOK(Packed(rs), WordsIn(rs))
    decreases |rs|
  {
    if rs != [] {
      var k := |rs| - 1;
      PackedOK(rs[..k]);
      var p, q := Packed(rs[..k]), Packed(rs);
      forall i | 0 <= i < WordsIn(rs) ensures InRanges(q, i) {
        if i < WordsIn(rs[..k]) {
          assert InRanges(p, i);
          var j :| 0 <= j < |p| && p[j].lo <= i < p[j].hi;
          assert q[j] == p[j];
        } else {
          assert q[k].lo <= i < q[k].hi;
        }
      }
    }
  }

  /** The ranges GC_push_roots pushes for the root sets: exactly what lies in one of
      them and is not excluded. */
  method RootRanges(t: Exclusions.Table, sets: seq<Exclusions.Range>)
    returns (pushed: seq<Exclusions.Range>, ranges: seq<Stretch>)
    requires Exclusions.Sorted(t.t) && |t.t| > 0
    ensures forall i :: 0 <= i < |pushed| ==> pushed[i].start < pushed[i].end
    ensures forall x :: Exclusions.Excluded(pushed, x) <==> Exclusions.Excluded(sets, x) && !Exclusions.Excluded(t.t, x)
    ensures RangesOK(ranges, WordsIn(pushed))
    ensures |ranges| == |pushed| && forall i :: 0 <= i < |pushed| ==> IsAt(ranges[i], pushed[i])
  {
    pushed := [];
    var k := 0;
    while k < |sets|
      invariant k <= |sets| && forall i :: 0 <= i < |pushed| ==> pushed[i].start < pushed[i].end
      invariant forall x :: Exclusions.Excluded(pushed, x) <==>
                              Exclusions.Excluded(sets[..k], x) && !Exclusions.Excluded(t.t, x)
    {
      var more := t.Push(sets[k].start, sets[k].end);
      Joined(pushed, more);
      Exclusions.PushedSame(sets[..k], sets[k]);
      assert sets[..k + 1] == sets[..k] + [sets[k]];
      pushed := pushed + more;
      k := k + 1;
    }
    assert sets[..k] == sets;
    ranges := Packed(pushed);
    PackedOK(pushed);
  }

  lemma Joined(a: seq<Exclusions.Range>, b: seq<Exclusions.Range>)
    ensures forall x :: Exclusions.Excluded(a + b, x) <==> Exclusions.Excluded(a, x) || Exclusions.Excluded(b, x)
  {
    var c := a + b;
    forall x ensures Exclusions.Excluded(c, x) <==> Exclusions.Excluded(a, x) || Exclusions.Excluded(b, x) {
      if Exclusions.Excluded(a, x) {
        var i :| 0 <= i < |a| && Exclusions.Has(a[i], x);
        assert Exclusions.Has(c[i], x);
      }
      if Exclusions.Excluded(b, x) {
        var i :| 0 <= i < |b| && Exclusions.Has(b[i], x);
        assert Exclusions.Has(c[|a| + i], x);
      }
      if Exclusions.Excluded(c, x) {
        var i :| 0 <= i < |c| && Exclusions.Has(c[i], x);
        assert if i < |a| then Exclusions.Has(a[i], x) else Exclusions.Has(b[i - |a|], x);
      }
    }
  }
}
