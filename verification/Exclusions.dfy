/** Ranges of the static data that are not roots: the exclusion table and the push
    of what is left. */
module Exclusions {
  datatype Range = Range(start: nat, end: nat)

  ghost predicate Has(r: Range, x: int) { r.start <= x < r.end }

  /** In ascending order and disjoint. */
  ghost predicate Sorted(t: seq<Range>) {
    && (forall i :: 0 <= i < |t| ==> t[i].start <= t[i].end)
    && (forall i, j :: 0 <= i < j < |t| ==> t[i].end <= t[j].start)
  }

  ghost predicate Excluded(t: seq<Range>, x: int) { exists i :: 0 <= i < |t| && Has(t[i], x) }

  /** A range that ends after start begins before finish. */
  ghost predicate Overlaps(t: seq<Range>, start: nat, finish: nat) {
    exists i :: 0 <= i < |t| && start < t[i].end && t[i].start < finish
  }

  /** A range that ends after start begins at finish, and can be extended. */
  ghost predicate Adjoins(t: seq<Range>, start: nat, finish: nat) {
    exists i :: 0 <= i < |t| && start < t[i].end && t[i].start == finish
  }

  /** t' excludes what t does and start..finish. */
  ghost predicate Adds(t: seq<Range>, t': seq<Range>, start: nat, finish: nat) {
    forall x :: Excluded(t', x) <==> Excluded(t, x) || start <= x < finish
  }

  /** t' excludes what t does but for start..finish. */
  ghost predicate Loses(t: seq<Range>, t': seq<Range>, start: nat, finish: nat) {
    forall x :: Excluded(t', x) <==> Excluded(t, x) && !(start <= x < finish)
  }

  class Table {
    const max: nat              // MAX_EXCLUSIONS
    var t: seq<Range>

    constructor (max: nat)
      ensures Sorted(t) && t == [] && this.max == max
    {
      this.max, t := max, [];
    }

    /** GC_next_exclusion: the first range that ends after addr, or none. */
    method NextExclusion(addr: nat) returns (found: bool, k: nat)
      requires Sorted(t) && |t| > 0
      ensures found ==> k < |t| && addr < t[k].end && forall i :: 0 <= i < k ==> t[i].end <= addr
      ensures !found ==> forall i :: 0 <= i < |t| ==> t[i].end <= addr
    {
      var low, high := 0, |t| - 1;
      while high > low
        invariant 0 <= low <= high < |t|
        invariant forall i :: 0 <= i < low ==> t[i].end <= addr
        invariant high < |t| - 1 ==> addr < t[high].end
      {
        var mid := (low + high) / 2;
        if t[mid].end <= addr {
          assert forall i :: 0 <= i < mid ==> t[i].end <= t[mid].start;
          low := mid + 1;
        } else {
          high := mid;
        }
      }
      found, k := addr < t[low].end, low;
    }

    /** GC_exclude_static_roots: exclude start..finish, unless it overlaps a range
        that ends after start or the table is full.  With the bounds in the wrong
        order nothing is excluded: a range that begins at finish is shortened, or else
        the table is no longer in order. */
    method Exclude(start: nat, finish: nat) returns (ok: bool)
      requires Sorted(t)
      modifies this`t
      ensures ok && start <= finish ==> Sorted(t) && Adds(old(t), t, start, finish)
      ensures ok && start > finish ==> (Sorted(t) <==> Adjoins(old(t), start, finish))
      ensures ok && start > finish ==> Loses(old(t), t, if Adjoins(old(t), start, finish) then finish else start, start)
      ensures !ok ==> t == old(t)
      ensures ok <==> !Overlaps(old(t), start, finish) && (|old(t)| != max || Adjoins(old(t), start, finish))
    {
      var found, k := false, |t|;
      if |t| > 0 {
        var at;
        found, at := NextExclusion(start);
        if found { k := at; }
      }
      Verdict(start, finish, found, k);
      if found && t[k].start < finish { return false; }
      if found && t[k].start == finish {
        if start <= finish { Extended(t, k, start); } else { Shortened(t, k, start); }
        t := t[k := t[k].(start := start)];
        return true;
      }
      if |t| == max { return false; }
      if start <= finish { Inserted(t, k, Range(start, finish)); } else { Misplaced(t, k, Range(start, finish)); }
      Insert(k, Range(start, finish));
      ok := true;
    }

    /** The first range that ends after start decides for all of them. */
    lemma Verdict(start: nat, finish: nat, found: bool, k: nat)
      requires Sorted(t)
      requires found ==> k < |t| && start < t[k].end && forall i :: 0 <= i < k ==> t[i].end <= start
      requires !found ==> forall i :: 0 <= i < |t| ==> t[i].end <= start
      ensures Overlaps(t, start, finish) <==> found && t[k].start < finish
      ensures !Overlaps(t, start, finish) ==> (Adjoins(t, start, finish) <==> found && t[k].start == finish)
    {
    }

    /** Shift the ranges from k on up and put r in their place. */
    method Insert(k: nat, r: Range)
      requires k <= |t|
      modifies this`t
      ensures t == old(t)[..k] + [r] + old(t)[k..]
    {
      var s := t + [Range(0, 0)];
      var i := |t|;
      while i > k
        invariant k <= i <= |t| && |s| == |t| + 1 && t == old(t)
        invariant s[..i] == t[..i] && s[i + 1..] == t[i..]
      {
        s := s[i := s[i - 1]];
        i := i - 1;
      }
      t := s[k := r];
    }

    /** GC_push_conditional_with_exclusions: push exactly what is not excluded of
        bottom..top. */
    method Push(bottom0: nat, top: nat) returns (pushed: seq<Range>)
      requires Sorted(t) && |t| > 0
      ensures forall x :: Excluded(pushed, x) <==> bottom0 <= x < top && !Excluded(t, x)
      ensures Sorted(pushed) && forall i :: 0 <= i < |pushed| ==> pushed[i].start < pushed[i].end
    {
      var bottom := bottom0;
      pushed := [];
      while bottom < top
        invariant bottom0 <= bottom
        invariant Sorted(pushed) && forall i :: 0 <= i < |pushed| ==> pushed[i].start < pushed[i].end <= bottom
        invariant forall x :: Excluded(pushed, x) <==> bottom0 <= x < bottom && x < top && !Excluded(t, x)
        decreases top - bottom
      {
        var found, k := NextExclusion(bottom);
        if !found || t[k].start >= top {
          Free(bottom, top, found, k);
          PushedSame(pushed, Range(bottom, top));
          pushed := pushed + [Range(bottom, top)];
          return;
        }
        Free(bottom, t[k].start, found, k);
        if t[k].start > bottom {
          PushedSame(pushed, Range(bottom, t[k].start));
          pushed := pushed + [Range(bottom, t[k].start)];
        }
        bottom := t[k].end;
      }
    }

    /** Nothing is excluded between bottom and the next range. */
    lemma Free(bottom: nat, to: nat, found: bool, k: nat)
      requires Sorted(t)
      requires found ==> k < |t| && bottom < t[k].end && (forall i ::
              0 <= i < k ==> t[i].end <= bottom) && to <= t[k].start
      requires !found ==> forall i :: 0 <= i < |t| ==> t[i].end <= bottom
      ensures forall x :: bottom <= x < to ==> !Excluded(t, x)
      ensures found ==> forall x :: bottom <= x < t[k].end && t[k].start <= x ==> Excluded(t, x)
    {
      forall x | bottom <= x < to ensures !Excluded(t, x) {
        forall i | 0 <= i < |t| ensures !Has(t[i], x) {}
      }
      if found {
        forall x | bottom <= x < t[k].end && t[k].start <= x ensures Excluded(t, x) { assert Has(t[k], x); }
      }
    }
  }

  lemma PushedSame(p: seq<Range>, r: Range)
    ensures forall x :: Excluded(p + [r], x) <==> Excluded(p, x) || Has(r, x)
  {
    var q := p + [r];
    forall x ensures Excluded(q, x) <==> Excluded(p, x) || Has(r, x) {
      if Excluded(p, x) {
        var i :| 0 <= i < |p| && Has(p[i], x);
        assert Has(q[i], x);
      }
      if Has(r, x) { assert Has(q[|p|], x); }
    }
  }

  lemma Inserted(t: seq<Range>, k: nat, r: Range)
    requires k <= |t| && Sorted(t) && r.start <= r.end
    requires (forall i :: 0 <= i < k ==> t[i].end <= r.start) && (k < |t| ==> r.end <= t[k].start)
    ensures Sorted(t[..k] + [r] + t[k..]) && Adds(t, t[..k] + [r] + t[k..], r.start, r.end)
  {
    var q := t[..k] + [r] + t[k..];
    assert forall i :: 0 <= i < |q| ==> q[i] == if i < k then t[i] else if i == k then r else t[i - 1];
    InsertedSorted(t, q, k, r);
    InsertedAdds(t, q, k, r);
  }

  ghost predicate IsInserted(t: seq<Range>, q: seq<Range>, k: nat, r: Range) {
    k <= |t| && |q| == |t| + 1
    && forall i {:trigger q[i]} :: 0 <= i < |q| ==> q[i] == if i < k then t[i] else if i == k then r else t[i - 1]
  }

  lemma InsertedSorted(t: seq<Range>, q: seq<Range>, k: nat, r: Range)
    requires IsInserted(t, q, k, r) && Sorted(t) && r.start <= r.end
    requires (forall i :: 0 <= i < k ==> t[i].end <= r.start) && (k < |t| ==> r.end <= t[k].start)
    ensures Sorted(q)
  {
    forall i, j | 0 <= i < j < |q| ensures q[i].end <= q[j].start {
      if j == k {
      } else if i == k {
        assert t[k].start <= t[j - 1].start by { assert k < j - 1 ==> t[k].end <= t[j - 1].start; }
      } else {
        assert t[if i < k then i else i - 1].end <= t[if j < k then j else j - 1].start;
      }
    }
  }

  lemma InsertedAdds(t: seq<Range>, q: seq<Range>, k: nat, r: Range)
    requires IsInserted(t, q, k, r)
    ensures Adds(t, q, r.start, r.end)
  {
    forall x ensures Excluded(q, x) <==> Excluded(t, x) || Has(r, x) {
      if Excluded(t, x) {
        var i :| 0 <= i < |t| && Has(t[i], x);
        assert Has(q[if i < k then i else i + 1], x);
      }
      if Has(r, x) { assert Has(q[k], x); }
      if Excluded(q, x) {
        var i :| 0 <= i < |q| && Has(q[i], x);
        assert i != k ==> Has(t[if i < k then i else i - 1], x);
      }
    }
  }

  lemma Extended(t: seq<Range>, k: nat, start: nat)
    requires k < |t| && Sorted(t) && start <= t[k].start && forall i :: 0 <= i < k ==> t[i].end <= start
    ensures Sorted(t[k := t[k].(start := start)]) && Adds(t, t[k := t[k].(start := start)], start, t[k].start)
  {
    var q := t[k := t[k].(start := start)];
    forall x ensures Excluded(q, x) <==> Excluded(t, x) || start <= x < t[k].start {
      if Excluded(t, x) {
        var i :| 0 <= i < |t| && Has(t[i], x);
        assert Has(q[i], x);
      }
      if start <= x < t[k].start { assert Has(q[k], x); }
      if Excluded(q, x) {
        var i :| 0 <= i < |q| && Has(q[i], x);
        assert i != k ==> Has(t[i], x);
        assert i == k && x >= t[k].start ==> Has(t[k], x);
      }
    }
  }

  /** A range that begins at finish gives up finish..start. */
  lemma Shortened(t: seq<Range>, k: nat, start: nat)
    requires k < |t| && Sorted(t) && t[k].start < start < t[k].end
    ensures Sorted(t[k := t[k].(start := start)]) && Loses(t, t[k := t[k].(start := start)], t[k].start, start)
  {
    var q := t[k := t[k].(start := start)];
    forall x ensures Excluded(q, x) <==> Excluded(t, x) && !(t[k].start <= x < start) {
      if Excluded(q, x) {
        var i :| 0 <= i < |q| && Has(q[i], x);
        assert Has(t[i], x);
      }
      if Excluded(t, x) && !(t[k].start <= x < start) {
        var i :| 0 <= i < |t| && Has(t[i], x);
        assert Has(q[i], x);
      }
    }
  }

  /** A range with its bounds in the wrong order excludes nothing. */
  lemma Misplaced(t: seq<Range>, k: nat, r: Range)
    requires k <= |t| && r.start > r.end
    ensures !Sorted(t[..k] + [r] + t[k..]) && Loses(t, t[..k] + [r] + t[k..], r.start, r.start)
  {
    var q := t[..k] + [r] + t[k..];
    assert q[k] == r;
    assert forall i :: 0 <= i < |q| ==> q[i] == if i < k then t[i] else if i == k then r else t[i - 1];
    InsertedAdds(t, q, k, r);
  }
}
