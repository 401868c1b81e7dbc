/** The map from object sizes in bytes to sizes in granules, filled on demand. */
module SizeMap {
  // A 64-bit configuration: 16-byte granules, objects of up to half a block.
  const GRANULE_BYTES: nat := 16
  const TINY_FREELISTS: nat := 25
  const MAXOBJGRANULES: nat := 128
  const MAXOBJBYTES: nat := 2048
  const HBLK_GRANULES: nat := 256

  class Sizes {
    const extra: nat            // EXTRA_BYTES: 1 if pointers past the end count
    const map_: array<nat>      // GC_size_map

    ghost predicate Fixed()
    {
      extra <= 1 && map_.Length == MAXOBJBYTES + 1
    }

    /** Every entry that is filled names a size that is large enough, and the tiny
        sizes are filled. */
    ghost predicate Valid()
      reads map_
    {
      && Fixed()
      && (forall j :: 0 <= j < map_.Length && map_[j] != 0 ==>
                        j + extra <= map_[j] * GRANULE_BYTES && map_[j] <= MAXOBJGRANULES)
      && (forall j :: 0 <= j <= (TINY_FREELISTS - 1) * GRANULE_BYTES - extra ==> map_[j] != 0)
    }

    function RoundedUp(n: nat): nat { (n + GRANULE_BYTES - 1 + extra) / GRANULE_BYTES }

    /** GC_init_size_map. */
    constructor (extra: nat)
      requires extra <= 1
      ensures Valid() && fresh(map_) && this.extra == extra
      ensures forall j :: 0 <= j <= (TINY_FREELISTS - 1) * GRANULE_BYTES - extra ==> map_[j] < TINY_FREELISTS
    {
      this.extra := extra;
      map_ := new nat[MAXOBJBYTES + 1](_ => 0);
      new;
      map_[0] := 1;
      var i := 1;
      while i <= (TINY_FREELISTS - 1) * GRANULE_BYTES - extra
        invariant 1 <= i <= (TINY_FREELISTS - 1) * GRANULE_BYTES - extra + 1
        invariant map_[0] == 1
        invariant forall j :: 1 <= j < i ==> map_[j] == RoundedUp(j)
        invariant forall j :: i <= j < map_.Length ==> map_[j] == 0
      {
        map_[i] := RoundedUp(i);
        i := i + 1;
      }
    }

    /** The first empty entry from low on, no later than i, which is empty. */
    method FirstEmpty(low: nat, i: nat) returns (l: nat)
      requires i < map_.Length && map_[i] == 0 && low <= i
      ensures low <= l <= i && map_[l] == 0
    {
      l := low;
      while map_[l] != 0
        invariant low <= l <= i
        decreases i - l
      {
        l := l + 1;
      }
    }

    /** GC_extend_size_map: fill entries around the empty entry i.  It is filled,
        and no entry is filled with too small a size. */
    method Extend(i: nat)
      requires Valid() && i <= MAXOBJBYTES - extra && map_[i] == 0
      modifies map_
      ensures Valid() && map_[i] != 0
      ensures forall j :: 0 <= j < map_.Length && old(map_[j]) != 0 ==> map_[j] != 0
    {
      var orig := RoundedUp(i);
      var granules := orig;
      var bytes := granules * GRANULE_BYTES;
      var smaller, muchSmaller := bytes - bytes / 8, bytes - bytes / 4;
      var low: nat;
      if map_[smaller] == 0 {
        low := FirstEmpty(muchSmaller, i);
      } else {
        low := FirstEmpty(smaller + 1, i);
        granules := RoundedUp(low);
        granules := granules + granules / 8;
        if granules < orig { granules := orig; }
      }
      granules := granules + 1;
      granules := granules - granules % 2;
      if granules > MAXOBJGRANULES { granules := MAXOBJGRANULES; }
      granules := SameNumber(granules);
      Fill(low, granules * GRANULE_BYTES - extra, granules);
    }

    /** If the same number of larger objects fits in a block, the larger size is
        taken; the size never shrinks. */
    method SameNumber(g: nat) returns (r: nat)
      requires 0 < g <= MAXOBJGRANULES && g % 2 == 0
      ensures g <= r <= MAXOBJGRANULES && r % 2 == 0
      ensures HBLK_GRANULES / r == HBLK_GRANULES / g
    {
      ghost var n, e := NumberKept(g);
      var number := HBLK_GRANULES / g;
      r := HBLK_GRANULES / number;
      r := r - r % 2;
    }

    method Fill(low: nat, high: nat, g: nat)
      requires Valid() && low <= high < map_.Length && high + extra <= g * GRANULE_BYTES && 0 < g <= MAXOBJGRANULES
      modifies map_
      ensures Valid()
      ensures forall j :: 0 <= j < map_.Length ==> map_[j] == if low <= j <= high then g else old(map_[j])
    {
      var j := low;
      while j <= high
        invariant low <= j <= high + 1
        invariant forall k :: 0 <= k < map_.Length ==> map_[k] == if low <= k < j then g else old(map_[k])
      {
        map_[j] := g;
        j := j + 1;
      }
    }

    /** The retry in GC_generic_malloc_inner: the size for lb bytes, after filling
        its entry if it is empty. */
    method SizeFor(lb: nat) returns (granules: nat)
      requires Valid() && lb <= MAXOBJBYTES - extra
      modifies map_
      ensures Valid() && granules == map_[lb] && lb + extra <= granules * GRANULE_BYTES
      ensures 0 < granules <= MAXOBJGRANULES
      decreases map_[lb] == 0
    {
      if map_[lb] == 0 {
        Extend(lb);
        granules := SizeFor(lb);
      } else {
        granules := map_[lb];
      }
    }
  }

  lemma MulMono(a: nat, b: nat, c: nat)
    requires b <= c
    ensures a * b <= a * c && b * a <= c * a
  {
  }

  lemma DivBounds(b: nat) returns (q: nat)
    requires b > 0
    ensures q == HBLK_GRANULES / b && b * q <= HBLK_GRANULES < b * (q + 1)
  {
    q := HBLK_GRANULES / b;
  }

  /** The quotient is the number that multiplies back to just HBLK_GRANULES. */
  lemma Quotient(x: nat, n: nat)
    requires 0 < x && x * n <= HBLK_GRANULES < x * (n + 1)
    ensures HBLK_GRANULES / x == n
  {
    var q := DivBounds(x);
    if q < n { MulMono(x, q + 1, n); }
    if q > n { MulMono(x, n + 1, q); }
  }

  /** With g the given size, n the number of objects and r the size that fills a
      block with n objects. */
  lemma Between(g: nat, n: nat, r: nat)
    requires 0 < g <= MAXOBJGRANULES && g * n <= HBLK_GRANULES < g * (n + 1) && n * r <= HBLK_GRANULES < n * (r + 1)
    ensures n >= 2 && g <= r <= MAXOBJGRANULES
  {
    if n < 2 { MulMono(g, n + 1, 2); }
    if r < g { MulMono(n, r + 1, g); }
    MulMono(r, 2, n);
  }

  /** As many objects of the larger size fit, and it is not more than half a block. */
  lemma NumberKept(g: nat) returns (n: nat, r: nat)
    requires 0 < g <= MAXOBJGRANULES && g % 2 == 0
    ensures n == HBLK_GRANULES / g && n >= 2 && r == HBLK_GRANULES / n
    ensures g <= r <= MAXOBJGRANULES && HBLK_GRANULES / (r - r % 2) == n
  {
    n := DivBounds(g);
    assert n > 0 by { if n == 0 { MulMono(g, n + 1, 2); } }
    r := DivBounds(n);
    Between(g, n, r);
    var e := r - r % 2;
    MulMono(n, e, r);
    MulMono(n + 1, g, e);
    Quotient(e, n);
  }
}
