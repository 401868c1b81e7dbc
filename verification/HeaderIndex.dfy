/** The index of block headers: bottom indices for the parts of the address space
    in use, linked in order of address, with forwarding counts inside large
    blocks.  Block addresses are counted in blocks. */
module HeaderIndex {
  const BOTTOM_SZ: nat := 1024
  const HBLKSIZE: nat := 4096
  const MAX_JUMP: nat := 4095
  const WORD_BYTES: nat := 8

  /** A block: how many heap blocks it takes up, the size in bytes of the objects
      in it, and whether it is free. */
  datatype Blk = Blk(n: nat, sz: nat, free: bool)

  /** What the index holds for a block address. */
  datatype Entry = Nil | Jump(k: nat) | Head(b: Blk)

  /** The bottom indices, by the high part of the address. */
  type Bottoms = map<nat, seq<Entry>>

  /** The blocks, as a plain map from their first address. */
  type Blocks = map<nat, Blk>

  function Get(bis: Bottoms, x: nat): Entry
    requires x / BOTTOM_SZ in bis ==> |bis[x / BOTTOM_SZ]| == BOTTOM_SZ
  {
    if x / BOTTOM_SZ in bis then bis[x / BOTTOM_SZ][x % BOTTOM_SZ] else Nil
  }

  ghost predicate Sorted(keys: seq<nat>) {
    forall i, j :: 0 <= i < j < |keys| ==> keys[i] < keys[j]
  }

  ghost predicate Full(bis: Bottoms) {
    forall k {:trigger bis[k]} :: k in bis ==> |bis[k]| == BOTTOM_SZ
  }

  ghost predicate IndexOK(bis: Bottoms, keys: seq<nat>) {
    && Full(bis) && Sorted(keys)
    && (forall k {:trigger k in keys} {:trigger k in bis} :: k in keys <==> k in bis)
  }

  ghost predicate In(B: Blocks, h: nat, x: int) { h in B && h <= x < h + B[h].n }

  function Min(a: nat, b: nat): nat { if a < b then a else b }

  /** What the index should hold for block x of the piece h. */
  function Wanted(B: Blocks, h: nat, x: nat): Entry
    requires h in B && h <= x
  {
    if x == h then Head(B[h]) else if B[h].free then Nil else Jump(Min(x - h, MAX_JUMP))
  }

  /** The index agrees with the plain map. */
  ghost predicate Agrees(bis: Bottoms, B: Blocks)
    requires Full(bis)
  {
    && (forall h {:trigger h in B} :: h in B ==> 0 < h && 0 < B[h].n)
    && (forall h, x {:trigger In(B, h, x)} :: In(B, h, x) ==> Get(bis, x) == Wanted(B, h, x))
    && (forall x: nat {:trigger Get(bis, x)} :: Get(bis, x) != Nil ==> exists h :: In(B, h, x))
    && (forall g, h, x {:trigger In(B, g, x), In(B, h, x)} :: In(B, g, x) && In(B, h, x) ==> g == h)
  }

  /** A header is found exactly where a block starts. */
  lemma HeadIff(bis: Bottoms, B: Blocks, x: nat)
    requires Full(bis) && Agrees(bis, B)
    ensures x in B <==> Get(bis, x).Head?
    ensures x in B ==> Get(bis, x) == Head(B[x])
  {
    if x in B { assert In(B, x, x); }
    if Get(bis, x).Head? {
      var h :| In(B, h, x);
      assert x == h;
    }
  }

  /** A forwarding count leads back inside the same block, not past its header. */
  lemma JumpInside(bis: Bottoms, B: Blocks, x: nat) returns (h: nat)
    requires Full(bis) && Agrees(bis, B) && Get(bis, x).Jump?
    ensures In(B, h, x) && !B[h].free && 0 < Get(bis, x).k <= x - h && In(B, h, x - Get(bis, x).k)
    ensures forall y: nat :: h < y <= x ==> y !in B
  {
    h :| In(B, h, x);
    forall y: nat | h < y <= x ensures y !in B {
      assert In(B, h, y);
      assert y in B ==> In(B, y, y);
    }
  }

  // ---------------------------------------------------------------- changing the index

  /** SET_HDR. */
  function Set(bis: Bottoms, x: nat, e: Entry): (r: Bottoms)
    requires Full(bis) && x / BOTTOM_SZ in bis
    ensures Full(r) && r.Keys == bis.Keys
    ensures forall y: nat {:trigger Get(r, y)} :: Get(r, y) == if y == x then e else Get(bis, y)
  {
    var k, j := x / BOTTOM_SZ, x % BOTTOM_SZ;
    var r := bis[k := bis[k][j := e]];
    assert forall y: nat :: y / BOTTOM_SZ == k && y % BOTTOM_SZ == j ==> y == x;
    r
  }

  /** The same entries everywhere but for block h, from lo up to hi. */
  ghost predicate Changed(bis: Bottoms, bis': Bottoms, lo: int, hi: int)
    requires Full(bis) && Full(bis')
  {
    forall y: nat {:trigger Get(bis', y)} :: !(lo <= y < hi) ==> Get(bis', y) == Get(bis, y)
  }

  /** The blocks of B lie apart from lo..hi. */
  ghost predicate Apart(B: Blocks, lo: nat, hi: nat) {
    forall h {:trigger h in B} :: h in B ==> h + B[h].n <= lo || hi <= h
  }

  ghost predicate Proper(B: Blocks) {
    && (forall h {:trigger h in B} :: h in B ==> 0 < h && 0 < B[h].n)
    && (forall g, h, x {:trigger In(B, g, x), In(B, h, x)} :: In(B, g, x) && In(B, h, x) ==> g == h)
  }

  /** Putting block h, with its new entries, in place of whatever was there. */
  lemma AgreesWith(bis: Bottoms, bis': Bottoms, B: Blocks, B': Blocks, h: nat)
    requires Full(bis) && Full(bis') && Agrees(bis, B) && Proper(B') && h in B'
    requires Changed(bis, bis', h, h + B'[h].n)
    requires forall x: nat {:trigger Get(bis', x)} :: h <= x < h + B'[h].n ==> Get(bis', x) == Wanted(B', h, x)
    requires forall g, x {:trigger In(B', g, x)} {:trigger In(B, g, x)} ::
               !(h <= x < h + B'[h].n) ==> (In(B', g, x) <==> In(B, g, x)) && (In(B, g, x) ==> B'[g] == B[g])
    ensures Agrees(bis', B')
  {
    forall g, x | In(B', g, x) ensures Get(bis', x) == Wanted(B', g, x) {
      if h <= x < h + B'[h].n {
        assert In(B', h, x);
      } else {
        assert In(B, g, x);
        assert Get(bis', x) == Get(bis, x);
      }
    }
    forall x: nat | Get(bis', x) != Nil ensures exists g :: In(B', g, x) {
      if h <= x < h + B'[h].n {
        assert In(B', h, x);
      } else {
        assert Get(bis, x) == Get(bis', x);
        var g :| In(B, g, x);
        assert In(B', g, x);
      }
    }
  }

  class Index {
    var bis: Bottoms
    var keys: seq<nat>          // in the order of the links, ascending
    ghost var B: Blocks

    ghost predicate Valid()
      reads this
    {
      IndexOK(bis, keys) && Agrees(bis, B)
    }

    // -------------------------------------------------------------- looking up

    /** Chase forwarding counts from inside an allocated block to its header. */
    method Chase(x: nat, ghost h: nat) returns (y: nat)
      requires Valid() && In(B, h, x) && !B[h].free
      ensures y == h
    {
      y := x;
      while Get(bis, y).Jump?
        invariant In(B, h, y)
        decreases y
      {
        ghost var g := JumpInside(bis, B, y);
        y := y - Get(bis, y).k;
      }
    }

    /** Where key hi is, or would be, among the bottom indices. */
    method Locate(hi: nat) returns (i: nat)
      requires IndexOK(bis, keys)
      ensures i <= |keys|
      ensures (forall m :: 0 <= m < i ==> keys[m] < hi) && (forall m :: i <= m < |keys| ==> hi <= keys[m])
      ensures hi in bis <==> i < |keys| && keys[i] == hi
    {
      i := 0;
      while i < |keys| && keys[i] < hi
        invariant i <= |keys| && forall m :: 0 <= m < i ==> keys[m] < hi
      {
        i := i + 1;
      }
      if hi in bis {
        assert hi in keys;
        var m :| 0 <= m < |keys| && keys[m] == hi;
      } else {
        assert hi !in keys;
      }
    }

    /** Blocks in the gap before the i-th bottom index have no headers. */
    lemma Gap(i: nat, y: nat)
      requires Valid() && i <= |keys|
      requires (i > 0 ==> keys[i - 1] < y / BOTTOM_SZ) && (i < |keys| ==> y / BOTTOM_SZ < keys[i])
      ensures y !in B
    {
      assert y / BOTTOM_SZ !in keys;
      HeadIff(bis, B, y);
    }

    lemma Address(k: nat, j: nat)
      requires Valid() && k in bis && j < BOTTOM_SZ
      ensures Get(bis, k * BOTTOM_SZ + j) == bis[k][j]
    {
      assert (k * BOTTOM_SZ + j) / BOTTOM_SZ == k && (k * BOTTOM_SZ + j) % BOTTOM_SZ == j;
    }

    /** No block starts after the j-th block of the i-th bottom index, up to x. */
    ghost predicate NoneUpTo(i: int, j: int, x: nat)
      reads this`keys, this`B
    {
      if 0 <= i < |keys| then keys[i] * BOTTOM_SZ + j <= x && forall y {:trigger y in B} ::
              y in B ==> !(keys[i] * BOTTOM_SZ + j < y <= x)
      else forall y {:trigger y in B} :: y in B ==> y > x
    }

    /** GC_prev_block inside one bottom index. */
    method PrevInside(i: nat, j0: nat, x: nat) returns (found: bool, r: nat)
      requires Valid() && i < |keys| && j0 < BOTTOM_SZ && NoneUpTo(i, j0, x)
      ensures found ==> r in B && r <= x && forall y :: y in B ==> !(r < y <= x)
      ensures !found ==> NoneUpTo(i, -1, x)
    {
      var j: int, k := j0, keys[i];
      assert k in keys;
      while j >= 0
        invariant -1 <= j < BOTTOM_SZ && NoneUpTo(i, j, x)
      {
        var p := k * BOTTOM_SZ + j;
        Address(k, j);
        HeadIff(bis, B, p);
        match bis[k][j]
        case Nil => j := j - 1;
        case Jump(c) =>
          ghost var h := JumpInside(bis, B, p);
          j := if j - c < -1 then -1 else j - c;
        case Head(_) => return true, p;
      }
      return false, 0;
    }

    /** GC_prev_block: the last block, free or not, that starts at or before x. */
    method PrevBlock(x: nat) returns (r: nat)
      requires Valid()
      ensures r != 0 ==> r in B && r <= x && forall y :: y in B ==> !(r < y <= x)
      ensures r == 0 ==> forall y :: y in B ==> y > x
    {
      var hi := x / BOTTOM_SZ;
      var at := Locate(hi);
      var i: int := at;
      var j: nat := x % BOTTOM_SZ;
      if hi !in bis {
        i, j := i - 1, BOTTOM_SZ - 1;
        forall y: nat | y <= x && (i >= 0 ==> keys[i] * BOTTOM_SZ + j < y) ensures y !in B { Gap(at, y); }
      }
      while i >= 0
        invariant -1 <= i < |keys| && j < BOTTOM_SZ && NoneUpTo(i, j, x)
        decreases i
      {
        var found;
        found, r := PrevInside(i, j, x);
        if found { return; }
        forall y: nat | y < keys[i] * BOTTOM_SZ && (i > 0 ==> keys[i - 1] * BOTTOM_SZ + BOTTOM_SZ - 1 < y)
          ensures y !in B
        {
          Gap(i, y);
        }
        i, j := i - 1, BOTTOM_SZ - 1;
      }
      r := 0;
    }

    /** No allocated block starts from x on, before the j-th block of the i-th
        bottom index. */
    ghost predicate NoneFrom(i: nat, j: nat, x: nat)
      reads this`keys, this`B
    {
      forall y {:trigger y in B} :: y in B && !B[y].free && x <= y ==> i < |keys| && keys[i] * BOTTOM_SZ + j <= y
    }

    /** GC_next_used_block inside one bottom index. */
    method NextInside(i: nat, j0: nat, x: nat) returns (found: bool, r: nat)
      requires Valid() && i < |keys| && NoneFrom(i, j0, x)
      requires x <= keys[i] * BOTTOM_SZ + j0
      ensures found ==> r in B && !B[r].free && r >= x && forall y :: y in B && !B[y].free && x <= y ==> r <= y
      ensures !found ==> NoneFrom(i, BOTTOM_SZ, x)
    {
      var j, k := j0, keys[i];
      assert k in keys;
      while j < BOTTOM_SZ
        invariant j0 <= j && NoneFrom(i, j, x)
      {
        var p := k * BOTTOM_SZ + j;
        Address(k, j);
        HeadIff(bis, B, p);
        var e := bis[k][j];
        if !e.Head? {
          j := j + 1;
        } else if !e.b.free {
          return true, p;
        } else {
          FreeSkip(p);
          j := j + e.b.n;
        }
      }
      return false, 0;
    }

    /** No block starts inside the free block p. */
    lemma FreeSkip(p: nat)
      requires Valid() && p in B
      ensures 0 < B[p].n && forall y :: y in B && p < y ==> p + B[p].n <= y
    {
      forall y | y in B && p < y ensures p + B[p].n <= y {
        assert In(B, y, y);
        assert y < p + B[p].n ==> In(B, p, y);
      }
    }

    /** GC_next_used_block: the first allocated block that starts at or after x. */
    method NextUsedBlock(x: nat) returns (r: nat)
      requires Valid()
      ensures r != 0 ==> r in B && !B[r].free && r >= x && forall y :: y in B && !B[y].free && x <= y ==> r <= y
      ensures r == 0 ==> forall y :: y in B && !B[y].free ==> y < x
    {
      var hi := x / BOTTOM_SZ;
      var i := Locate(hi);
      var j: nat := if hi in bis then x % BOTTOM_SZ else 0;
      forall y: nat | x <= y && (i < |keys| ==> y < keys[i] * BOTTOM_SZ + j) ensures y !in B {
        if hi !in bis { Gap(i, y); }
      }
      while i < |keys|
        invariant i <= |keys| && NoneFrom(i, j, x) && (i < |keys| ==> x <= keys[i] * BOTTOM_SZ + j)
      {
        var found;
        found, r := NextInside(i, j, x);
        if found { return; }
        forall y: nat | keys[i] * BOTTOM_SZ + BOTTOM_SZ <= y && (i + 1 < |keys| ==> y < keys[i + 1] * BOTTOM_SZ)
          ensures y !in B
        {
          Gap(i + 1, y);
        }
        i, j := i + 1, 0;
      }
      r := 0;
    }

    // -------------------------------------------------------------- installing and removing

    constructor ()
      ensures Valid() && B == map[]
    {
      bis, keys, B := map[], [], map[];
    }

    /** get_index: make sure there is a bottom index for block x. */
    method GetIndex(x: nat)
      requires IndexOK(bis, keys)
      modifies this`bis, this`keys
      ensures IndexOK(bis, keys) && x / BOTTOM_SZ in bis && old(bis).Keys <= bis.Keys
      ensures forall y: nat {:trigger Get(bis, y)} :: Get(bis, y) == Get(old(bis), y)
    {
      var hi := x / BOTTOM_SZ;
      if hi in bis { return; }
      var i := Locate(hi);
      bis := bis[hi := seq(BOTTOM_SZ, _ => Nil)];
      keys := keys[..i] + [hi] + keys[i..];
      forall k: nat
        ensures k in keys <==> k in bis
      {
        assert old(keys) == old(keys)[..i] + old(keys)[i..];
        assert k in old(keys) <==> k in old(bis);
      }
    }

    /** GC_install_counts: forwarding counts for a block of n blocks at h. */
    method InstallCounts(h: nat, n: nat)
      requires IndexOK(bis, keys) && n > 0
      modifies this`bis, this`keys
      ensures IndexOK(bis, keys) && old(bis).Keys <= bis.Keys
      ensures forall y: nat {:trigger Get(bis, y)} ::
              Get(bis, y) == if h < y < h + n then Jump(Min(y - h, MAX_JUMP)) else Get(old(bis), y)
    {
      EnsureIndices(h, n);
      ghost var b0 := bis;
      var p := h + 1;
      while p < h + n
        invariant h < p && (p <= h + n || p == h + 1) && IndexOK(bis, keys) && bis.Keys == b0.Keys
        invariant forall y: nat {:trigger Get(bis, y)} ::
                Get(bis, y) == if h < y < p && y < h + n then Jump(Min(y - h, MAX_JUMP)) else Get(b0, y)
      {
        assert p / BOTTOM_SZ in bis;
        bis := Set(bis, p, Jump(Min(p - h, MAX_JUMP)));
        p := p + 1;
      }
    }

    /** There is a bottom index for each of the n blocks from h on. */
    method EnsureIndices(h: nat, n: nat)
      requires IndexOK(bis, keys) && n > 0
      modifies this`bis, this`keys
      ensures IndexOK(bis, keys) && old(bis).Keys <= bis.Keys
      ensures forall y: nat {:trigger Get(bis, y)} :: Get(bis, y) == Get(old(bis), y)
      ensures forall y: nat {:trigger y / BOTTOM_SZ} :: h <= y < h + n ==> y / BOTTOM_SZ in bis
    {
      var p := h;
      while p < h + n
        invariant h <= p && IndexOK(bis, keys) && old(bis).Keys <= bis.Keys
        invariant forall y: nat {:trigger Get(bis, y)} :: Get(bis, y) == Get(old(bis), y)
        invariant Covered(h, p, bis.Keys)
      {
        ghost var ks := bis.Keys;
        GetIndex(p);
        CoveredNext(h, p, ks, bis.Keys);
        p := p + BOTTOM_SZ;
      }
      GetIndex(h + n - 1);
      forall y: nat | h <= y < h + n ensures y / BOTTOM_SZ in bis {
        if y / BOTTOM_SZ != (h + n - 1) / BOTTOM_SZ { Reached(h, n, p, y, bis.Keys); }
      }
    }

    /** GC_remove_counts. */
    method RemoveCounts(h: nat, n: nat)
      requires IndexOK(bis, keys) && forall y: nat {:trigger y / BOTTOM_SZ} :: h < y < h + n ==> y / BOTTOM_SZ in bis
      modifies this`bis
      ensures IndexOK(bis, keys) && bis.Keys == old(bis).Keys
      ensures forall y: nat {:trigger Get(bis, y)} :: Get(bis, y) == if h < y < h + n then Nil else Get(old(bis), y)
    {
      var p := h + 1;
      while p < h + n
        invariant h < p && (p <= h + n || p == h + 1) && IndexOK(bis, keys) && bis.Keys == old(bis).Keys
        invariant forall y: nat {:trigger Get(bis, y)} ::
                Get(bis, y) == if h < y < p && y < h + n then Nil else Get(old(bis), y)
      {
        assert p / BOTTOM_SZ in bis;
        bis := Set(bis, p, Nil);
        p := p + 1;
      }
    }

    /** GC_install_header for a new free block of n blocks at h. */
    method AddFree(h: nat, n: nat)
      requires Valid() && 0 < h && 0 < n && Apart(B, h, h + n)
      modifies this`bis, this`keys, this`B
      ensures Valid() && B == old(B)[h := Blk(n, n * HBLKSIZE, true)]
    {
      ghost var b0, B' := bis, B[h := Blk(n, n * HBLKSIZE, true)];
      GetIndex(h);
      bis := Set(bis, h, Head(Blk(n, n * HBLKSIZE, true)));
      ApartEmpty(b0, B, h, h + n);
      AddProper(B, B', h);
      AgreesWith(b0, bis, B, B', h);
      B := B';
    }

    /** GC_install_header inside the free block h, as in GC_get_first_part and
        GC_split_block: h is cut at m into two free blocks. */
    method Split(h: nat, m: nat)
      requires Valid() && h in B && B[h].free && h < m < h + B[h].n
      modifies this`bis, this`keys, this`B
      ensures Valid() && B == Cut(old(B), h, m)
    {
      HeadIff(bis, B, h);
      var n := Get(bis, h).b.n;
      ghost var b0, B0, B' := bis, B, B[h := Blk(m - h, (m - h) * HBLKSIZE, true)];
      bis := Set(bis, h, Head(Blk(m - h, (m - h) * HBLKSIZE, true)));
      ShrinkAgrees(b0, bis, B, B', h);
      ShrinkApart(B, B', h);
      B := B';
      AddFree(m, h + n - m);
    }

    /** GC_free_block_ending_at: the free block that ends where block h starts, if any.
        Forwarding counts lead to a block that is not free; where there is no header
        GC_prev_block finds the only block that can be the one. */
    method FreeBlockEndingAt(h: nat) returns (p: nat)
      requires Valid() && h in B
      ensures p != 0 ==> p in B && B[p].free && p + B[p].n == h
      ensures p == 0 ==> forall q :: q in B && B[q].free ==> q + B[q].n != h
    {
      p := h - 1;
      var e := Get(bis, p);
      EndsOnce(p);
      HeadIff(bis, B, p);
      if e.Jump? {
        ghost var g := JumpInside(bis, B, p);
        p := Chase(p, g);
        HeadIff(bis, B, p);
        e := Get(bis, p);
      }
      if e.Head? {
        if !e.b.free { p := 0; }
        return;
      }
      p := PrevBlock(h - 1);
      if p != 0 {
        HeadIff(bis, B, p);
        EndsAt(p, h);
        if !Get(bis, p).b.free || p + Get(bis, p).b.n != h { p := 0; }
      }
    }

    /** Only a block that block x lies in can end right after x. */
    lemma EndsOnce(x: nat)
      requires Valid() && x + 1 in B
      ensures forall g, q {:trigger In(B, g, x), q in B} :: In(B, g, x) && q in B && q + B[q].n == x + 1 ==> q == g
      ensures x in B ==> B[x].n == 1
    {
      forall g, q | In(B, g, x) && q in B && q + B[q].n == x + 1 ensures q == g { assert In(B, q, x); }
      if x in B {
        assert In(B, x + 1, x + 1);
        assert B[x].n > 1 ==> In(B, x, x + 1);
      }
    }

    /** If p is the last block before h, only p can end at h. */
    lemma EndsAt(p: nat, h: nat)
      requires Valid() && p in B && p < h && forall y :: y in B ==> !(p < y <= h - 1)
      ensures forall q :: q in B && q + B[q].n == h ==> q == p
    {
      forall q | q in B && q + B[q].n == h ensures q == p {
        assert In(B, p, p);
        assert q < p ==> In(B, q, p);
      }
    }

    /** The free block h is allocated for objects of sz bytes: its header is set up
        and forwarding counts are installed. */
    method Use(h: nat, sz: nat)
      requires Valid() && h in B && B[h].free
      modifies this`bis, this`keys, this`B
      ensures Valid() && B == old(B)[h := Blk(old(B)[h].n, sz, false)]
    {
      HeadIff(bis, B, h);
      var n := Get(bis, h).b.n;
      ghost var b0, B' := bis, B[h := Blk(n, sz, false)];
      InstallCounts(h, n);
      bis := Set(bis, h, Head(Blk(n, sz, false)));
      SameProper(B, B', h);
      AgreesWith(b0, bis, B, B', h);
      B := B';
    }

    /** The counts and the header of GC_freehblk: the block h becomes free. */
    method Release(h: nat)
      requires Valid() && h in B && !B[h].free
      modifies this`bis, this`B
      ensures Valid() && B == old(B)[h := Blk(old(B)[h].n, old(B)[h].n * HBLKSIZE, true)]
    {
      HeadIff(bis, B, h);
      var n := Get(bis, h).b.n;
      ghost var b0, B' := bis, B[h := Blk(n, n * HBLKSIZE, true)];
      forall y: nat | h <= y < h + n ensures y / BOTTOM_SZ in bis { assert In(B, h, y); assert Get(bis, y) != Nil; }
      RemoveCounts(h, n);
      bis := Set(bis, h, Head(Blk(n, n * HBLKSIZE, true)));
      SameProper(B, B', h);
      AgreesWith(b0, bis, B, B', h);
      B := B';
    }

    /** Coalescing: the free block b is joined to the free block a before it, and
        its header removed. */
    method Join(a: nat, b: nat)
      requires Valid() && a in B && b in B && B[a].free && B[b].free && b == a + B[a].n
      modifies this`bis, this`B
      ensures Valid()
      ensures B == (old(B) - {b})[a := Blk(old(B)[a].n + old(B)[b].n, (old(B)[a].n + old(B)[b].n) * HBLKSIZE, true)]
    {
      HeadIff(bis, B, a);
      HeadIff(bis, B, b);
      var n := Get(bis, a).b.n + Get(bis, b).b.n;
      ghost var b0, B' := bis, (B - {b})[a := Blk(n, n * HBLKSIZE, true)];
      bis := Set(bis, b, Nil);
      bis := Set(bis, a, Head(Blk(n, n * HBLKSIZE, true)));
      JoinProper(B, B', a, b);
      forall x: nat | a < x < a + n && x != b ensures Get(b0, x) == Nil {
        if x < b { assert In(B, a, x); } else { assert In(B, b, x); }
      }
      AgreesWith(b0, bis, B, B', a);
      B := B';
    }

    // -------------------------------------------------------------- traversal

    /** A callback such as GC_reclaim_block: it may free the block it is given and
        coalesce it with either neighbour. */
    method Visit(h: nat)
      requires Valid() && Allocated(B, h)
      modifies this`bis, this`B
      ensures Valid()
      ensures forall y: nat {:trigger Allocated(B, y)} :: y != h ==> (Allocated(B, y) <==> Allocated(old(B), y))
    {
      var free: bool, next: bool, prev: bool := *, *, *;
      if !free { return; }
      Release(h);
      ghost var B1 := B;
      if next { JoinNext(h); }
      if prev { JoinPrev(h); }
      forall y: nat | y != h
        ensures Allocated(B, y) <==> Allocated(old(B), y)
      {
        assert Allocated(B, y) <==> Allocated(B1, y);
      }
    }

    /** Coalesce the free block h with the block after it, if that is free. */
    method JoinNext(h: nat)
      requires Valid() && h in B && B[h].free
      modifies this`bis, this`B
      ensures Valid() && h in B && B[h].free && SameAllocated(old(B), B)
    {
      HeadIff(bis, B, h);
      var e := h + Get(bis, h).b.n;
      HeadIff(bis, B, e);
      if Get(bis, e).Head? && Get(bis, e).b.free { Join(h, e); }
    }

    /** Coalesce the free block h with the block before it, if that is free. */
    method JoinPrev(h: nat)
      requires Valid() && h in B && B[h].free
      modifies this`bis, this`B
      ensures Valid() && SameAllocated(old(B), B)
    {
      var p := FreeBlockEndingAt(h);
      if p != 0 { Join(p, h); }
    }

    /** GC_apply_to_all_blocks: every block that is allocated to begin with is
        visited exactly once, whatever the callback frees and coalesces. */
    method ApplyToAll(ghost all: set<nat>) returns (ghost visited: seq<nat>)
      requires Valid() && forall y: nat {:trigger Allocated(B, y)} {:trigger y in all} :: y in all <==> Allocated(B, y)
      modifies this`bis, this`B
      ensures Valid()
      ensures forall y: nat :: y in visited <==> y in all
      ensures forall i, j :: 0 <= i < j < |visited| ==> visited[i] != visited[j]
    {
      visited := [];
      forall y: nat | y in all ensures exists m :: 0 <= m < |keys| && y / BOTTOM_SZ == keys[m] {
        assert Allocated(B, y);
        HeadIff(bis, B, y);
        assert y / BOTTOM_SZ in keys;
      }
      var i := 0;
      while i < |keys|
        invariant Valid() && i <= |keys| && Sweeping(visited, all, B)
        invariant forall y: nat {:trigger y in visited} ::
                y in visited ==> forall m :: i <= m < |keys| ==> y / BOTTOM_SZ < keys[m]
        invariant forall y: nat {:trigger y in all} ::
                y in all ==> y in visited || exists m :: i <= m < |keys| && y / BOTTOM_SZ == keys[m]
      {
        visited := ApplyInside(i, visited, all);
        i := i + 1;
      }
    }

    /** One bottom index, from the highest address down. */
    method ApplyInside(i: nat, ghost v0: seq<nat>, ghost all: set<nat>) returns (ghost visited: seq<nat>)
      requires Valid() && i < |keys| && Sweeping(v0, all, B)
      requires forall y: nat {:trigger y in v0} :: y in v0 ==> y / BOTTOM_SZ < keys[i]
      modifies this`bis, this`B
      ensures Valid() && Sweeping(visited, all, B)
      ensures forall y: nat {:trigger y in visited} ::
              y in visited <==> y in v0 || (y in all && y / BOTTOM_SZ == keys[i])
    {
      visited := v0;
      var j: int, k := BOTTOM_SZ - 1, keys[i];
      assert k in keys;
      while j >= 0
        invariant Valid() && j < BOTTOM_SZ && Sweeping(visited, all, B)
        invariant forall y: nat {:trigger y in visited} ::
                y in visited <==> y in v0 || (y in all && y / BOTTOM_SZ == k && y % BOTTOM_SZ > j)
      {
        var p := k * BOTTOM_SZ + j;
        assert p / BOTTOM_SZ == k && p % BOTTOM_SZ == j;
        Address(k, j);
        HeadIff(bis, B, p);
        match bis[k][j]
        case Head(b) =>
          if !b.free {
            assert Allocated(B, p) && p !in visited;
            Visit(p);
            visited := visited + [p];
          }
          Only(p, k, j);
          j := j - 1;
        case Nil =>
          Only(p, k, j);
          j := j - 1;
        case Jump(c) =>
          ghost var h := JumpInside(bis, B, p);
          forall y: nat | y / BOTTOM_SZ == k && j - c < y % BOTTOM_SZ <= j ensures y !in all || y in visited {
            assert h < y <= p;
            assert !Allocated(B, y);
          }
          j := j - c;
      }
    }

    lemma Only(p: nat, k: nat, j: nat)
      requires p == k * BOTTOM_SZ + j && j < BOTTOM_SZ
      ensures forall y: nat {:trigger y / BOTTOM_SZ} :: y / BOTTOM_SZ == k && y % BOTTOM_SZ == j <==> y == p
    {
    }

    // -------------------------------------------------------------- objects

    /** GC_base: the start of the object that byte address p lies in, or 0. */
    method Base(p: nat) returns (r: nat)
      requires Valid() && SizesOK(B)
      ensures r != 0 ==> IsObject(B, r, p)
      ensures r == 0 ==> forall q: nat :: !IsObject(B, q, p)
    {
      var h := p / HBLKSIZE;
      var e := Get(bis, h);
      if e.Nil? {
        NoObject(bis, B, p);
        return 0;
      }
      ghost var g: nat :| In(B, g, h);
      var start := p;
      if e.Jump? {
        h := Chase(h, g);
        start := h * HBLKSIZE;
      }
      HeadIff(bis, B, h);
      var b := Get(bis, h).b;
      OnlyIn(B, h, p);
      if b.free { return 0; }
      r := Slot(p, h, start, b.sz);
    }

    /** The last part of it, for an allocated block. */
    method Slot(p: nat, h: nat, start: nat, sz: nat) returns (r: nat)
      requires Proper(B) && SizesOK(B) && In(B, h, p / HBLKSIZE) && Allocated(B, h) && 0 < h && sz == B[h].sz
      requires start == if p / HBLKSIZE == h then p else h * HBLKSIZE
      ensures r != 0 ==> IsObject(B, r, p)
      ensures r == 0 ==> forall q: nat :: !IsObject(B, q, p)
    {
      var aligned := start - start % WORD_BYTES;
      var offset := aligned % HBLKSIZE;
      Offsets(h, start);
      r := aligned - Mod(offset, sz);
      var limit := r + sz;
      BaseIs(B, h, p, start % HBLKSIZE, offset, r);
      if (limit > (h + 1) * HBLKSIZE && sz <= HBLKSIZE) || p >= limit { r := 0; }
    }
  }

  lemma Offsets(h: nat, start: nat)
    requires start / HBLKSIZE == h
    ensures var aligned := start - start % WORD_BYTES;
            var a, off := aligned % HBLKSIZE, start % HBLKSIZE;
            start == h * HBLKSIZE + off && aligned == h * HBLKSIZE + a && a <= off < a + 8 && Words(a)
  {
  }

  function Mod(a: nat, sz: nat): (m: nat)
    requires 0 < sz
    ensures m <= a && m < sz
  {
    a % sz
  }

  predicate Granules(sz: nat) { sz % 16 == 0 }

  predicate Words(a: nat) { a % 8 == 0 }

  /** Sizes are whole granules, and a block takes up as many blocks as it needs. */
  ghost predicate SizesOK(B: Blocks) {
    forall h {:trigger h in B} :: h in B && !B[h].free ==>
      0 < B[h].sz && Granules(B[h].sz) && B[h].n == (B[h].sz + HBLKSIZE - 1) / HBLKSIZE
  }

  /** The k-th object of block h starts at byte q: one of those that fit in a
      single block, or the only one of a large block. */
  ghost predicate Starts(B: Blocks, h: nat, k: nat, q: nat) {
    && Allocated(B, h) && q == h * HBLKSIZE + B[h].sz * k
    && if B[h].sz <= HBLKSIZE then q + B[h].sz <= (h + 1) * HBLKSIZE else k == 0
  }

  ghost predicate Holds(B: Blocks, h: nat, k: nat, q: nat, p: nat) { Starts(B, h, k, q) && q <= p < q + B[h].sz }

  /** The byte p lies in the allocated object at q. */
  ghost predicate IsObject(B: Blocks, q: nat, p: nat) {
    exists h, k :: Holds(B, h, k, q, p)
  }

  /** An object lies in the blocks of its header. */
  lemma ObjectIn(B: Blocks, h: nat, k: nat, q: nat, p: nat)
    requires SizesOK(B) && Holds(B, h, k, q, p)
    ensures In(B, h, p / HBLKSIZE)
  {
    var n := (B[h].sz + HBLKSIZE - 1) / HBLKSIZE;
    assert B[h].sz <= n * HBLKSIZE;
    assert h * HBLKSIZE <= p < (h + n) * HBLKSIZE;
  }

  /** Only the block h could hold an object with byte p. */
  lemma OnlyIn(B: Blocks, h: nat, p: nat)
    requires Proper(B) && SizesOK(B) && In(B, h, p / HBLKSIZE)
    ensures forall g: nat, k: nat, q: nat {:trigger Holds(B, g, k, q, p)} :: Holds(B, g, k, q, p) ==> g == h
  {
    forall g: nat, k: nat, q: nat | Holds(B, g, k, q, p) ensures g == h { ObjectIn(B, g, k, q, p); }
  }

  lemma NoObject(bis: Bottoms, B: Blocks, p: nat)
    requires Full(bis) && Agrees(bis, B) && SizesOK(B) && Get(bis, p / HBLKSIZE) == Nil
    ensures forall q: nat :: !IsObject(B, q, p)
  {
    forall h: nat, k: nat, q: nat | Holds(B, h, k, q, p) ensures Allocated(B, h) && In(B, h, p / HBLKSIZE) {
      ObjectIn(B, h, k, q, p);
    }
  }

  /** What GC_base computes from the offset in block h: where the slot starts that
      byte p is in, if it is the right one. */
  lemma BaseIs(B: Blocks, h: nat, p: nat, off: nat, a: nat, r: nat)
    requires Proper(B) && SizesOK(B) && In(B, h, p / HBLKSIZE) && Allocated(B, h)
    requires off < HBLKSIZE && (if p / HBLKSIZE == h then p == h * HBLKSIZE + off else off == 0)
    requires a <= off < a + 8 && Words(a) && 0 < B[h].sz && r == h * HBLKSIZE + a - Mod(a, B[h].sz)
    ensures var sz := B[h].sz;
            if (r + sz > (h + 1) * HBLKSIZE && sz <= HBLKSIZE) || p >= r + sz
            then forall q: nat :: !IsObject(B, q, p)
            else IsObject(B, r, p)
  {
    var sz := B[h].sz;
    var k := SlotOf(a, sz, off - a, Mod(a, sz));
    OnlyIn(B, h, p);
    forall j: nat, q: nat | Holds(B, h, j, q, p) ensures j == k && q == r {
      if sz <= HBLKSIZE {
        assert p / HBLKSIZE == h;
        Unique(sz, k, off - sz * k, j, off - sz * j);
      } else {
        LargeSlot(sz, k, a);
      }
    }
    if !((r + sz > (h + 1) * HBLKSIZE && sz <= HBLKSIZE) || p >= r + sz) {
      if sz > HBLKSIZE { LargeSlot(sz, k, a); }
      assert Holds(B, h, k, r, p);
    }
  }

  lemma LargeSlot(sz: nat, k: nat, a: nat)
    requires HBLKSIZE < sz && sz * k <= a < HBLKSIZE
    ensures k == 0
  {
    if k > 0 { AtLeast(sz, k); }
  }

  lemma {:induction false} AtLeast(sz: nat, d: nat)
    requires d >= 1
    ensures sz * d >= sz
  {
    if d > 1 {
      AtLeast(sz, d - 1);
      assert sz * d == sz * (d - 1) + sz;
    }
  }

  /** A number has one quotient and remainder. */
  lemma Unique(sz: nat, q: nat, r: nat, k: nat, m: nat)
    requires r < sz && m < sz && sz * q + r == sz * k + m
    ensures q == k && r == m
  {
    if q > k { AtLeast(sz, q - k); }
    if q < k { AtLeast(sz, k - q); }
  }

  lemma {:induction false} MultipleOf8(sz: nat, k: nat)
    requires sz % 8 == 0
    ensures (sz * k) % 8 == 0
  {
    if k > 0 {
      MultipleOf8(sz, k - 1);
      assert sz * k == sz * (k - 1) + sz;
      Sum8(sz * (k - 1), sz);
    }
  }

  lemma Sum8(a: nat, b: nat)
    requires a % 8 == 0 && b % 8 == 0
    ensures (a + b) % 8 == 0
  {
  }

  lemma WordsLeft(sz: nat, m: nat, w: nat)
    requires sz % 8 == 0 && m % 8 == 0 && m < sz && w < 8
    ensures m + w < sz
  {
  }

  lemma WordsAfter(a: nat, p: nat, m: nat)
    requires a == p + m && p % 8 == 0 && a % 8 == 0
    ensures m % 8 == 0
  {
  }

  lemma WordInside(a: nat, sz: nat, k: nat, m: nat, w: nat)
    requires 0 < sz && Granules(sz) && m < sz && w < 8 && a == sz * k + m && Words(a)
    ensures m + w < sz
  {
    MultipleOf8(sz, k);
    WordsAfter(a, sz * k, m);
    WordsLeft(sz, m, w);
  }

  lemma Quotient(a: nat, sz: nat) returns (k: nat, m: nat)
    requires 0 < sz
    ensures a == sz * k + m && m < sz && m == a % sz
  {
    k, m := a / sz, a % sz;
  }

  lemma SlotOf(a: nat, sz: nat, w: nat, m: nat) returns (k: nat)
    requires 0 < sz && m == Mod(a, sz) && Granules(sz) && Words(a) && w < 8
    ensures a - m == sz * k && sz * k <= a + w < sz * k + sz
  {
    var m';
    k, m' := Quotient(a, sz);
    WordInside(a, sz, k, m', w);
  }

  ghost predicate Allocated(B: Blocks, y: nat) { y in B && !B[y].free }

  ghost predicate SameAllocated(B: Blocks, B': Blocks) {
    forall y: nat {:trigger Allocated(B', y)} {:trigger Allocated(B, y)} :: Allocated(B', y) <==> Allocated(B, y)
  }

  /** The free block h cut at m. */
  ghost function Cut(B: Blocks, h: nat, m: nat): Blocks
    requires h in B && h <= m <= h + B[h].n
  {
    B[h := Blk(m - h, (m - h) * HBLKSIZE, true)][m := Blk(h + B[h].n - m, (h + B[h].n - m) * HBLKSIZE, true)]
  }

  /** The free block h gives up its last blocks: its header alone changes. */
  lemma ShrinkAgrees(bis: Bottoms, bis': Bottoms, B: Blocks, B': Blocks, h: nat)
    requires Full(bis) && Full(bis') && Agrees(bis, B) && h in B && B[h].free
    requires h in B' && B' == B[h := B'[h]] && B'[h].free && 0 < B'[h].n <= B[h].n
    requires forall y: nat {:trigger Get(bis', y)} :: Get(bis', y) == if y == h then Head(B'[h]) else Get(bis, y)
    ensures Agrees(bis', B')
  {
    forall g, x | In(B', g, x) ensures In(B, g, x) && Get(bis', x) == Wanted(B', g, x) {
      assert In(B, g, x);
      assert In(B, h, h);
    }
    forall x: nat | Get(bis', x) != Nil ensures exists g :: In(B', g, x) {
      if x == h {
        assert In(B', h, x);
      } else {
        assert Get(bis, x) != Nil;
        var g :| In(B, g, x);
        assert In(B', g, x);
      }
    }
    forall g, k, x | In(B', g, x) && In(B', k, x) ensures g == k { assert In(B, g, x) && In(B, k, x); }
  }

  lemma ShrinkApart(B: Blocks, B': Blocks, h: nat)
    requires Proper(B) && h in B && h in B' && B' == B[h := B'[h]] && 0 < B'[h].n < B[h].n
    ensures Apart(B', h + B'[h].n, h + B[h].n)
  {
    forall g | g in B' ensures g + B'[g].n <= h + B'[h].n || h + B[h].n <= g {
      if g != h {
        assert In(B, g, g) && In(B, h, h);
        assert h < g < h + B[h].n ==> In(B, h, g);
        assert In(B, g, h) ==> g == h;
      }
    }
  }

  /** No block has been visited twice, only blocks of all have, and those not
      visited yet are still allocated and the only ones. */
  ghost predicate Sweeping(visited: seq<nat>, all: set<nat>, B: Blocks) {
    && (forall i, j :: 0 <= i < j < |visited| ==> visited[i] != visited[j])
    && (forall y: nat {:trigger y in visited} :: y in visited ==> y in all)
    && (forall y: nat {:trigger Allocated(B, y)} {:trigger y in all} ::
            y !in visited ==> (y in all <==> Allocated(B, y)))
    && (forall y: nat {:trigger Allocated(B, y)} :: Allocated(B, y) ==> y in all)
  }

  lemma ApartEmpty(bis: Bottoms, B: Blocks, lo: nat, hi: nat)
    requires Full(bis) && Agrees(bis, B) && Apart(B, lo, hi)
    ensures forall x: nat {:trigger Get(bis, x)} :: lo <= x < hi ==> Get(bis, x) == Nil
    ensures forall h, x {:trigger In(B, h, x)} :: lo <= x < hi ==> !In(B, h, x)
  {
  }

  lemma AddProper(B: Blocks, B': Blocks, h: nat)
    requires Proper(B) && h in B' && 0 < h && 0 < B'[h].n && B' == B[h := B'[h]] && Apart(B, h, h + B'[h].n)
    ensures Proper(B')
    ensures forall g, x {:trigger In(B', g, x)} ::
            In(B', g, x) <==> if h <= x < h + B'[h].n then g == h else In(B, g, x)
  {
    assert h !in B;
    forall g: nat, x: int ensures In(B', g, x) <==> if h <= x < h + B'[h].n then g == h else In(B, g, x) {
      assert g in B ==> g + B[g].n <= h || h + B'[h].n <= g;
    }
  }

  lemma SameProper(B: Blocks, B': Blocks, h: nat)
    requires Proper(B) && h in B && h in B' && B' == B[h := B'[h]] && B'[h].n == B[h].n
    ensures Proper(B')
    ensures forall g, x {:trigger In(B', g, x)} :: In(B', g, x) <==> In(B, g, x)
  {
    forall g: nat, x: int ensures In(B', g, x) <==> In(B, g, x) {}
  }

  lemma JoinProper(B: Blocks, B': Blocks, a: nat, b: nat)
    requires Proper(B) && a in B && b in B && b == a + B[a].n && a != b
    requires a in B' && B' == (B - {b})[a := B'[a]] && B'[a].n == B[a].n + B[b].n
    ensures Proper(B')
    ensures forall g, x {:trigger In(B', g, x)} ::
            In(B', g, x) <==> if g == a then In(B, a, x) || In(B, b, x) else g != b && In(B, g, x)
  {
    forall g: nat, x: int
      ensures In(B', g, x) <==> if g == a then In(B, a, x) || In(B, b, x) else g != b && In(B, g, x) {}
  }

  /** There are bottom indices for h and all that lie BOTTOM_SZ apart from it, up to p. */
  ghost predicate Covered(h: nat, p: nat, ks: set<nat>) {
    && p % BOTTOM_SZ == h % BOTTOM_SZ
    && forall k {:trigger k in ks} :: h / BOTTOM_SZ <= k && k * BOTTOM_SZ + h % BOTTOM_SZ < p ==> k in ks
  }

  lemma CoveredNext(h: nat, p: nat, ks: set<nat>, ks': set<nat>)
    requires Covered(h, p, ks) && h <= p && ks <= ks' && p / BOTTOM_SZ in ks'
    ensures Covered(h, p + BOTTOM_SZ, ks')
  {
    forall k: nat | h / BOTTOM_SZ <= k && k * BOTTOM_SZ + h % BOTTOM_SZ < p + BOTTOM_SZ ensures k in ks' {
      if k * BOTTOM_SZ + h % BOTTOM_SZ < p { assert k in ks; } else { assert k == p / BOTTOM_SZ; }
    }
  }

  lemma Reached(h: nat, n: nat, p: nat, y: nat, ks: set<nat>)
    requires Covered(h, p, ks) && h <= y < h + n <= p && y / BOTTOM_SZ != (h + n - 1) / BOTTOM_SZ
    ensures y / BOTTOM_SZ in ks
  {
    Earlier(h, n, p, y);
  }

  lemma Earlier(h: nat, n: nat, p: nat, y: nat)
    requires h <= y < h + n <= p && y / BOTTOM_SZ != (h + n - 1) / BOTTOM_SZ && p % BOTTOM_SZ == h % BOTTOM_SZ
    ensures h / BOTTOM_SZ <= y / BOTTOM_SZ && y / BOTTOM_SZ * BOTTOM_SZ + h % BOTTOM_SZ < p
  {
  }
}
