/** Typed mark descriptors: how GC_make_descriptor compiles a pointer bitmap, and
    which words the marker examines for the result. */
module Descriptors {
  // A 64-bit configuration with word-aligned pointers.
  const WORDSZ: nat := 64
  const WORD_BYTES: nat := 8
  const BITMAP_BITS: nat := 62
  const SPLIT_RANGE_WORDS: nat := 128
  const ED_INITIAL_SIZE: nat := 100
  const MAX_ENV: nat := 0xFF_FFFF_FFFF_FFFF
  const MAX_MARK_PROCS: nat := 64
  const TAGS: nat := 4
  const DS_PROC: nat := 2

  // ---------------------------------------------------------------- words as bits

  /** A machine word, least significant bit first. */
  type Bits = seq<bool>

  ghost predicate IsWord(w: Bits) { |w| == WORDSZ }

  function Zeros(n: nat): (w: Bits)
    ensures |w| == n && forall i :: 0 <= i < n ==> !w[i]
  {
    seq(n, i => false)
  }

  function Shr(w: Bits, n: nat): (r: Bits)
    requires n <= |w|
    ensures |r| == |w| && forall i :: 0 <= i < |w| ==> r[i] == (i + n < |w| && w[i + n])
  {
    w[n..] + Zeros(n)
  }

  function Shl(w: Bits, n: nat): (r: Bits)
    requires n <= |w|
    ensures |r| == |w| && forall i :: 0 <= i < |w| ==> r[i] == (i >= n && w[i - n])
  {
    Zeros(n) + w[..|w| - n]
  }

  predicate IsZero(w: Bits) { forall i :: 0 <= i < |w| ==> !w[i] }

  /** descr & ~GC_DS_TAGS. */
  function ClearTags(w: Bits): (r: Bits)
    requires |w| == WORDSZ
    ensures |r| == WORDSZ && !r[0] && !r[1] && forall i :: 2 <= i < WORDSZ ==> r[i] == w[i]
  {
    w[0 := false][1 := false]
  }

  // ---------------------------------------------------------------- descriptors

  /** A simple descriptor by its tag.  Bit 63 of a bitmap stands for the first
      word of the object, and its two lowest bits are the tag. */
  datatype Descr =
    | Length(bytes: nat)
    | Bitmap(w: Bits)
    | Proc(index: nat, env: nat)

  datatype Ext = Ext(bitmap: Bits, continued: bool)

  /** The words described by the extended descriptor at env, for an object whose
      word 0 is word off of the whole. */
  ghost function Chain(ext: seq<Ext>, env: nat, off: nat): set<nat>
    decreases |ext| - env
  {
    if env >= |ext| then {}
    else
      (set i | 0 <= i < |ext[env].bitmap| && ext[env].bitmap[i] :: off + i)
      + if ext[env].continued then Chain(ext, env + 1, off + WORDSZ) else {}
  }

  /** Does bitmap w say that word j is a pointer? */
  ghost predicate BitFor(w: Bits, j: int) {
    |w| == WORDSZ && 0 <= j < BITMAP_BITS && w[WORDSZ - 1 - j]
  }

  ghost function BitmapWords(w: Bits): set<nat> {
    set j: nat | j < BITMAP_BITS && BitFor(w, j)
  }

  ghost function Upto(n: nat): (r: set<nat>)
    ensures forall j: nat :: j in r <==> j < n
  {
    if n == 0 then {} else Upto(n - 1) + {n - 1}
  }

  /** The words of an object that a descriptor describes. */
  ghost function Described(ext: seq<Ext>, d: Descr): set<nat> {
    match d
    case Length(bytes) => Upto(bytes / WORD_BYTES)
    case Bitmap(w) => BitmapWords(w)
    case Proc(_, env) => Chain(ext, env, 0)
  }

  ghost predicate TableOK(ext: seq<Ext>) {
    forall k :: 0 <= k < |ext| ==> IsWord(ext[k].bitmap) && (ext[k].continued ==> k + 1 < |ext|)
  }

  lemma {:induction false} ChainStays(ext: seq<Ext>, more: seq<Ext>, env: nat, off: nat)
    requires TableOK(ext) && env < |ext|
    ensures Chain(ext + more, env, off) == Chain(ext, env, off)
    decreases |ext| - env
  {
    assert (ext + more)[env] == ext[env];
    if ext[env].continued { ChainStays(ext, more, env + 1, off + WORDSZ); }
  }

  lemma {:induction false} ChainAbove(ext: seq<Ext>, env: nat, off: nat)
    ensures forall j :: j in Chain(ext, env, off) ==> j >= off
    decreases |ext| - env
  {
    if env < |ext| && ext[env].continued { ChainAbove(ext, env + 1, off + WORDSZ); }
  }

  // ---------------------------------------------------------------- the encoding

  /** GC_MAKE_PROC, and what PROC and ENV take out of it. */
  function MakeProc(index: nat, env: nat): nat { (env * MAX_MARK_PROCS + index) * TAGS + DS_PROC }

  function ProcIndex(descr: nat): nat { descr / TAGS % MAX_MARK_PROCS }

  function Env(descr: nat): nat { descr / (TAGS * MAX_MARK_PROCS) }

  /** A procedure descriptor fits in a word and gives back what it was made of. */
  lemma ProcRoundTrip(index: nat, env: nat)
    requires index < MAX_MARK_PROCS && env <= MAX_ENV
    ensures MakeProc(index, env) < 0x1_0000_0000_0000_0000
    ensures MakeProc(index, env) % TAGS == DS_PROC
    ensures ProcIndex(MakeProc(index, env)) == index && Env(MakeProc(index, env)) == env
  {
    var d := MakeProc(index, env);
    assert d / TAGS == env * MAX_MARK_PROCS + index;
    assert d == env * 256 + (index * 4 + 2);
  }

  // ---------------------------------------------------------------- the bitmap given

  /** GC_get_bit. */
  predicate GetBit(bm: seq<Bits>, i: nat)
    requires i / WORDSZ < |bm| && |bm[i / WORDSZ]| == WORDSZ
  {
    bm[i / WORDSZ][i % WORDSZ]
  }

  /** bm is an array of words with at least len bits; those beyond are arbitrary. */
  ghost predicate IsBitmap(bm: seq<Bits>, len: nat) {
    && (forall k :: 0 <= k < |bm| ==> IsWord(bm[k]))
    && len <= |bm| * WORDSZ
  }

  /** The words that the bits from..to of a bitmap say are pointers. */
  ghost function Wanted(bm: seq<Bits>, from: nat, to: nat): set<nat> {
    set i: nat | from <= i < to && i / WORDSZ < |bm| && |bm[i / WORDSZ]| == WORDSZ && GetBit(bm, i)
  }

  /** Entry k of the table entries for the first nbits of a bitmap. */
  function ExtEntry(bm: seq<Bits>, nbits: nat, k: nat): (e: Ext)
    requires k < |bm| && |bm[k]| == WORDSZ && k * WORDSZ < nbits
    ensures |e.bitmap| == WORDSZ
  {
    var nwords := (nbits + WORDSZ - 1) / WORDSZ;
    if k + 1 < nwords then Ext(bm[k], true)
    else
      var extra := nwords * WORDSZ - nbits;
      Ext(Shr(Shl(bm[k], extra), extra), false)
  }

  /** The bits of one entry, with those beyond nbits cleared. */
  lemma ExtEntryBits(bm: seq<Bits>, nbits: nat, k: nat)
    requires IsBitmap(bm, nbits) && k < (nbits + WORDSZ - 1) / WORDSZ
    ensures k < |bm| && k * WORDSZ < nbits
    ensures var to := if (k + 1) * WORDSZ < nbits then (k + 1) * WORDSZ else nbits;
            (set i | 0 <= i < WORDSZ && ExtEntry(bm, nbits, k).bitmap[i] ::
                    k * WORDSZ + i) == Wanted(bm, k * WORDSZ, to)
  {
    var e := ExtEntry(bm, nbits, k);
    var to := if (k + 1) * WORDSZ < nbits then (k + 1) * WORDSZ else nbits;
    var got := set i | 0 <= i < WORDSZ && e.bitmap[i] :: k * WORDSZ + i;
    forall j | j in got ensures j in Wanted(bm, k * WORDSZ, to) {
      var i :| 0 <= i < WORDSZ && e.bitmap[i] && j == k * WORDSZ + i;
      assert j / WORDSZ == k && j % WORDSZ == i;
    }
    forall j | j in Wanted(bm, k * WORDSZ, to) ensures j in got {
      var i := j - k * WORDSZ;
      assert j / WORDSZ == k && j % WORDSZ == i;
      assert e.bitmap[i];
    }
  }

  /** The entries of a whole bitmap, at base in the table, describe exactly its bits. */
  lemma {:induction false} ExtChain(ext: seq<Ext>, base: nat, bm: seq<Bits>, nbits: nat, k: nat)
    requires IsBitmap(bm, nbits) && k < (nbits + WORDSZ - 1) / WORDSZ
    requires base + (nbits + WORDSZ - 1) / WORDSZ <= |ext|
    requires forall m :: 0 <= m < (nbits + WORDSZ - 1) / WORDSZ ==>
               m < |bm| && m * WORDSZ < nbits && ext[base + m] == ExtEntry(bm, nbits, m)
    ensures Chain(ext, base + k, k * WORDSZ) == Wanted(bm, k * WORDSZ, nbits)
    decreases nbits - k * WORDSZ
  {
    ExtEntryBits(bm, nbits, k);
    var e := ext[base + k];
    if e.continued {
      ExtChain(ext, base, bm, nbits, k + 1);
      var next := (k + 1) * WORDSZ;
      assert Wanted(bm, k * WORDSZ, nbits) == Wanted(bm, k * WORDSZ, next) + Wanted(bm, next, nbits);
      assert Chain(ext, base + k + 1, k * WORDSZ + WORDSZ) == Wanted(bm, (k + 1) * WORDSZ, nbits);
    }
  }

  // ---------------------------------------------------------------- compiling

  class Typing {
    const procIndex: nat        // GC_typed_mark_proc_index
    var ext: seq<Ext>           // GC_ext_descriptors up to GC_avail_descr
    var edSize: nat             // GC_ed_size

    ghost predicate Valid()
      reads this
    {
      TableOK(ext) && |ext| <= edSize <= MAX_ENV && procIndex < MAX_MARK_PROCS
    }

    /** Every descriptor made so far still means what it meant. */
    ghost predicate Extends(ext0: seq<Ext>)
      reads this
    {
      |ext0| <= |ext| && ext[..|ext0|] == ext0
    }

    /** GC_add_ext_descriptor: store the first nbits of a bitmap in the table, or
        fail for want of memory. */
    method AddExt(bm: seq<Bits>, nbits: nat) returns (ok: bool, env: nat)
      requires Valid() && IsBitmap(bm, nbits) && nbits > 0
      modifies this
      ensures Valid() && Extends(old(ext))
      ensures ok ==> env < |ext| && env < MAX_ENV && Chain(ext, env, 0) == Wanted(bm, 0, nbits)
      ensures !ok ==> ext == old(ext)
    {
      var nwords := (nbits + WORDSZ - 1) / WORDSZ;
      env := 0;
      while |ext| + nwords >= edSize
        invariant Valid() && ext == old(ext)
        decreases |ext| + nwords - edSize
      {
        var memory: bool := *;
        var newSize := if edSize == 0 then ED_INITIAL_SIZE else 2 * edSize;
        if edSize != 0 && newSize > MAX_ENV { return false, 0; }
        if !memory { return false, 0; }
        edSize := newSize;
      }
      env := |ext|;
      Store(bm, nbits, nwords);
      ExtChain(ext, env, bm, nbits, 0);
      ok := true;
    }

    /** Append one table entry per word of the bitmap. */
    method Store(bm: seq<Bits>, nbits: nat, nwords: nat)
      requires TableOK(ext) && IsBitmap(bm, nbits) && nwords == (nbits + WORDSZ - 1) / WORDSZ
      modifies this`ext
      ensures TableOK(ext) && |ext| == |old(ext)| + nwords && Extends(old(ext))
      ensures forall m ::
              0 <= m < nwords ==> m < |bm| && m * WORDSZ < nbits && ext[|old(ext)| + m] == ExtEntry(bm, nbits, m)
    {
      var i, base := 0, |ext|;
      while i < nwords
        invariant i <= nwords && |ext| == base + i && ext[..base] == old(ext)
        invariant forall m :: 0 <= m < i ==> m < |bm| && m * WORDSZ < nbits && ext[base + m] == ExtEntry(bm, nbits, m)
      {
        ext := ext + [ExtEntry(bm, nbits, i)];
        i := i + 1;
      }
      forall k | 0 <= k < |ext| ensures IsWord(ext[k].bitmap) && (ext[k].continued ==> k + 1 < |ext|) {
        if k < base {
          assert ext[k] == old(ext)[k];
        } else {
          assert ext[base + (k - base)] == ExtEntry(bm, nbits, k - base);
        }
      }
    }

    /** GC_make_descriptor: the words described are exactly those whose bit is set,
        or for want of memory a superset within the object. */
    method MakeDescriptor(bm: seq<Bits>, len: nat) returns (d: Descr, exact: bool)
      requires Valid() && IsBitmap(bm, len)
      modifies this
      ensures Valid() && Extends(old(ext))
      ensures exact ==> Described(ext, d) == Wanted(bm, 0, len)
      ensures Wanted(bm, 0, len) <= Described(ext, d) <= Upto(len)
      ensures !exact ==> d.Length? && d.bytes > BITMAP_BITS * WORD_BYTES
      ensures d.Length? ==> d.bytes % WORD_BYTES == 0
      ensures d.Bitmap? ==> IsWord(d.w)
      ensures d.Proc? ==> d.index == procIndex && d.env < |ext| && d.env <= MAX_ENV
    {
      exact := true;
      var last := LastSet(bm, len);
      if last < 0 {
        return Length(0), true;
      }
      var all := AllSet(bm, len, last);
      if all {
        return Length((last + 1) * WORD_BYTES), true;
      }
      if last < BITMAP_BITS {
        var w := ReversedBitmap(bm, last + 1);
        return Bitmap(w), true;
      }
      var ok, env := AddExt(bm, last + 1);
      if !ok {
        return Length((last + 1) * WORD_BYTES), false;
      }
      d := Proc(procIndex, env);
    }

    /** Compiling a bitmap and marking with the result examines exactly the words
        whose bits are set, each once. */
    method RoundTrip(bm: seq<Bits>, len: nat, plausible: nat -> bool) returns (seen: seq<nat>, exact: bool)
      requires Valid() && IsBitmap(bm, len)
      modifies this
      ensures Valid() && Once(seen) && (exact ==> Seen(seen) == Wanted(bm, 0, len))
      ensures Wanted(bm, 0, len) <= Seen(seen) <= Upto(len)
    {
      var d: Descr;
      d, exact := MakeDescriptor(bm, len);
      seen := Mark(ext, d, plausible);
    }
  }

  /** The last set bit among the first len, or -1. */
  method LastSet(bm: seq<Bits>, len: nat) returns (last: int)
    requires IsBitmap(bm, len)
    ensures -1 <= last < len && Wanted(bm, 0, len) == Wanted(bm, 0, last + 1)
    ensures last >= 0 ==> GetBit(bm, last)
  {
    last := len - 1;
    while last >= 0 && !GetBit(bm, last)
      invariant -1 <= last < len && Wanted(bm, 0, len) == Wanted(bm, 0, last + 1)
    {
      assert Wanted(bm, 0, last + 1) == Wanted(bm, 0, last);
      last := last - 1;
    }
  }

  /** Are all bits below last set? */
  method AllSet(bm: seq<Bits>, len: nat, last: nat) returns (all: bool)
    requires IsBitmap(bm, len) && last < len && GetBit(bm, last)
    ensures all <==> Wanted(bm, 0, last + 1) == Upto(last + 1)
  {
    var i := 0;
    while i < last
      invariant i <= last && forall j :: 0 <= j < i ==> GetBit(bm, j)
    {
      if !GetBit(bm, i) {
        assert i !in Wanted(bm, 0, last + 1) && i in Upto(last + 1);
        return false;
      }
      i := i + 1;
    }
    assert forall j :: 0 <= j < last + 1 ==> GetBit(bm, j);
    return true;
  }

  /** Build a bitmap descriptor for the first n bits, in reverse order. */
  method ReversedBitmap(bm: seq<Bits>, n: nat) returns (w: Bits)
    requires IsBitmap(bm, n) && 0 < n <= BITMAP_BITS && GetBit(bm, n - 1)
    ensures IsWord(w) && BitmapWords(w) == Wanted(bm, 0, n)
    ensures w[0] && !w[1]
  {
    w := Zeros(WORDSZ)[WORDSZ - 1 := true];
    var i := n - 2;
    while i >= 0
      invariant -1 <= i <= n - 2 && |w| == WORDSZ
      invariant forall j :: i < j < n ==> w[WORDSZ - 1 - (j - i - 1)] == GetBit(bm, j)
      invariant forall b :: 0 <= b < WORDSZ - (n - 1 - i) ==> !w[b]
    {
      w := Shr(w, 1);
      if GetBit(bm, i) { w := w[WORDSZ - 1 := true]; }
      i := i - 1;
    }
    w := w[0 := true];
    forall j: nat | j < BITMAP_BITS ensures BitFor(w, j) <==> j in Wanted(bm, 0, n) {
      if j < n { assert w[WORDSZ - 1 - (j + 1 - 1)] == GetBit(bm, j); }
    }
  }

  /** Descriptors keep their meaning when the table grows. */
  lemma DescribedStays(ext: seq<Ext>, ext': seq<Ext>, d: Descr)
    requires TableOK(ext) && |ext| <= |ext'| && ext'[..|ext|] == ext && (d.Proc? ==> d.env < |ext|)
    ensures Described(ext', d) == Described(ext, d)
  {
    if d.Proc? {
      assert ext' == ext + ext'[|ext|..];
      ChainStays(ext, ext'[|ext|..], d.env, 0);
    }
  }

  // ---------------------------------------------------------------- marking

  ghost predicate Once(seen: seq<nat>) {
    forall i, j :: 0 <= i < j < |seen| ==> seen[i] != seen[j]
  }

  ghost function Seen(seen: seq<nat>): set<nat> { set j | j in seen }

  lemma OnceJoin(a: seq<nat>, b: seq<nat>)
    requires Once(a) && Once(b) && Seen(a) !! Seen(b)
    ensures Once(a + b) && Seen(a + b) == Seen(a) + Seen(b)
  {
    forall i, j | 0 <= i < j < |a + b| ensures (a + b)[i] != (a + b)[j] {
      assert (a + b)[i] in Seen(a) || (a + b)[i] in Seen(b);
      if i < |a| <= j { assert (a + b)[i] in Seen(a) && (a + b)[j] in Seen(b); }
    }
  }

  /** The words the bits of w stand for, lowest bit first, from word addr on. */
  ghost function BitsAt(w: Bits, addr: nat): set<nat> { set i | 0 <= i < |w| && w[i] :: addr + i }

  lemma BitsAtNext(w: Bits, addr: nat, p: nat)
    requires p < |w|
    ensures BitsAt(w[..p + 1], addr) == BitsAt(w[..p], addr) + if w[p] then {addr + p} else {}
  {
    assert w[..p + 1] == w[..p] + [w[p]];
    forall j | j in BitsAt(w[..p], addr) ensures j in BitsAt(w[..p + 1], addr) {
      var i :| 0 <= i < p && w[..p][i] && j == addr + i;
      assert w[..p + 1][i];
    }
    if w[p] { assert w[..p + 1][p]; }
  }

  lemma BitsAtEnd(w: Bits, addr: nat, p: nat)
    requires p <= |w| && IsZero(Shr(w, p))
    ensures BitsAt(w, addr) == BitsAt(w[..p], addr)
  {
    forall i | p <= i < |w| ensures !w[i] { assert !Shr(w, p)[i - p]; }
    assert forall i :: 0 <= i < p ==> w[..p][i] == w[i];
  }

  lemma ShrNext(w: Bits, p: nat)
    requires p < |w|
    ensures Shr(Shr(w, p), 1) == Shr(w, p + 1) && Shr(w, p)[0] == w[p]
  {
  }

  /** Examine the words whose bits are set, shifting right until nothing is left. */
  method MarkBits(w: Bits, addr: nat) returns (seen: seq<nat>)
    ensures Once(seen) && Seen(seen) == BitsAt(w, addr)
  {
    var bm, p := w, 0;
    seen := [];
    assert Shr(w, 0) == w;
    while !IsZero(bm)
      invariant p <= |w| && bm == Shr(w, p)
      invariant Once(seen) && Seen(seen) == BitsAt(w[..p], addr) && forall j :: j in seen ==> j < addr + p
      decreases |w| - p
    {
      assert p < |w|;
      ShrNext(w, p);
      BitsAtNext(w, addr, p);
      if bm[0] {
        OnceJoin(seen, [addr + p]);
        seen := seen + [addr + p];
      }
      bm := Shr(bm, 1);
      p := p + 1;
    }
    BitsAtEnd(w, addr, p);
  }

  /** A bitmap descriptor, read from the sign bit downwards. */
  ghost function Upward(w: Bits): Bits
    requires |w| == WORDSZ
  {
    seq(BITMAP_BITS, j requires 0 <= j < BITMAP_BITS => w[WORDSZ - 1 - j])
  }

  lemma ShlNext(w: Bits, p: nat)
    requires |w| == WORDSZ && !w[0] && !w[1] && p <= WORDSZ && !IsZero(Shl(w, p))
    ensures p < BITMAP_BITS && Shl(Shl(w, p), 1) == Shl(w, p + 1) && Shl(w, p)[WORDSZ - 1] == Upward(w)[p]
  {
    var i :| 0 <= i < WORDSZ && Shl(w, p)[i];
    assert i >= p && w[i - p];
  }

  lemma UpwardEnd(w: Bits, p: nat)
    requires |w| == WORDSZ && p <= BITMAP_BITS && IsZero(Shl(w, p))
    ensures BitsAt(Upward(w), 0) == BitsAt(Upward(w)[..p], 0)
  {
    var u := Upward(w);
    forall i | p <= i < |u| ensures !u[i] { assert !Shl(w, p)[WORDSZ - 1 - i + p]; }
    assert forall i :: 0 <= i < p ==> u[..p][i] == u[i];
  }

  /** The marker on a bitmap descriptor: test the sign, shift left, next word. */
  method MarkBitmap(w: Bits) returns (seen: seq<nat>)
    requires IsWord(w)
    ensures Once(seen) && Seen(seen) == BitmapWords(w)
  {
    var descr, p := ClearTags(w), 0;
    ghost var c := descr;
    seen := [];
    assert Shl(c, 0) == c;
    while !IsZero(descr)
      invariant p <= BITMAP_BITS && descr == Shl(c, p)
      invariant Once(seen) && Seen(seen) == BitsAt(Upward(c)[..p], 0) && forall j :: j in seen ==> j < p
      decreases BITMAP_BITS - p
    {
      ShlNext(c, p);
      BitsAtNext(Upward(c), 0, p);
      if descr[WORDSZ - 1] {
        OnceJoin(seen, [p]);
        seen := seen + [p];
      }
      descr := Shl(descr, 1);
      p := p + 1;
    }
    UpwardEnd(c, p);
    UpwardWords(w);
  }

  lemma UpwardWords(w: Bits)
    requires |w| == WORDSZ
    ensures BitsAt(Upward(ClearTags(w)), 0) == BitmapWords(w)
  {
    var u := Upward(ClearTags(w));
    forall j: nat | j < BITMAP_BITS ensures u[j] == BitFor(w, j) {}
    assert forall j :: j in BitsAt(u, 0) ==> 0 <= j < BITMAP_BITS && BitFor(w, j);
    forall j: nat | j < BITMAP_BITS && BitFor(w, j) ensures j in BitsAt(u, 0) { assert u[j]; }
  }

  /** GC_typed_mark_proc: the words of one table entry, and whether the descriptor
      goes on in the next. */
  method TypedMarkProc(ext: seq<Ext>, env: nat, addr: nat) returns (seen: seq<nat>, more: bool)
    requires TableOK(ext) && env < |ext|
    ensures Once(seen) && (forall j :: j in seen ==> addr <= j < addr + WORDSZ)
    ensures Chain(ext, env, addr) == Seen(seen) + if more then Chain(ext, env + 1, addr + WORDSZ) else {}
    ensures more ==> env + 1 < |ext|
  {
    seen := MarkBits(ext[env].bitmap, addr);
    forall j | j in seen ensures addr <= j < addr + WORDSZ { assert j in Seen(seen); }
    more := ext[env].continued;
  }

  /** The marker on a range of words: from the end until a plausible pointer is
      found, then the others from the beginning, then the one found. */
  method MarkRange(start: nat, n: nat, plausible: nat -> bool) returns (seen: seq<nat>)
    requires n > 0
    ensures Once(seen) && forall j :: j in seen <==> start <= j < start + n
  {
    var limit, deferred := start + n, false;
    seen := [];
    while limit > start && !deferred
      invariant start <= limit <= start + n && (deferred ==> limit < start + n)
      invariant Once(seen) && forall j :: j in seen <==> limit + (if deferred then 1 else 0) <= j < start + n
      decreases limit - start, !deferred
    {
      limit := limit - 1;
      if plausible(limit) {
        deferred := true;
      } else {
        OnceJoin(seen, [limit]);
        seen := seen + [limit];
      }
    }
    if !deferred { return; }
    var p := start;
    while p < limit
      invariant start <= p <= limit && Once(seen)
      invariant forall j :: j in seen <==> start <= j < p || limit < j < start + n
    {
      OnceJoin(seen, [p]);
      seen := seen + [p];
      p := p + 1;
    }
    OnceJoin(seen, [limit]);
    seen := seen + [limit];
  }

  /** A length descriptor: a long range is cut and the rest pushed back. */
  method MarkLength(bytes: nat, plausible: nat -> bool) returns (seen: seq<nat>)
    requires bytes % WORD_BYTES == 0 && bytes > 0
    ensures Once(seen) && Seen(seen) == Upto(bytes / WORD_BYTES)
  {
    var off: nat, left: nat := 0, bytes;
    seen := [];
    while left > 0
      invariant off * WORD_BYTES + left == bytes && left % WORD_BYTES == 0
      invariant Once(seen) && forall j :: j in seen <==> 0 <= j < off
    {
      var k := if left >= SPLIT_RANGE_WORDS * WORD_BYTES then SPLIT_RANGE_WORDS - 1 else left / WORD_BYTES;
      var got := MarkRange(off, k, plausible);
      OnceJoin(seen, got);
      seen, off, left := seen + got, off + k, left - k * WORD_BYTES;
    }
    assert off == bytes / WORD_BYTES;
  }

  /** An extended descriptor: the rest of a continued one is pushed back. */
  method MarkChain(ext: seq<Ext>, env0: nat) returns (seen: seq<nat>)
    requires TableOK(ext) && env0 < |ext|
    ensures Once(seen) && Seen(seen) == Chain(ext, env0, 0)
  {
    var env, off: nat, more := env0, 0, true;
    seen := [];
    while more
      invariant more ==> env < |ext|
      invariant Once(seen) && forall j :: j in seen ==> j < off
      invariant Chain(ext, env0, 0) == Seen(seen) + if more then Chain(ext, env, off) else {}
      decreases more, |ext| - env
    {
      var got: seq<nat>;
      got, more := TypedMarkProc(ext, env, off);
      OnceJoin(seen, got);
      seen, off, env := seen + got, off + WORDSZ, env + 1;
    }
  }

  /** GC_mark_from on one object: whatever the descriptor, each word described is
      examined exactly once and no other word is. */
  method Mark(ext: seq<Ext>, d: Descr, plausible: nat -> bool) returns (seen: seq<nat>)
    requires TableOK(ext)
    requires d.Length? ==> d.bytes % WORD_BYTES == 0
    requires d.Bitmap? ==> IsWord(d.w)
    requires d.Proc? ==> d.env < |ext|
    ensures Once(seen) && Seen(seen) == Described(ext, d)
  {
    match d {
      case Length(bytes) => if bytes == 0 { seen := []; } else { seen := MarkLength(bytes, plausible); }
      case Bitmap(w) => seen := MarkBitmap(w);
      case Proc(_, env) => seen := MarkChain(ext, env);
    }
  }
}
