/** Descriptors for arrays of typed elements: GC_make_array_descriptor, and what
    the marker pushes for its results. */
module ArrayDescriptors {
  import opened Descriptors

  const OPT_THRESHOLD: nat := 50

  /** A complex_descriptor.  Null is what an allocation that failed returns. */
  datatype Complex =
    | Null
    | Leaf(size: nat, nelements: nat, descr: Descr)
    | Sequence(first: Complex, second: Complex)

  datatype Result =
    | NoMem
    | Simple(descr: Descr)
    | Whole(leaf: Complex)      // LEAF: a leaf descriptor kept in the object
    | Tree(complex: Complex)    // COMPLEX

  // ---------------------------------------------------------------- doubling

  /** GC_bm_table: bitmap descriptors for i words that are all pointers. */
  function BmTable(i: nat): (w: Bits)
    requires 0 < i < WORDSZ / 2
  {
    var ones := seq(WORDSZ, _ => true);
    Shl(Shr(ones, WORDSZ - i), WORDSZ - i)[0 := true]
  }

  function Or(a: Bits, b: Bits): (r: Bits)
    requires |a| == |b|
    ensures |r| == |a| && forall i :: 0 <= i < |a| ==> r[i] == (a[i] || b[i])
  {
    seq(|a|, i requires 0 <= i < |a| => a[i] || b[i])
  }

  /** GC_double_descr: two objects of nwords words each, side by side. */
  function Double(d: Descr, nwords: nat): (r: Descr)
    requires d.Length? ==> 0 < d.bytes / WORD_BYTES < WORDSZ / 2
    requires d.Bitmap? ==> |d.w| == WORDSZ
    requires !d.Proc? && nwords <= WORDSZ
    ensures r.Bitmap? && |r.w| == WORDSZ
  {
    var w := if d.Length? then BmTable(d.bytes / WORD_BYTES) else d.w;
    Bitmap(Or(w, Shr(ClearTags(w), nwords)))
  }

  // ---------------------------------------------------------------- meaning

  /** The words a mark procedure examines, given its index and environment. */
  type ProcWords = (nat, nat) -> set<nat>

  ghost function Means(pw: ProcWords, d: Descr): set<nat> {
    match d
    case Length(bytes) => Upto(bytes / WORD_BYTES)
    case Bitmap(w) => BitmapWords(w)
    case Proc(index, env) => pw(index, env)
  }

  /** d is a proper descriptor that stays inside an element of size bytes. */
  ghost predicate FitsIn(pw: ProcWords, d: Descr, size: nat) {
    && size % WORD_BYTES == 0
    && (d.Length? ==> d.bytes % WORD_BYTES == 0)
    && (d.Bitmap? ==> |d.w| == WORDSZ && d.w[0] && !d.w[1])
    && Means(pw, d) <= Upto(size / WORD_BYTES)
  }

  ghost function Shift(s: set<nat>, k: nat): set<nat> { set j | j in s :: j + k }

  /** n copies of s at the given stride, from word off on. */
  ghost function Copies(s: set<nat>, stride: nat, n: nat, off: nat): set<nat> {
    if n == 0 then {} else Shift(s, off) + Copies(s, stride, n - 1, off + stride)
  }

  ghost function Times(n: nat, k: nat): nat { if n == 0 then 0 else k + Times(n - 1, k) }

  lemma {:induction false} TimesIs(n: nat, k: nat)
    ensures Times(n, k) == n * k
  {
    if n > 0 {
      TimesIs(n - 1, k);
      assert n * k == (n - 1) * k + k;
    }
  }

  /** Word x is word j of s in the k-th copy. */
  ghost predicate CopyAt(s: set<nat>, stride: nat, off: nat, k: nat, j: nat, x: nat) {
    j in s && x == j + off + Times(k, stride)
  }

  /** The copies are what they should be. */
  lemma {:induction false} CopiesIff(s: set<nat>, stride: nat, n: nat, off: nat, x: nat)
    ensures x in Copies(s, stride, n, off) <==> exists k: nat, j: nat :: k < n && CopyAt(s, stride, off, k, j, x)
    decreases n
  {
    if n > 0 {
      CopiesIff(s, stride, n - 1, off + stride, x);
      if x in Shift(s, off) {
        var j :| j in s && x == j + off;
        assert CopyAt(s, stride, off, 0, j, x);
      } else if x in Copies(s, stride, n, off) {
        var k: nat, j: nat :| k < n - 1 && CopyAt(s, stride, off + stride, k, j, x);
        assert CopyAt(s, stride, off, k + 1, j, x);
      }
      if k: nat, j: nat :| k < n && CopyAt(s, stride, off, k, j, x) {
        if k > 0 { assert CopyAt(s, stride, off + stride, k - 1, j, x); }
      }
    }
  }

  lemma ShiftShift(s: set<nat>, a: nat, b: nat)
    ensures Shift(Shift(s, a), b) == Shift(s, a + b)
  {
    forall j | j in s ensures j + a + b in Shift(Shift(s, a), b) { assert j + a in Shift(s, a); }
  }

  lemma ShiftUnion(s: set<nat>, t: set<nat>, k: nat)
    ensures Shift(s + t, k) == Shift(s, k) + Shift(t, k)
  {
    forall j | j in s + t ensures j + k in Shift(s, k) + Shift(t, k) {}
    forall j | j in Shift(s, k) + Shift(t, k) ensures j in Shift(s + t, k) {
      if j in Shift(s, k) {
        var i :| i in s && j == i + k;
        assert i in s + t;
      } else {
        var i :| i in t && j == i + k;
        assert i in s + t;
      }
    }
  }

  /** m copies of a pair are 2 * m copies. */
  lemma {:induction false} PairCopies(s: set<nat>, stride: nat, m: nat, off: nat)
    ensures Copies(s + Shift(s, stride), 2 * stride, m, off) == Copies(s, stride, 2 * m, off)
    decreases m
  {
    if m > 0 {
      PairCopies(s, stride, m - 1, off + 2 * stride);
      ShiftUnion(s, Shift(s, stride), off);
      ShiftShift(s, stride, off);
      var rest := Copies(s, stride, 2 * m - 2, off + stride + stride);
      assert Copies(s, stride, 2 * m - 1, off + stride) == Shift(s, off + stride) + rest;
      assert Copies(s, stride, 2 * m, off) == Shift(s, off) + Copies(s, stride, 2 * m - 1, off + stride);
    }
  }

  lemma BmTableWords(i: nat)
    requires 0 < i < WORDSZ / 2
    ensures BitmapWords(BmTable(i)) == Upto(i) && BmTable(i)[0] && !BmTable(i)[1]
  {
    var w := BmTable(i);
    assert forall b :: 0 < b < WORDSZ ==> w[b] == (b >= WORDSZ - i);
    forall j: nat | j < BITMAP_BITS ensures BitFor(w, j) <==> j < i {}
  }

  ghost predicate IsBitmapWord(w: Bits) { |w| == WORDSZ && w[0] && !w[1] }

  lemma DoubleBit(w: Bits, nwords: nat, j: nat)
    requires IsBitmapWord(w) && 2 * nwords <= BITMAP_BITS && BitmapWords(w) <= Upto(nwords) && j < BITMAP_BITS
    ensures BitFor(Double(Bitmap(w), nwords).w, j) <==> BitFor(w, j) || (j >= nwords && BitFor(w, j - nwords))
  {
  }

  /** Doubling a short bitmap describes both copies and keeps the tag. */
  lemma DoubleBitmap(w: Bits, nwords: nat)
    requires IsBitmapWord(w) && 2 * nwords <= BITMAP_BITS && BitmapWords(w) <= Upto(nwords)
    ensures var r := Double(Bitmap(w), nwords).w;
            BitmapWords(r) == BitmapWords(w) + Shift(BitmapWords(w), nwords) && IsBitmapWord(r)
  {
    var r := Double(Bitmap(w), nwords).w;
    forall j: nat | j < BITMAP_BITS ensures BitFor(r, j) <==> BitFor(w, j) || (j >= nwords && BitFor(w, j - nwords)) {
      DoubleBit(w, nwords, j);
    }
    DoubledWords(w, r, nwords);
    TagKept(w, nwords);
  }

  lemma DoubledWords(w: Bits, r: Bits, nwords: nat)
    requires |w| == |r| == WORDSZ && 2 * nwords <= BITMAP_BITS && BitmapWords(w) <= Upto(nwords)
    requires forall j: nat {:trigger BitFor(r, j)} ::
            j < BITMAP_BITS ==> (BitFor(r, j) <==> BitFor(w, j) || (j >= nwords && BitFor(w, j - nwords)))
    ensures BitmapWords(r) == BitmapWords(w) + Shift(BitmapWords(w), nwords)
  {
    var ws := BitmapWords(w);
    forall j | j in BitmapWords(r) ensures j in ws + Shift(ws, nwords) {
      if !BitFor(w, j) { assert (j - nwords) + nwords in Shift(ws, nwords) by { assert j - nwords in ws; } }
    }
    forall j | j in ws ensures j in BitmapWords(r) { assert BitFor(r, j); }
    forall i | i in ws ensures i + nwords in BitmapWords(r) {
      assert i in Upto(nwords);
      assert BitFor(r, i + nwords);
    }
  }

  /** No bit of a short bitmap is shifted into the tag. */
  lemma TagKept(w: Bits, nwords: nat)
    requires IsBitmapWord(w) && 2 * nwords <= BITMAP_BITS && BitmapWords(w) <= Upto(nwords)
    ensures IsBitmapWord(Double(Bitmap(w), nwords).w)
  {
    var j := BITMAP_BITS - nwords;
    assert j !in BitmapWords(w);
    assert BitFor(w, j) ==> j in BitmapWords(w);
    assert 0 < nwords ==> !w[1 + nwords];
  }

  lemma ShiftUpto(s: set<nat>, n: nat)
    requires s <= Upto(n)
    ensures s + Shift(s, n) <= Upto(2 * n)
  {
    forall j | j in s + Shift(s, n) ensures j in Upto(2 * n) {
      if j in s { assert j in Upto(n); } else {
        var i :| i in s && j == i + n;
        assert i in Upto(n);
      }
    }
  }

  lemma LengthInside(bytes: nat, size: nat)
    requires bytes % WORD_BYTES == 0 && size % WORD_BYTES == 0 && Upto(bytes / WORD_BYTES) <= Upto(size / WORD_BYTES)
    ensures bytes <= size
  {
    var a, b := size / WORD_BYTES, bytes / WORD_BYTES;
    assert a !in Upto(a);
    assert a !in Upto(b);
  }

  /** Doubling a descriptor describes two elements. */
  lemma DoubleMeans(pw: ProcWords, d: Descr, size: nat)
    requires FitsIn(pw, d, size) && size <= BITMAP_BITS / 2 && !d.Proc? && d != Length(0)
    ensures d.Length? ==> 0 < d.bytes / WORD_BYTES < WORDSZ / 2
    ensures var r := Double(d, size / WORD_BYTES);
            && Means(pw, r) == Means(pw, d) + Shift(Means(pw, d), size / WORD_BYTES)
            && FitsIn(pw, r, 2 * size)
  {
    if d.Length? {
      DoubleLength(d.bytes, size);
      DoubleFits(pw, BmTable(d.bytes / WORD_BYTES), size);
    } else {
      DoubleFits(pw, d.w, size);
    }
  }

  /** A short length is doubled as the bitmap with as many bits. */
  lemma DoubleLength(bytes: nat, size: nat)
    requires bytes % WORD_BYTES == 0 && size % WORD_BYTES == 0 && Upto(bytes / WORD_BYTES) <= Upto(size / WORD_BYTES)
    requires size <= BITMAP_BITS / 2 && bytes != 0
    ensures var i := bytes / WORD_BYTES;
            && 0 < i < WORDSZ / 2 && IsBitmapWord(BmTable(i)) && BitmapWords(BmTable(i)) == Upto(i)
            && Double(Length(bytes), size / WORD_BYTES) == Double(Bitmap(BmTable(i)), size / WORD_BYTES)
  {
    LengthInside(bytes, size);
    BmTableWords(bytes / WORD_BYTES);
  }

  lemma DoubleFits(pw: ProcWords, w: Bits, size: nat)
    requires IsBitmapWord(w) && BitmapWords(w) <= Upto(size / WORD_BYTES)
    requires size % WORD_BYTES == 0 && size <= BITMAP_BITS / 2
    ensures var r := Double(Bitmap(w), size / WORD_BYTES);
            && Means(pw, r) == BitmapWords(w) + Shift(BitmapWords(w), size / WORD_BYTES)
            && FitsIn(pw, r, 2 * size)
  {
    var n := size / WORD_BYTES;
    assert 2 * size / WORD_BYTES == 2 * n;
    ShiftUpto(BitmapWords(w), n);
    DoubleBitmap(w, n);
  }

  // ---------------------------------------------------------------- compiling

  /** GC_make_sequence_descriptor. */
  function MakeSequence(mem: nat -> bool, k: nat, first: Complex, second: Complex): Complex {
    if mem(k) then Sequence(first, second) else Null
  }

  /** GC_make_array_descriptor, where mem(k) tells whether the k-th allocation
      succeeds; also returns the number of the next allocation. */
  function MakeArray(mem: nat -> bool, k: nat, n: nat, size: nat, d: Descr): (Result, nat)
    requires d.Length? ==> d.bytes <= size && d.bytes % WORD_BYTES == 0
    requires d.Bitmap? ==> |d.w| == WORDSZ
    decreases n
  {
    if d.Length? && d.bytes == size then (Simple(Length(n * d.bytes)), k)
    else if d.Length? && d.bytes == 0 then (Simple(Length(0)), k)
    else if n <= OPT_THRESHOLD && n <= 1 then (Simple(if n == 1 then d else Length(0)), k)
    else if n > OPT_THRESHOLD && size <= BITMAP_BITS / 2 && !d.Proc? && size % WORD_BYTES == 0 then
      var (r, k1) := MakeArray(mem, k, n / 2, 2 * size, Double(d, size / WORD_BYTES));
      if n % 2 == 0 then (r, k1) else AppendOne(mem, k1, r, Leaf(size, 1, d))
    else (Whole(Leaf(size, n, d)), k)
  }

  /** The odd element at the end. */
  function AppendOne(mem: nat -> bool, k: nat, r: Result, one: Complex): (Result, nat)
    requires one.Leaf?
  {
    if r.NoMem? || !mem(k) then (NoMem, k + 1)
    else match r
      case Simple(d) =>
        if !mem(k + 1) then (NoMem, k + 2)
        else (Tree(MakeSequence(mem, k + 2, Leaf(one.size, 1, d), one)), k + 3)
      case Whole(leaf) =>
        if !mem(k + 1) then (NoMem, k + 2)
        else (Tree(MakeSequence(mem, k + 2, leaf, one)), k + 3)
      case Tree(c) => (Tree(MakeSequence(mem, k + 1, c, one)), k + 2)
      case NoMem => (NoMem, k + 1)
  }

  predicate HasNull(c: Complex) {
    match c
    case Null => true
    case Leaf(_, _, _) => false
    case Sequence(first, second) => HasNull(first) || HasNull(second)
  }

  /** GC_descr_obj_size. */
  function ObjSize(c: Complex): nat
    requires !HasNull(c)
  {
    match c
    case Leaf(size, n, _) => n * size
    case Sequence(first, second) => ObjSize(first) + ObjSize(second)
  }

  /** The mark stack entries a leaf or sequence at addr stands for. */
  function Entries(c: Complex, addr: nat): (es: seq<(nat, Descr)>)
    requires !HasNull(c)
    decreases c, if c.Leaf? then c.nelements else 0
  {
    match c
    case Leaf(size, n, d) => Elements(size, n, d, addr)
    case Sequence(first, second) => Entries(first, addr) + Entries(second, addr + ObjSize(first))
  }

  function Elements(size: nat, n: nat, d: Descr, addr: nat): (es: seq<(nat, Descr)>)
    ensures |es| == n
  {
    if n == 0 then [] else [(addr, d)] + Elements(size, n - 1, d, addr + size)
  }

  /** The words that mark stack entries cover. */
  ghost function EntryWords(pw: ProcWords, es: seq<(nat, Descr)>): set<nat> {
    if es == [] then {} else Shift(Means(pw, es[0].1), es[0].0 / WORD_BYTES) + EntryWords(pw, es[1..])
  }

  // ---------------------------------------------------------------- meaning of the results

  lemma {:induction false} EntryWordsJoin(pw: ProcWords, es: seq<(nat, Descr)>, fs: seq<(nat, Descr)>)
    ensures EntryWords(pw, es + fs) == EntryWords(pw, es) + EntryWords(pw, fs)
  {
    if es == [] {
      assert es + fs == fs;
    } else {
      assert (es + fs)[1..] == es[1..] + fs;
      EntryWordsJoin(pw, es[1..], fs);
    }
  }

  /** A leaf is pushed as copies of its element. */
  lemma {:induction false} LeafWords(pw: ProcWords, size: nat, n: nat, d: Descr, addr: nat)
    requires addr % WORD_BYTES == 0 && size % WORD_BYTES == 0
    ensures EntryWords(pw, Elements(size, n, d, addr)) == Copies(Means(pw, d), size / WORD_BYTES, n, addr / WORD_BYTES)
    decreases n
  {
    if n > 0 {
      LeafWords(pw, size, n - 1, d, addr + size);
      assert (addr + size) / WORD_BYTES == addr / WORD_BYTES + size / WORD_BYTES;
      assert Elements(size, n, d, addr)[1..] == Elements(size, n - 1, d, addr + size);
    }
  }

  predicate Aligned(c: Complex) {
    match c
    case Null => true
    case Leaf(size, _, _) => size % WORD_BYTES == 0
    case Sequence(first, second) => Aligned(first) && Aligned(second)
  }

  ghost predicate ResultOK(pw: ProcWords, r: Result, s: set<nat>, n: nat, size: nat) {
    var all := Copies(s, size / WORD_BYTES, n, 0);
    match r
    case NoMem => true
    case Simple(d) => Means(pw, d) == all
    case Whole(c) => c.Leaf? && TreeOK(pw, c, all, n * size)
    case Tree(c) => !HasNull(c) ==> TreeOK(pw, c, all, n * size)
  }

  /** c is pushed as exactly the words all, and its size is computed as bytes. */
  ghost predicate TreeOK(pw: ProcWords, c: Complex, all: set<nat>, bytes: nat) {
    !HasNull(c) && Aligned(c) && ObjSize(c) == bytes && EntryWords(pw, Entries(c, 0)) == all
  }

  lemma {:induction false} CopiesFull(w: nat, n: nat, off: nat)
    ensures Copies(Upto(w), w, n, off) == Upto(off + Times(n, w)) - Upto(off)
    decreases n
  {
    if n > 0 {
      CopiesFull(w, n - 1, off + w);
      forall j: nat | off <= j < off + w ensures j in Shift(Upto(w), off) { assert j - off in Upto(w); }
    }
  }

  lemma {:induction false} CopiesNothing(stride: nat, n: nat, off: nat)
    ensures Copies({}, stride, n, off) == {}
  {
    if n > 0 { CopiesNothing(stride, n - 1, off + stride); }
  }

  lemma ShiftZero(s: set<nat>)
    ensures Shift(s, 0) == s
  {
    forall j | j in s ensures j in Shift(s, 0) { assert j + 0 in Shift(s, 0); }
  }

  /** One copy more at the end. */
  lemma {:induction false} CopiesLast(s: set<nat>, stride: nat, n: nat, off: nat)
    ensures Copies(s, stride, n + 1, off) == Copies(s, stride, n, off) + Shift(s, off + Times(n, stride))
    decreases n
  {
    if n == 0 {
      assert Copies(s, stride, 1, off) == Shift(s, off) + Copies(s, stride, 0, off + stride);
    } else {
      CopiesLast(s, stride, n - 1, off + stride);
    }
  }

  /** The size of n elements, in words. */
  lemma SizeInWords(n: nat, size: nat)
    requires size % WORD_BYTES == 0
    ensures Times(n, size) % WORD_BYTES == 0 && Times(n, size) / WORD_BYTES == Times(n, size / WORD_BYTES)
  {
    assert size == WORD_BYTES * (size / WORD_BYTES);
    TimesWords(n, size / WORD_BYTES);
  }

  lemma {:induction false} TimesWords(n: nat, t: nat)
    ensures Times(n, WORD_BYTES * t) == WORD_BYTES * Times(n, t)
  {
    if n > 0 { TimesWords(n - 1, t); }
  }

  lemma LeafOK(pw: ProcWords, size: nat, n: nat, d: Descr)
    requires size % WORD_BYTES == 0
    ensures TreeOK(pw, Leaf(size, n, d), Copies(Means(pw, d), size / WORD_BYTES, n, 0), n * size)
  {
    LeafWords(pw, size, n, d, 0);
  }

  /** One more element after n. */
  lemma SequenceOK(pw: ProcWords, c: Complex, s: set<nat>, n: nat, size: nat, d: Descr)
    requires size % WORD_BYTES == 0 && Means(pw, d) == s
    requires TreeOK(pw, c, Copies(s, size / WORD_BYTES, n, 0), n * size)
    ensures TreeOK(pw, Sequence(c, Leaf(size, 1, d)), Copies(s, size / WORD_BYTES, n + 1, 0), (n + 1) * size)
  {
    TimesIs(n, size);
    TimesIs(n + 1, size);
    SequenceWords(pw, c, s, n, size, d, Times(n, size));
  }

  lemma SequenceWords(pw: ProcWords, c: Complex, s: set<nat>, n: nat, size: nat, d: Descr, last: nat)
    requires size % WORD_BYTES == 0 && Means(pw, d) == s && last == Times(n, size)
    requires TreeOK(pw, c, Copies(s, size / WORD_BYTES, n, 0), last)
    ensures EntryWords(pw, Entries(Sequence(c, Leaf(size, 1, d)), 0)) == Copies(s, size / WORD_BYTES, n + 1, 0)
  {
    var stride := size / WORD_BYTES;
    SizeInWords(n, size);
    CopiesLast(s, stride, n, 0);
    LeafWords(pw, size, 1, d, last);
    CopiesLast(s, stride, 0, last / WORD_BYTES);
    EntryWordsJoin(pw, Entries(c, 0), Elements(size, 1, d, last));
    assert Entries(Sequence(c, Leaf(size, 1, d)), 0) == Entries(c, 0) + Elements(size, 1, d, last);
  }

  /** The descriptor made for an array describes exactly n copies of its element at
      stride size, and the size computed for it is n * size, unless memory ran out. */
  lemma {:induction false} ArrayMeaning(pw: ProcWords, mem: nat -> bool, k: nat, n: nat, size: nat, d: Descr)
    requires FitsIn(pw, d, size)
    ensures d.Length? ==> d.bytes <= size
    ensures ResultOK(pw, MakeArray(mem, k, n, size, d).0, Means(pw, d), n, size)
    decreases n
  {
    if d.Length? { LengthInside(d.bytes, size); }
    if Doubles(n, size, d) {
      DoubleMeans(pw, d, size);
      var d2 := Double(d, size / WORD_BYTES);
      ArrayMeaning(pw, mem, k, n / 2, 2 * size, d2);
      NeverSimple(mem, k, n, size, d);
      DoubleStep(pw, mem, MakeArray(mem, k, n / 2, 2 * size, d2), n, size, d, d2);
    } else {
      NotDoubled(pw, mem, k, n, size, d);
    }
  }

  /** Are the descriptors of adjacent elements combined? */
  predicate Doubles(n: nat, size: nat, d: Descr) {
    && n > OPT_THRESHOLD && size <= BITMAP_BITS / 2 && !d.Proc? && size % WORD_BYTES == 0
    && (d.Length? ==> d.bytes != size && d.bytes != 0)
  }

  lemma NotDoubled(pw: ProcWords, mem: nat -> bool, k: nat, n: nat, size: nat, d: Descr)
    requires FitsIn(pw, d, size) && !Doubles(n, size, d) && (d.Length? ==> d.bytes <= size)
    ensures ResultOK(pw, MakeArray(mem, k, n, size, d).0, Means(pw, d), n, size)
  {
    var s, stride := Means(pw, d), size / WORD_BYTES;
    if d.Length? && d.bytes == size {
      CopiesFull(stride, n, 0);
      SizeInWords(n, size);
      TimesIs(n, size);
    } else if d.Length? && d.bytes == 0 {
      CopiesNothing(stride, n, 0);
    } else if n <= 1 {
      if n == 1 {
        ShiftZero(s);
        CopiesLast(s, stride, 0, 0);
      }
    } else {
      LeafOK(pw, size, n, d);
    }
  }

  lemma DoubleStep(pw: ProcWords, mem: nat -> bool, half: (Result, nat), n: nat, size: nat, d: Descr, d2: Descr)
    requires size % WORD_BYTES == 0 && Means(pw, d2) == Means(pw, d) + Shift(Means(pw, d), size / WORD_BYTES)
    requires ResultOK(pw, half.0, Means(pw, d2), n / 2, 2 * size) && !half.0.Simple?
    ensures var r := if n % 2 == 0 then half.0 else AppendOne(mem, half.1, half.0, Leaf(size, 1, d)).0;
            ResultOK(pw, r, Means(pw, d), n, size)
  {
    HalfOK(pw, half.0, Means(pw, d), n / 2, size, Means(pw, d2));
    if n % 2 != 0 { AppendOK(pw, mem, half.1, half.0, Means(pw, d), n - 1, size, d); }
  }

  /** The case of an odd count of which half is described by a simple descriptor,
      which would be described wrongly, does not arise. */
  lemma NeverSimple(mem: nat -> bool, k: nat, n: nat, size: nat, d: Descr)
    requires n > OPT_THRESHOLD && size <= BITMAP_BITS / 2 && !d.Proc? && size % WORD_BYTES == 0
    requires d.Length? ==> 0 < d.bytes < size && d.bytes % WORD_BYTES == 0
    requires d.Bitmap? ==> |d.w| == WORDSZ
    ensures !MakeArray(mem, k, n / 2, 2 * size, Double(d, size / WORD_BYTES)).0.Simple?
  {
    BitmapNotSimple(mem, k, n / 2, 2 * size, Double(d, size / WORD_BYTES));
  }

  lemma {:induction false} BitmapNotSimple(mem: nat -> bool, k: nat, n: nat, size: nat, d: Descr)
    requires n > 1 && d.Bitmap? && |d.w| == WORDSZ
    ensures !MakeArray(mem, k, n, size, d).0.Simple?
    decreases n
  {
    if Doubles(n, size, d) { BitmapNotSimple(mem, k, n / 2, 2 * size, Double(d, size / WORD_BYTES)); }
  }

  lemma HalfOK(pw: ProcWords, r: Result, s: set<nat>, m: nat, size: nat, pair: set<nat>)
    requires size % WORD_BYTES == 0 && pair == s + Shift(s, size / WORD_BYTES)
    requires ResultOK(pw, r, pair, m, 2 * size)
    ensures ResultOK(pw, r, s, 2 * m, size)
  {
    PairCopies(s, size / WORD_BYTES, m, 0);
    Twice(m, size);
  }

  lemma Twice(m: nat, size: nat)
    requires size % WORD_BYTES == 0
    ensures 2 * size / WORD_BYTES == 2 * (size / WORD_BYTES) && m * (2 * size) == 2 * m * size
  {
  }

  lemma AppendOK(pw: ProcWords, mem: nat -> bool, k: nat, r: Result, s: set<nat>, n: nat, size: nat, d: Descr)
    requires size % WORD_BYTES == 0 && Means(pw, d) == s && !r.Simple? && ResultOK(pw, r, s, n, size)
    ensures ResultOK(pw, AppendOne(mem, k, r, Leaf(size, 1, d)).0, s, n + 1, size)
  {
    if r.Whole? {
      SequenceOK(pw, r.leaf, s, n, size, d);
    } else if r.Tree? && !HasNull(r.complex) {
      SequenceOK(pw, r.complex, s, n, size, d);
    }
  }

  // ---------------------------------------------------------------- running out of memory

  /** Can the result be used? */
  predicate Usable(r: Result) { !r.NoMem? && (r.Tree? ==> !HasNull(r.complex)) }

  ghost predicate AllMem(mem: nat -> bool, k: nat, k': nat) { forall i :: k <= i < k' ==> mem(i) }

  lemma AppendUsable(mem: nat -> bool, k0: nat, k: nat, r: Result, one: Complex)
    requires k0 <= k && one.Leaf? && (r.Whole? ==> r.leaf.Leaf?) && (Usable(r) <==> AllMem(mem, k0, k))
    ensures var r' := AppendOne(mem, k, r, one);
            k <= r'.1 && (r'.0.Whole? ==> r'.0.leaf.Leaf?) && (Usable(r'.0) <==> AllMem(mem, k0, r'.1))
  {
    var r' := AppendOne(mem, k, r, one);
    assert !HasNull(one) && (r.Whole? ==> !HasNull(r.leaf));
    if AllMem(mem, k0, r'.1) {
      assert AllMem(mem, k0, k) && Usable(r);
      assert mem(k) && (r'.1 > k + 1 ==> mem(k + 1)) && (r'.1 > k + 2 ==> mem(k + 2));
      assert r'.0.Tree? && r'.0.complex.Sequence?;
      assert !HasNull(r'.0.complex);
    } else {
      assert AllMem(mem, k0, k) ==> !mem(k) || (r'.1 > k + 1 && !mem(k + 1)) || (r'.1 > k + 2 && !mem(k + 2));
    }
  }

  /** The result can be used if and only if every allocation made succeeded. */
  lemma {:induction false} UsableIff(mem: nat -> bool, k: nat, n: nat, size: nat, d: Descr)
    requires d.Length? ==> d.bytes <= size && d.bytes % WORD_BYTES == 0
    requires d.Bitmap? ==> |d.w| == WORDSZ
    ensures var r := MakeArray(mem, k, n, size, d);
            && k <= r.1 && (r.0.Whole? ==> r.0.leaf.Leaf?)
            && (Usable(r.0) <==> AllMem(mem, k, r.1))
    decreases n
  {
    if Doubles(n, size, d) {
      var d2 := Double(d, size / WORD_BYTES);
      UsableIff(mem, k, n / 2, 2 * size, d2);
      var half := MakeArray(mem, k, n / 2, 2 * size, d2);
      MakeDoubled(mem, k, n, size, d);
      if n % 2 == 1 { AppendUsable(mem, k, half.1, half.0, Leaf(size, 1, d)); }
    }
  }

  /** A result that is reported as a complex descriptor though part of it is not there:
      GC_make_sequence_descriptor failed and nobody looked. */
  predicate Unnoticed(r: Result) { r.Tree? && HasNull(r.complex) }

  /** Is the count odd at some level of doubling? */
  predicate OddLevel(n: nat, size: nat, d: Descr)
    requires d.Length? ==> d.bytes <= size && d.bytes % WORD_BYTES == 0
    requires d.Bitmap? ==> |d.w| == WORDSZ
    decreases n
  {
    Doubles(n, size, d) && (n % 2 == 1 || OddLevel(n / 2, 2 * size, Double(d, size / WORD_BYTES)))
  }

  /** Without such a level nothing is allocated and no sequence is made. */
  lemma {:induction false} EvenNoTree(mem: nat -> bool, k: nat, n: nat, size: nat, d: Descr)
    requires d.Length? ==> d.bytes <= size && d.bytes % WORD_BYTES == 0
    requires d.Bitmap? ==> |d.w| == WORDSZ
    requires !OddLevel(n, size, d)
    ensures var r := MakeArray(mem, k, n, size, d); !r.0.Tree? && !r.0.NoMem? && r.1 == k
    decreases n
  {
    if Doubles(n, size, d) { EvenNoTree(mem, k, n / 2, 2 * size, Double(d, size / WORD_BYTES)); }
  }

  /** mem' is like mem from the k-th allocation up to the one before k'. */
  ghost predicate SameUpTo(mem: nat -> bool, mem': nat -> bool, k: nat, k': nat) {
    forall i {:trigger mem'(i)} :: k <= i < k' ==> mem'(i) == mem(i)
  }

  lemma AppendSame(mem: nat -> bool, mem': nat -> bool, k: nat, r: Result, one: Complex)
    requires one.Leaf? && SameUpTo(mem, mem', k, AppendOne(mem, k, r, one).1)
    ensures AppendOne(mem', k, r, one) == AppendOne(mem, k, r, one)
  {
    assert mem'(k) == mem(k);
    if AppendOne(mem, k, r, one).1 > k + 1 { assert mem'(k + 1) == mem(k + 1); }
    if AppendOne(mem, k, r, one).1 > k + 2 { assert mem'(k + 2) == mem(k + 2); }
  }

  lemma MakeDoubled(mem: nat -> bool, k: nat, n: nat, size: nat, d: Descr)
    requires d.Length? ==> d.bytes <= size && d.bytes % WORD_BYTES == 0
    requires d.Bitmap? ==> |d.w| == WORDSZ
    requires Doubles(n, size, d)
    ensures var half := MakeArray(mem, k, n / 2, 2 * size, Double(d, size / WORD_BYTES));
            MakeArray(mem, k, n, size, d) ==
            if n % 2 == 0 then half else AppendOne(mem, half.1, half.0, Leaf(size, 1, d))
  {
  }

  /** The result depends on no other allocations than those made. */
  lemma {:induction false} SameMem(mem: nat -> bool, mem': nat -> bool, k: nat, n: nat, size: nat, d: Descr)
    requires d.Length? ==> d.bytes <= size && d.bytes % WORD_BYTES == 0
    requires d.Bitmap? ==> |d.w| == WORDSZ
    requires SameUpTo(mem, mem', k, MakeArray(mem, k, n, size, d).1)
    ensures MakeArray(mem', k, n, size, d) == MakeArray(mem, k, n, size, d)
    decreases n
  {
    if Doubles(n, size, d) {
      var d2 := Double(d, size / WORD_BYTES);
      var half := MakeArray(mem, k, n / 2, 2 * size, d2);
      MakeDoubled(mem, k, n, size, d);
      MakeDoubled(mem', k, n, size, d);
      UsableIff(mem, k, n / 2, 2 * size, d2);
      AppendMore(mem, half.1, half.0, Leaf(size, 1, d));
      SameMem(mem, mem', k, n / 2, 2 * size, d2);
      if n % 2 == 1 { AppendSame(mem, mem', half.1, half.0, Leaf(size, 1, d)); }
    }
  }

  lemma AppendMore(mem: nat -> bool, k: nat, r: Result, one: Complex)
    requires one.Leaf?
    ensures k < AppendOne(mem, k, r, one).1
  {
  }

  /** If only the allocation for the sequence fails nobody notices. */
  lemma AppendFails(mem: nat -> bool, k: nat, r: Result, one: Complex)
    requires one.Leaf? && !r.NoMem? && mem(k) && (if r.Tree? then !mem(k + 1) else mem(k + 1) && !mem(k + 2))
    ensures AppendOne(mem, k, r, one).0 == Tree(Null)
  {
  }

  ghost predicate Fails(mem: nat -> bool, k: nat, n: nat, size: nat, d: Descr)
    requires d.Length? ==> d.bytes <= size && d.bytes % WORD_BYTES == 0
    requires d.Bitmap? ==> |d.w| == WORDSZ
  {
    Unnoticed(MakeArray(mem, k, n, size, d).0)
  }

  /** All allocations but one succeed. */
  function AllBut(bad: nat): nat -> bool { i => i != bad }

  /** With such a level, the failure of the one allocation at the outermost of them
      that makes the sequence goes unnoticed. */
  lemma {:induction false} FailAt(k: nat, n: nat, size: nat, d: Descr) returns (mem: nat -> bool)
    requires d.Length? ==> d.bytes <= size && d.bytes % WORD_BYTES == 0
    requires d.Bitmap? ==> |d.w| == WORDSZ
    requires OddLevel(n, size, d)
    ensures Fails(mem, k, n, size, d)
    decreases n
  {
    var d2 := Double(d, size / WORD_BYTES);
    if n % 2 == 0 {
      mem := FailAt(k, n / 2, 2 * size, d2);
    } else {
      mem := FailHere(k, n, size, d, d2);
    }
  }

  lemma FailHere(k: nat, n: nat, size: nat, d: Descr, d2: Descr) returns (mem: nat -> bool)
    requires d.Length? ==> d.bytes <= size && d.bytes % WORD_BYTES == 0
    requires d.Bitmap? ==> |d.w| == WORDSZ
    requires Doubles(n, size, d) && n % 2 == 1 && d2 == Double(d, size / WORD_BYTES)
    ensures Fails(mem, k, n, size, d)
  {
    var all: nat -> bool := _ => true;
    var half := MakeArray(all, k, n / 2, 2 * size, d2);
    UsableIff(all, k, n / 2, 2 * size, d2);
    var bad := if half.0.Tree? then half.1 + 1 else half.1 + 2;
    mem := AllBut(bad);
    SameMem(all, mem, k, n / 2, 2 * size, d2);
    AppendFails(mem, half.1, half.0, Leaf(size, 1, d));
  }

  /** Some failed allocation goes unnoticed if and only if the count is odd at some
      level of doubling, which the caller can tell from the arguments. */
  lemma UnnoticedIff(k: nat, n: nat, size: nat, d: Descr)
    requires d.Length? ==> d.bytes <= size && d.bytes % WORD_BYTES == 0
    requires d.Bitmap? ==> |d.w| == WORDSZ
    ensures (exists mem :: Fails(mem, k, n, size, d)) <==> OddLevel(n, size, d)
  {
    if OddLevel(n, size, d) {
      var mem := FailAt(k, n, size, d);
    } else {
      forall mem ensures !Fails(mem, k, n, size, d) { EvenNoTree(mem, k, n, size, d); }
    }
  }

  /** An odd count of more than OPT_THRESHOLD small elements that are not all
      pointers has such a level. */
  lemma OddCount(n: nat, size: nat, bytes: nat)
    requires n > OPT_THRESHOLD && n % 2 == 1 && 0 < bytes < size <= BITMAP_BITS / 2
    requires size % WORD_BYTES == 0 && bytes % WORD_BYTES == 0
    ensures OddLevel(n, size, Length(bytes))
    ensures exists mem :: Fails(mem, 0, n, size, Length(bytes))
  {
    UnnoticedIff(0, n, size, Length(bytes));
  }

  // ---------------------------------------------------------------- marking

  /** GC_push_complex_descriptor: replace a complex descriptor at addr by the
      entries it stands for, if there is room for one more than those. */
  method PushComplex(addr: nat, c: Complex, stack: seq<(nat, Descr)>, limit: nat)
    returns (ok: bool, pushed: seq<(nat, Descr)>)
    requires !HasNull(c)
    ensures ok <==> |stack| + |Entries(c, addr)| < limit
    ensures ok ==> pushed == stack + Entries(c, addr)
    decreases c
  {
    match c {
      case Leaf(size, n, d) =>
        pushed := stack;
        if limit - |stack| <= n { return false, stack; }
        var current: nat, i := addr, 0;
        while i < n
          invariant i <= n && pushed + Elements(size, n - i, d, current) == stack + Elements(size, n, d, addr)
        {
          pushed := pushed + [(current, d)];
          current := current + size;
          i := i + 1;
        }
        ok := true;
      case Sequence(first, second) =>
        ok, pushed := PushComplex(addr, first, stack, limit);
        if !ok { return; }
        ok, pushed := PushComplex(addr + ObjSize(first), second, pushed, limit);
    }
  }

  /** GC_array_mark_proc on an object of sz bytes whose last word holds its
      descriptor: with at least one free entry the stack does not overflow, and
      either exactly the words described and the descriptor are pushed, or for
      want of room the whole object. */
  method ArrayMarkProc(pw: ProcWords, sz: nat, c: Complex, stack: seq<(nat, Descr)>, limit: nat)
    returns (pushed: seq<(nat, Descr)>, tooSmall: bool)
    requires sz % WORD_BYTES == 0 && sz > 0 && |stack| < limit && (c.Null? || !HasNull(c))
    ensures |pushed| <= limit && |stack| <= |pushed| && pushed[..|stack|] == stack
    ensures c.Null? ==> pushed == stack
    ensures !c.Null? ==>
      EntryWords(pw, pushed[|stack|..]) ==
        if tooSmall then Upto(sz / WORD_BYTES) else EntryWords(pw, Entries(c, 0)) + {sz / WORD_BYTES - 1}
    ensures !c.Null? ==> (tooSmall <==> |stack| + |Entries(c, 0)| >= limit)
  {
    if c.Null? { return stack, false; }
    var nwords := sz / WORD_BYTES;
    var ok, p := PushComplex(0, c, stack, limit);
    if !ok {
      pushed := stack + [(0, Length(sz))];
      assert pushed[|stack|..] == [(0, Length(sz))];
      OneEntry(pw, 0, Length(sz));
      ShiftZero(Upto(nwords));
      tooSmall := true;
    } else {
      var last := (WORD_BYTES * (nwords - 1), Length(WORD_BYTES));
      pushed := p + [last];
      assert pushed[|stack|..] == Entries(c, 0) + [last];
      EntryWordsJoin(pw, Entries(c, 0), [last]);
      OneEntry(pw, last.0, last.1);
      assert Upto(1) == {0};
      assert Shift({0}, nwords - 1) == {nwords - 1} by { assert 0 + (nwords - 1) in Shift({0}, nwords - 1); }
      tooSmall := false;
    }
  }

  lemma OneEntry(pw: ProcWords, start: nat, d: Descr)
    ensures EntryWords(pw, [(start, d)]) == Shift(Means(pw, d), start / WORD_BYTES)
  {
    assert EntryWords(pw, []) == {};
    assert [(start, d)][..0] == [];
  }
}
