/** Black lists: hash tables of bits for the blocks that false pointers lead to, and
    the search that skips whole words of them.  Blocks are numbered. */
module BlackList {
  const WORDSZ: nat := 64
  const PHT_ENTRIES: nat := 0x4_0000

  /** A page hash table: words of bits, lowest first. */
  type Table = seq<seq<bool>>

  ghost predicate IsTable(t: Table) {
    |t| == PHT_ENTRIES / WORDSZ && forall k :: 0 <= k < |t| ==> |t[k]| == WORDSZ
  }

  function Hash(h: nat): (i: nat)
    ensures i < PHT_ENTRIES
  {
    h % PHT_ENTRIES
  }

  predicate Bit(t: Table, h: nat)
    requires IsTable(t)
  {
    t[Hash(h) / WORDSZ][Hash(h) % WORDSZ]
  }

  /** The tables of the last and of the current collection. */
  datatype Lists = Lists(oldNormal: Table, newNormal: Table, oldStack: Table, newStack: Table, allInterior: bool) {
    ghost predicate Valid() { IsTable(oldNormal) && IsTable(newNormal) && IsTable(oldStack) && IsTable(newStack) }

    /** An object that starts in block h might be referred to falsely. */
    predicate Normal(h: nat)
      requires Valid()
    {
      !allInterior && (Bit(oldNormal, h) || Bit(newNormal, h))
    }

    /** An object any part of which lies in block h might be. */
    predicate Stack(h: nat)
      requires Valid()
    {
      Bit(oldStack, h) || Bit(newStack, h)
    }
  }

  /** Block by block: is a piece of n blocks at h black-listed?  A piece of less than
      a block lies in its first. */
  ghost predicate Listed(l: Lists, h: nat, n: nat)
    requires l.Valid()
  {
    l.Normal(h) || exists b: nat :: h <= b < h + AtLeastOne(n) && l.Stack(b)
  }

  function AtLeastOne(n: nat): nat { if n == 0 then 1 else n }

  predicate ZeroWord(w: seq<bool>) { forall k :: 0 <= k < |w| ==> !w[k] }

  /** The rest of a word of zeros holds no listed block. */
  lemma WordSkip(t: Table, h: nat, i: nat)
    requires IsTable(t) && ZeroWord(t[Hash(h) / WORDSZ]) && i < WORDSZ - Hash(h) % WORDSZ
    ensures !Bit(t, h + i)
  {
    var x := Hash(h);
    assert x + i < PHT_ENTRIES by {
      assert x == x / WORDSZ * WORDSZ + x % WORDSZ;
      assert x / WORDSZ < PHT_ENTRIES / WORDSZ;
    }
    assert Hash(h + i) == x + i;
    assert (x + i) / WORDSZ == x / WORDSZ;
  }

  /** GC_is_black_listed: 0 exactly if the piece is not listed, and otherwise a
      later start before which every other start is listed too. */
  method IsBlackListed(l: Lists, h: nat, n: nat) returns (r: nat)
    requires l.Valid()
    ensures r == 0 <==> !Listed(l, h, n)
    ensures r != 0 ==> h < r && forall s :: h <= s < r ==> Listed(l, s, n)
  {
    var index := Hash(h);
    if l.Normal(h) { return h + 1; }
    var i := 0;
    while true
      invariant i < AtLeastOne(n) && index == Hash(h + i)
      invariant forall b: nat :: h <= b < h + i ==> !l.Stack(b)
      decreases AtLeastOne(n) - i
    {
      if ZeroWord(l.oldStack[index / WORDSZ]) && ZeroWord(l.newStack[index / WORDSZ]) {
        forall b: nat | h + i <= b < h + i + (WORDSZ - index % WORDSZ) ensures !l.Stack(b) {
          WordSkip(l.oldStack, h + i, b - h - i);
          WordSkip(l.newStack, h + i, b - h - i);
        }
        i := i + (WORDSZ - index % WORDSZ);
      } else {
        if l.Stack(h + i) {
          forall s | h <= s < h + i + 1 ensures Listed(l, s, n) { assert s <= h + i < s + AtLeastOne(n); }
          return h + i + 1;
        }
        i := i + 1;
      }
      if i >= n { break; }
      index := Hash(h + i);
    }
    return 0;
  }

  /** The search of GC_allochblk_nth in a free block: the first start from hbp on
      that is not listed, or one beyond end if all up to end are. */
  method FirstAcceptable(l: Lists, hbp: nat, end: nat, n: nat) returns (last: nat)
    requires l.Valid()
    ensures hbp <= last && (last <= end ==> !Listed(l, last, n))
    ensures forall s :: hbp <= s < last && s <= end ==> Listed(l, s, n)
  {
    last := hbp;
    while last <= end
      invariant hbp <= last && forall s :: hbp <= s < last ==> Listed(l, s, n)
      decreases end - last
    {
      var r := IsBlackListed(l, last, n);
      if r == 0 { return; }
      last := r;
    }
  }
}
