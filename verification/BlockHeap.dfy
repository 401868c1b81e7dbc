/** The allocator of heap blocks: headers, doubly linked free lists by size, and
    the accounting of free space.  Addresses and sizes are counted in blocks. */
module BlockHeap {
  import BlackList

  const UNIQUE_THRESHOLD: nat := 32   // up to here every size has a list of its own
  const HUGE_THRESHOLD: nat := 256    // from here on all sizes share the last list
  const FL_COMPRESSION: nat := 8
  const N_HBLK_FLS: nat := 60
  const LIMIT: nat := 0x8_0000_0000_0000  // blocks in half the address space

  /** GC_hblk_fl_from_blocks. */
  function Fl(blocks: nat): (i: nat)
    ensures i <= N_HBLK_FLS
  {
    if blocks <= UNIQUE_THRESHOLD then blocks
    else if blocks >= HUGE_THRESHOLD then N_HBLK_FLS
    else (blocks - UNIQUE_THRESHOLD) / FL_COMPRESSION + UNIQUE_THRESHOLD
  }

  /** Larger blocks are never on lower lists, and the low lists hold one size each. */
  lemma FlMonotone(a: nat, b: nat)
    requires a <= b
    ensures Fl(a) <= Fl(b)
    ensures Fl(a) == Fl(b) && Fl(a) < UNIQUE_THRESHOLD ==> a == b
  {
  }

  /** A block header; prev and next link free blocks of one list, 0 is nil. */
  datatype Hdr = Hdr(sz: nat, free: bool, prev: nat, next: nat)

  type Hdrs = map<nat, Hdr>

  // ---------------------------------------------------------------- lists

  ghost function Before(s: seq<nat>, j: int): nat { if 0 < j <= |s| then s[j - 1] else 0 }

  ghost function After(s: seq<nat>, j: int): nat { if 0 <= j < |s| - 1 then s[j + 1] else 0 }

  /** The j-th member of s is linked to its neighbours. */
  ghost predicate Linked(H: Hdrs, s: seq<nat>, j: int) {
    0 <= j < |s| ==> s[j] != 0 && s[j] in H && H[s[j]].prev == Before(s, j) && H[s[j]].next == After(s, j)
  }

  ghost predicate NoDup(s: seq<nat>) {
    forall i, j :: 0 <= i < j < |s| ==> s[i] != s[j]
  }

  ghost predicate IsList(H: Hdrs, head: nat, s: seq<nat>) {
    && head == (if s == [] then 0 else s[0])
    && (forall j {:trigger Linked(H, s, j)} :: Linked(H, s, j))
    && NoDup(s)
  }

  ghost function Sum(H: Hdrs, s: seq<nat>): nat {
    if s == [] then 0 else Sum(H, s[1..]) + if s[0] in H then H[s[0]].sz else 0
  }

  ghost predicate SameOn(H: Hdrs, H': Hdrs, s: seq<nat>) {
    forall h {:trigger h in s} :: h in s ==> h in H && h in H' && H'[h] == H[h]
  }

  ghost predicate SameSizes(H: Hdrs, H': Hdrs, s: seq<nat>) {
    forall h {:trigger h in s} :: h in s && h in H ==> h in H' && H'[h].sz == H[h].sz
  }

  lemma {:induction false} SumSame(H: Hdrs, H': Hdrs, s: seq<nat>)
    requires SameSizes(H, H', s) && forall h :: h in s ==> h in H
    ensures Sum(H', s) == Sum(H, s)
  {
    if s != [] {
      assert s[0] in s;
      forall h | h in s[1..] ensures h in s {}
      SumSame(H, H', s[1..]);
    }
  }

  lemma {:induction false} SumWithout(H: Hdrs, s: seq<nat>, k: nat)
    requires k < |s| && s[k] in H
    ensures Sum(H, s[..k] + s[k + 1..]) == Sum(H, s) - H[s[k]].sz
  {
    if k == 0 {
      assert s[..k] + s[k + 1..] == s[1..];
    } else {
      var t := s[1..];
      assert (s[..k] + s[k + 1..])[1..] == t[..k - 1] + t[k..];
      SumWithout(H, t, k - 1);
    }
  }

  lemma IsListSame(H: Hdrs, H': Hdrs, head: nat, s: seq<nat>)
    requires IsList(H, head, s) && SameOn(H, H', s)
    ensures IsList(H', head, s) && Sum(H', s) == Sum(H, s)
  {
    forall j ensures Linked(H', s, j) {
      assert Linked(H, s, j);
      if 0 <= j < |s| { assert s[j] in s; }
    }
    SumSame(H, H', s);
  }

  /** GC_remove_from_fl on the headers: the neighbours of h are linked together. */
  function Unlink(H: Hdrs, h: nat): (r: Hdrs)
    requires h in H
    ensures r.Keys == H.Keys
    ensures forall x :: x in H && x != H[h].prev && x != H[h].next ==> r[x] == H[x]
    ensures forall x :: x in H ==> r[x].sz == H[x].sz && r[x].free == H[x].free
  {
    var p, n := H[h].prev, H[h].next;
    var H1 := if p in H then H[p := H[p].(next := n)] else H;
    if n in H1 then H1[n := H1[n].(prev := p)] else H1
  }

  lemma UnlinkIsList(H: Hdrs, head: nat, s: seq<nat>, k: nat)
    requires IsList(H, head, s) && k < |s| && 0 !in H
    ensures s[k] in H
    ensures var h, s' := s[k], s[..k] + s[k + 1..];
            IsList(Unlink(H, h), if H[h].prev == 0 then H[h].next else head, s')
  {
    assert Linked(H, s, k);
    var h, s' := s[k], s[..k] + s[k + 1..];
    forall j ensures Linked(Unlink(H, h), s', j) {
      if 0 <= j < |s'| { UnlinkLinked(H, head, s, k, j); }
    }
    if k == 0 { assert s' == s[1..]; } else { assert Linked(H, s, k - 1) && s'[0] == s[0]; }
    WithoutNoDup(s, k);
  }

  lemma UnlinkLinked(H: Hdrs, head: nat, s: seq<nat>, k: nat, j: nat)
    requires IsList(H, head, s) && k < |s| && 0 !in H && j < |s| - 1 && s[k] in H
    ensures Linked(Unlink(H, s[k]), s[..k] + s[k + 1..], j)
  {
    var s' := s[..k] + s[k + 1..];
    var i := if j < k then j else j + 1;
    assert s'[j] == s[i] && Linked(H, s, i) && Linked(H, s, k);
    assert Linked(H, s, k - 1) && Linked(H, s, k + 1);
  }

  lemma WithoutNoDup(s: seq<nat>, k: nat)
    requires NoDup(s) && k < |s|
    ensures NoDup(s[..k] + s[k + 1..])
  {
    var s' := s[..k] + s[k + 1..];
    forall i, j | 0 <= i < j < |s'| ensures s'[i] != s'[j] {
      assert s'[i] == s[if i < k then i else i + 1] && s'[j] == s[if j < k then j else j + 1];
    }
  }

  /** The headers after h was put in front of the list that starts at head. */
  function Link(H: Hdrs, h: nat, head: nat): (r: Hdrs)
    requires h in H && h != head
    ensures r.Keys == H.Keys
    ensures forall x :: x in H && x != h && x != head ==> r[x] == H[x]
    ensures forall x :: x in H ==> r[x].sz == H[x].sz && (x != h ==> r[x].free == H[x].free)
    ensures r[h].free
  {
    var H1 := H[h := H[h].(next := head, prev := 0, free := true)];
    if head in H1 then H1[head := H1[head].(prev := h)] else H1
  }

  lemma LinkIsList(H: Hdrs, head: nat, s: seq<nat>, h: nat)
    requires IsList(H, head, s) && h in H && h !in s && h != 0 && 0 !in H
    ensures h != head && IsList(Link(H, h, head), h, [h] + s)
  {
    assert Linked(H, s, 0);
    var r, s' := Link(H, h, head), [h] + s;
    forall j ensures Linked(r, s', j) {
      if 0 < j < |s'| {
        assert s'[j] == s[j - 1] && Linked(H, s, j - 1);
      }
    }
  }

  lemma SumLinked(H: Hdrs, head: nat, s: seq<nat>, h: nat)
    requires IsList(H, head, s) && h in H && h !in s && h != head
    ensures Sum(Link(H, h, head), [h] + s) == Sum(H, s) + H[h].sz
  {
    var r := Link(H, h, head);
    forall x | x in s ensures x in H {
      var j :| 0 <= j < |s| && s[j] == x;
      assert Linked(H, s, j);
    }
    SumSame(H, r, s);
    assert ([h] + s)[1..] == s;
  }

  // ---------------------------------------------------------------- all lists

  /** The list h belongs on; the block odd, if any, has been left on list oi. */
  ghost function Idx(H: Hdrs, h: nat, odd: nat, oi: nat): nat {
    if h == odd then oi else if h in H then Fl(H[h].sz) else 0
  }

  ghost predicate ListOK(H: Hdrs, head: nat, bytes: int, s: seq<nat>, fs: set<nat>, i: nat, odd: nat, oi: nat) {
    && IsList(H, head, s) && bytes == Sum(H, s)
    && forall h {:trigger h in s} :: h in s ==> h in H && h in fs && Idx(H, h, odd, oi) == i
  }

  /** The lists hold exactly the blocks fs, each once on the list it belongs on,
      and the free bytes of each list are counted. */
  ghost predicate ListsOK(H: Hdrs, heads: seq<nat>, bytes: seq<int>, lists: seq<seq<nat>>, fs: set<nat>, odd: nat,
                          oi: nat) {
    && |heads| == |bytes| == |lists| == N_HBLK_FLS + 1 && 0 !in H && oi <= N_HBLK_FLS
    && (forall i {:trigger lists[i]} ::
            0 <= i <= N_HBLK_FLS ==> ListOK(H, heads[i], bytes[i], lists[i], fs, i, odd, oi))
    && (forall h {:trigger h in fs} :: h in fs ==> h in H && h in lists[Idx(H, h, odd, oi)])
  }

  lemma NeighboursListed(H: Hdrs, head: nat, s: seq<nat>, h: nat)
    requires IsList(H, head, s) && h in s && 0 !in H
    ensures h in H && (H[h].prev == 0 || H[h].prev in s) && (H[h].next == 0 || H[h].next in s)
  {
    var k :| 0 <= k < |s| && s[k] == h;
    assert Linked(H, s, k);
  }

  function Drop(s: seq<nat>, h: nat): (r: seq<nat>) {
    if s == [] then [] else if s[0] == h then s[1..] else [s[0]] + Drop(s[1..], h)
  }

  lemma DropAt(s: seq<nat>, k: nat)
    requires NoDup(s) && k < |s|
    ensures Drop(s, s[k]) == s[..k] + s[k + 1..]
    ensures forall x :: x in Drop(s, s[k]) <==> x in s && x != s[k]
  {
    DropIs(s, k);
    forall x ensures x in s[..k] + s[k + 1..] <==> x in s && x != s[k] { AllButOne(s, k, x); }
  }

  lemma {:induction false} DropIs(s: seq<nat>, k: nat)
    requires NoDup(s) && k < |s|
    ensures Drop(s, s[k]) == s[..k] + s[k + 1..]
    decreases k
  {
    if k == 0 {
      assert s[..0] + s[1..] == s[1..];
    } else {
      var t := s[1..];
      assert NoDup(t) by { assert forall i :: 0 <= i < |t| ==> t[i] == s[i + 1]; }
      DropIs(t, k - 1);
      assert t[k - 1] == s[k] && s[0] != s[k];
      assert s[..k] + s[k + 1..] == [s[0]] + (t[..k - 1] + t[k..]);
    }
  }

  lemma AllButOne(s: seq<nat>, k: nat, x: nat)
    requires NoDup(s) && k < |s|
    ensures x in s[..k] + s[k + 1..] <==> x in s && x != s[k]
  {
    var r := s[..k] + s[k + 1..];
    if x in s && x != s[k] {
      var j :| 0 <= j < |s| && s[j] == x;
      assert r[if j < k then j else j - 1] == x;
    }
    if x in r {
      var j :| 0 <= j < |r| && r[j] == x;
      assert s[if j < k then j else j + 1] == x;
    }
  }

  lemma UnlinkSum(H: Hdrs, head: nat, s: seq<nat>, k: nat)
    requires IsList(H, head, s) && k < |s| && s[k] in H
    ensures Sum(Unlink(H, s[k]), Drop(s, s[k])) == Sum(H, s) - H[s[k]].sz
  {
    var h := s[k];
    DropAt(s, k);
    SumWithout(H, s, k);
    forall x | x in Drop(s, h) ensures x in H {
      var j :| 0 <= j < |s| && s[j] == x;
      assert Linked(H, s, j);
    }
    SumSame(H, Unlink(H, h), Drop(s, h));
  }

  /** Removing h from its list i. */
  lemma RemoveFromList(H: Hdrs, head: nat, bytes: int, s: seq<nat>, fs: set<nat>, i: nat, odd: nat, oi: nat, h: nat)
    requires ListOK(H, head, bytes, s, fs, i, odd, oi) && h in s && 0 !in H
    ensures h in H
    ensures ListOK(Unlink(H, h), if H[h].prev == 0 then H[h].next else head, bytes - H[h].sz, Drop(s, h), fs - {h},
                   i, odd, oi)
    ensures forall x :: x in Drop(s, h) <==> x in s && x != h
  {
    var k :| 0 <= k < |s| && s[k] == h;
    UnlinkIsList(H, head, s, k);
    DropAt(s, k);
    UnlinkSum(H, head, s, k);
  }

  /** The lists other than i, where h and its neighbours are, stay as they are. */
  lemma OtherLists(H: Hdrs, H': Hdrs, heads: seq<nat>, bytes: seq<int>, lists: seq<seq<nat>>, fs: set<nat>, odd: nat,
                   oi: nat, h: nat, i: nat, j: nat)
    requires ListsOK(H, heads, bytes, lists, fs, odd, oi) && i <= N_HBLK_FLS && j <= N_HBLK_FLS && j != i
    requires h in lists[i]
    requires H'.Keys == H.Keys && h in H && forall x :: x in H && x != H[h].prev && x != H[h].next ==> H'[x] == H[x]
    ensures ListOK(H', heads[j], bytes[j], lists[j], fs - {h}, j, odd, oi)
  {
    assert ListOK(H, heads[i], bytes[i], lists[i], fs, i, odd, oi);
    assert ListOK(H, heads[j], bytes[j], lists[j], fs, j, odd, oi);
    NeighboursListed(H, heads[i], lists[i], h);
    IsListSame(H, H', heads[j], lists[j]);
  }

  lemma RemoveKeeps(H: Hdrs, heads: seq<nat>, bytes: seq<int>, lists: seq<seq<nat>>, fs: set<nat>, odd: nat, oi: nat,
                    h: nat)
    requires ListsOK(H, heads, bytes, lists, fs, odd, oi) && h in fs
    ensures h in H
    ensures var i := Idx(H, h, odd, oi);
            i <= N_HBLK_FLS &&
            ListsOK(Unlink(H, h), if H[h].prev == 0 then heads[i := H[h].next] else heads,
                    bytes[i := bytes[i] - H[h].sz],
                    lists[i := Drop(lists[i], h)], fs - {h}, odd, oi)
  {
    var i := Idx(H, h, odd, oi);
    var H' := Unlink(H, h);
    assert ListOK(H, heads[i], bytes[i], lists[i], fs, i, odd, oi);
    RemoveFromList(H, heads[i], bytes[i], lists[i], fs, i, odd, oi, h);
    forall j | 0 <= j <= N_HBLK_FLS && j != i ensures ListOK(H', heads[j], bytes[j], lists[j], fs - {h}, j, odd, oi) {
      OtherLists(H, H', heads, bytes, lists, fs, odd, oi, h, i, j);
    }
  }

  /** Adding h, which is on no list, to the front of the list for its size. */
  lemma AddKeeps(H: Hdrs, heads: seq<nat>, bytes: seq<int>, lists: seq<seq<nat>>, fs: set<nat>, odd: nat, oi: nat,
                 h: nat)
    requires ListsOK(H, heads, bytes, lists, fs, odd, oi) && h in H && h !in fs && h != odd
    ensures var i := Fl(H[h].sz);
            h != heads[i] &&
            ListsOK(Link(H, h, heads[i]), heads[i := h], bytes[i := bytes[i] + H[h].sz],
                    lists[i := [h] + lists[i]], fs + {h}, odd, oi)
  {
    var i := Fl(H[h].sz);
    assert ListOK(H, heads[i], bytes[i], lists[i], fs, i, odd, oi);
    LinkIsList(H, heads[i], lists[i], h);
    SumLinked(H, heads[i], lists[i], h);
    var H' := Link(H, h, heads[i]);
    assert heads[i] != 0 ==> heads[i] in lists[i];
    assert ListOK(H', h, bytes[i] + H[h].sz, [h] + lists[i], fs + {h}, i, odd, oi);
    forall j | 0 <= j <= N_HBLK_FLS && j != i ensures ListOK(H', heads[j], bytes[j], lists[j], fs + {h}, j, odd, oi) {
      assert ListOK(H, heads[j], bytes[j], lists[j], fs, j, odd, oi);
      IsListSame(H, H', heads[j], lists[j]);
    }
  }

  /** Changing headers that are on no list. */
  lemma ListsSame(H: Hdrs, H': Hdrs, heads: seq<nat>, bytes: seq<int>, lists: seq<seq<nat>>, fs: set<nat>, odd: nat,
                  oi: nat)
    requires ListsOK(H, heads, bytes, lists, fs, odd, oi) && 0 !in H'
    requires forall h {:trigger h in fs} :: h in fs ==> h in H' && H'[h] == H[h]
    ensures ListsOK(H', heads, bytes, lists, fs, odd, oi)
  {
    forall j | 0 <= j <= N_HBLK_FLS ensures ListOK(H', heads[j], bytes[j], lists[j], fs, j, odd, oi) {
      assert ListOK(H, heads[j], bytes[j], lists[j], fs, j, odd, oi);
      IsListSame(H, H', heads[j], lists[j]);
    }
  }

  /** The odd block is forgotten once it is on no list. */
  lemma ListsEven(H: Hdrs, heads: seq<nat>, bytes: seq<int>, lists: seq<seq<nat>>, fs: set<nat>, odd: nat, oi: nat)
    requires ListsOK(H, heads, bytes, lists, fs, odd, oi) && odd !in fs
    ensures ListsOK(H, heads, bytes, lists, fs, 0, 0)
  {
    forall j | 0 <= j <= N_HBLK_FLS ensures ListOK(H, heads[j], bytes[j], lists[j], fs, j, 0, 0) {
      assert ListOK(H, heads[j], bytes[j], lists[j], fs, j, odd, oi);
    }
  }

  /** m takes the place of h between its neighbours. */
  function Replace(H: Hdrs, h: nat, m: nat, sz: nat): (r: Hdrs)
    requires h in H && m !in H
    ensures r.Keys == H.Keys + {m} && r[m] == Hdr(sz, true, H[h].prev, H[h].next)
    ensures forall x :: x in H && x != H[h].prev && x != H[h].next ==> r[x] == H[x]
    ensures forall x :: x in H ==> r[x].sz == H[x].sz && r[x].free == H[x].free
  {
    var p, n := H[h].prev, H[h].next;
    var H1 := H[m := Hdr(sz, true, p, n)];
    var H2 := if p in H then H1[p := H1[p].(next := m)] else H1;
    if n in H then H2[n := H2[n].(prev := m)] else H2
  }

  ghost function Subst(s: seq<nat>, h: nat, m: nat): (r: seq<nat>)
    ensures |r| == |s| && forall j :: 0 <= j < |s| ==> r[j] == if s[j] == h then m else s[j]
  {
    seq(|s|, j requires 0 <= j < |s| => if s[j] == h then m else s[j])
  }

  lemma ReplaceIsList(H: Hdrs, head: nat, s: seq<nat>, k: nat, m: nat, sz: nat)
    requires IsList(H, head, s) && k < |s| && 0 !in H && m !in H && m != 0
    ensures s[k] in H
    ensures IsList(Replace(H, s[k], m, sz), if H[s[k]].prev == 0 then m else head, Subst(s, s[k], m))
  {
    assert Linked(H, s, k);
    var h, s' := s[k], Subst(s, s[k], m);
    var r := Replace(H, h, m, sz);
    forall j | 0 <= j < |s| ensures s[j] in H { assert Linked(H, s, j); }
    forall j ensures Linked(r, s', j) {
      if 0 <= j < |s'| {
        assert Linked(H, s, j) && Linked(H, s, k - 1) && Linked(H, s, k + 1);
        assert j != k ==> s'[j] == s[j];
      }
    }
    assert Linked(H, s, 0);
  }

  lemma {:induction false} SumSubst(H: Hdrs, r: Hdrs, s: seq<nat>, k: nat, m: nat)
    requires NoDup(s) && k < |s| && s[k] in H && m in r && m !in s
    requires forall x :: x in s ==> x in H && x in r && r[x].sz == H[x].sz
    ensures Sum(r, Subst(s, s[k], m)) == Sum(H, s) - H[s[k]].sz + r[m].sz
  {
    var s', t := Subst(s, s[k], m), s[1..];
    assert forall x :: x in t ==> x in s;
    if k == 0 {
      assert s'[1..] == t;
      SumSame(H, r, t);
    } else {
      assert s[0] != s[k] && s[0] in s;
      assert s'[1..] == Subst(t, t[k - 1], m);
      SumSubst(H, r, t, k - 1, m);
    }
  }

  lemma ReplaceInList(H: Hdrs, head: nat, bytes: int, s: seq<nat>, fs: set<nat>, i: nat, h: nat, m: nat, sz: nat)
    requires ListOK(H, head, bytes, s, fs, i, 0, 0) && h in s && 0 !in H && m !in H && m != 0
    ensures h in H
    ensures ListOK(Replace(H, h, m, sz), if H[h].prev == 0 then m else head, bytes - H[h].sz + sz, Subst(s, h, m),
                   (fs - {h}) + {m}, i, m, i)
  {
    var k :| 0 <= k < |s| && s[k] == h;
    ReplaceIsList(H, head, s, k, m, sz);
    SumSubst(H, Replace(H, h, m, sz), s, k, m);
    var s' := Subst(s, h, m);
    forall x | x in s' && x != m ensures x in s && x != h {
      var j :| 0 <= j < |s'| && s'[j] == x;
      assert s[j] == x;
    }
  }

  /** m replaces h on its list, which need not be the list for the size of m. */
  lemma ReplaceKeeps(H: Hdrs, heads: seq<nat>, bytes: seq<int>, lists: seq<seq<nat>>, fs: set<nat>, h: nat, m: nat,
                     sz: nat)
    requires ListsOK(H, heads, bytes, lists, fs, 0, 0) && h in fs && m !in H && m != 0
    ensures h in H
    ensures var i := Idx(H, h, 0, 0);
            i <= N_HBLK_FLS &&
            ListsOK(Replace(H, h, m, sz), if H[h].prev == 0 then heads[i := m] else heads,
                    bytes[i := bytes[i] - H[h].sz + sz], lists[i := Subst(lists[i], h, m)], (fs - {h}) + {m}, m, i)
  {
    var i := Idx(H, h, 0, 0);
    var r := Replace(H, h, m, sz);
    assert ListOK(H, heads[i], bytes[i], lists[i], fs, i, 0, 0);
    NeighboursListed(H, heads[i], lists[i], h);
    ReplaceInList(H, heads[i], bytes[i], lists[i], fs, i, h, m, sz);
    forall j | 0 <= j <= N_HBLK_FLS && j != i
      ensures ListOK(r, heads[j], bytes[j], lists[j], (fs - {h}) + {m}, j, m, i)
    {
      assert ListOK(H, heads[j], bytes[j], lists[j], fs, j, 0, 0);
      IsListSame(H, r, heads[j], lists[j]);
    }
    SubstHas(lists[i], h, m);
  }

  lemma SubstHas(s: seq<nat>, h: nat, m: nat)
    ensures h in s ==> m in Subst(s, h, m)
    ensures forall x :: x in s && x != h ==> x in Subst(s, h, m)
  {
    var s' := Subst(s, h, m);
    if h in s {
      var j :| 0 <= j < |s| && s[j] == h;
      assert s'[j] == m;
    }
    forall x | x in s && x != h ensures x in s' {
      var j :| 0 <= j < |s| && s[j] == x;
      assert s'[j] == x;
    }
  }

  // ---------------------------------------------------------------- the partition

  /** Which block of the heap belongs to which header. */
  type Owner = map<nat, nat>

  ghost predicate Owns(owner: Owner, h: nat, x: int) { x in owner && owner[x] == h }

  ghost predicate Piece(H: Hdrs, owner: Owner, h: nat) {
    h in H && 0 < h && 0 < H[h].sz && forall x {:trigger Owns(owner, h, x)} ::
            h <= x < h + H[h].sz ==> Owns(owner, h, x)
  }

  ghost predicate Lies(H: Hdrs, owner: Owner, x: nat) {
    x in owner && owner[x] in H && owner[x] <= x < owner[x] + H[owner[x]].sz
  }

  /** The headers divide the heap: every block of it lies in exactly one piece, and
      the pieces hold nothing else. */
  ghost predicate Divided(H: Hdrs, owner: Owner) {
    && (forall h {:trigger Piece(H, owner, h)} :: h in H ==> Piece(H, owner, h))
    && (forall x {:trigger Lies(H, owner, x)} :: x in owner ==> Lies(H, owner, x))
  }

  ghost predicate IsFree(H: Hdrs, h: nat) { h in H && H[h].free }

  ghost predicate InUse(H: Hdrs, h: nat) { h in H && !H[h].free }

  /** fs are the free pieces. */
  ghost predicate FreeAre(H: Hdrs, fs: set<nat>) {
    forall h {:trigger h in fs} {:trigger IsFree(H, h)} :: h in fs <==> IsFree(H, h)
  }

  ghost predicate FreeAt(H: Hdrs, owner: Owner, x: nat) { x in owner && IsFree(H, owner[x]) }

  /** cover are the blocks in free pieces. */
  ghost predicate Covers(H: Hdrs, owner: Owner, cover: set<nat>) {
    forall x {:trigger x in cover} {:trigger FreeAt(H, owner, x)} :: x in cover <==> FreeAt(H, owner, x)
  }

  /** The pieces in use other than h are the same. */
  ghost predicate SameUsed(H: Hdrs, H': Hdrs, h: nat) {
    forall x {:trigger InUse(H', x)} {:trigger InUse(H, x)} ::
      x != h ==> (InUse(H, x) <==> InUse(H', x)) && (InUse(H, x) ==> H'[x].sz == H[x].sz)
  }

  /** What was in use still is. */
  ghost predicate StillUsed(H: Hdrs, H': Hdrs) {
    forall x {:trigger InUse(H, x)} :: InUse(H, x) ==> InUse(H', x) && H'[x].sz == H[x].sz
  }

  lemma StillTrans(a: Hdrs, b: Hdrs, c: Hdrs)
    requires (UsedAlike(a, b) || StillUsed(a, b)) && StillUsed(b, c)
    ensures StillUsed(a, c)
  {
    forall x: nat | InUse(a, x) ensures InUse(c, x) && c[x].sz == a[x].sz { assert InUse(b, x); }
  }

  /** All pieces in use are the same. */
  ghost predicate UsedAlike(H: Hdrs, H': Hdrs) {
    forall x {:trigger InUse(H', x)} {:trigger InUse(H, x)} ::
      (InUse(H, x) <==> InUse(H', x)) && (InUse(H, x) ==> H'[x].sz == H[x].sz)
  }

  lemma UsedTrans(a: Hdrs, b: Hdrs, c: Hdrs)
    requires UsedAlike(a, b) && UsedAlike(b, c)
    ensures UsedAlike(a, c)
  {
    forall x: nat ensures (InUse(a, x) <==> InUse(c, x)) && (InUse(a, x) ==> c[x].sz == a[x].sz) {
      assert InUse(a, x) <==> InUse(b, x);
    }
  }

  lemma SameUsedTrans(a: Hdrs, b: Hdrs, c: Hdrs, h: nat)
    requires (SameUsed(a, b, h) && UsedAlike(b, c)) || (UsedAlike(a, b) && SameUsed(b, c, h))
    ensures SameUsed(a, c, h)
  {
    forall x: nat | x != h ensures (InUse(a, x) <==> InUse(c, x)) && (InUse(a, x) ==> c[x].sz == a[x].sz) {
      assert InUse(a, x) <==> InUse(b, x);
    }
  }

  /** i are the n blocks from h on. */
  ghost predicate IsInterval(i: set<nat>, h: nat, n: nat) {
    |i| == n && forall x: nat {:trigger x in i} :: x in i <==> h <= x < h + n
  }

  lemma {:induction false} MakeInterval(h: nat, n: nat) returns (i: set<nat>)
    ensures IsInterval(i, h, n)
  {
    i := {};
    if n > 0 {
      var j := MakeInterval(h, n - 1);
      i := j + {h + n - 1};
    }
  }

  lemma SameSize(a: Owner, b: Owner)
    requires a.Keys == b.Keys
    ensures |a| == |b|
  {
    assert |a.Keys| == |a| && |b.Keys| == |b|;
  }

  /** Headers that differ only in flags and links divide the heap alike. */
  lemma SameDivided(H: Hdrs, H': Hdrs, owner: Owner)
    requires Divided(H, owner) && H'.Keys == H.Keys && forall h :: h in H ==> H'[h].sz == H[h].sz
    ensures Divided(H', owner)
  {
    forall h | h in H' ensures Piece(H', owner, h) {
      assert Piece(H, owner, h);
      forall x | h <= x < h + H'[h].sz ensures Owns(owner, h, x) {}
    }
    forall x | x in owner ensures Lies(H', owner, x) { assert Lies(H, owner, x); }
  }

  lemma SizeBound(H: Hdrs, owner: Owner, a: nat, b: nat)
    requires Divided(H, owner) && a in H && b in H && b == a + H[a].sz
    ensures H[a].sz + H[b].sz <= |owner|
  {
    assert Piece(H, owner, a) && Piece(H, owner, b);
    var i := MakeInterval(a, H[a].sz + H[b].sz);
    forall x: nat | x in i ensures x in owner {
      if x < b { assert Owns(owner, a, x); } else { assert Owns(owner, b, x); }
    }
    assert i <= owner.Keys;
    assert owner.Keys == i + (owner.Keys - i);
    assert |owner.Keys| == |owner|;
  }

  /** Blocks a and b are free neighbours. */
  ghost predicate Touch(H: Hdrs, a: nat, b: nat) {
    IsFree(H, a) && IsFree(H, b) && b == a + H[a].sz
  }

  /** No two free blocks are neighbours, except for the block odd and the one
      before it, as long as sizes cannot overflow. */
  ghost predicate Coalesced(H: Hdrs, n: nat, odd: nat) {
    n < LIMIT ==> forall a, b {:trigger Touch(H, a, b)} :: Touch(H, a, b) ==> b == odd
  }

  /** Only the block h may have free neighbours. */
  ghost predicate OnlyAt(H: Hdrs, n: nat, h: nat) {
    n < LIMIT ==> forall a, b {:trigger Touch(H, a, b)} :: Touch(H, a, b) ==> a == h || b == h
  }

  ghost predicate RightClear(H: Hdrs, n: nat, h: nat) {
    n < LIMIT ==> forall b {:trigger Touch(H, h, b)} :: !Touch(H, h, b)
  }

  /** p is the free block that ends at h, or 0 if there is none. */
  ghost predicate EndsAt(H: Hdrs, p: nat, h: nat) {
    if p != 0 then IsFree(H, p) && p + H[p].sz == h
    else forall q: nat {:trigger IsFree(H, q)} :: IsFree(H, q) ==> q + H[q].sz != h
  }

  // ---------------------------------------------------------------- merging

  /** The free piece b has been joined to the free piece a before it. */
  ghost predicate Merged(H: Hdrs, H': Hdrs, a: nat, b: nat) {
    && IsFree(H, a) && IsFree(H, b) && a != b && b == a + H[a].sz
    && H'.Keys == H.Keys - {b} && a in H' && H'[a].sz == H[a].sz + H[b].sz
    && (forall x :: x in H' ==> H'[x].free == H[x].free && (x != a ==> H'[x].sz == H[x].sz))
  }

  ghost function Redirect(owner: Owner, from: nat, to: nat): Owner {
    map x | x in owner :: if owner[x] == from then to else owner[x]
  }

  lemma MergedDivided(H: Hdrs, H': Hdrs, owner: Owner, a: nat, b: nat)
    requires Divided(H, owner) && Merged(H, H', a, b)
    ensures Divided(H', Redirect(owner, b, a))
  {
    var o := Redirect(owner, b, a);
    assert Piece(H, owner, a) && Piece(H, owner, b);
    forall h | h in H' ensures Piece(H', o, h) {
      assert Piece(H, owner, h);
      forall x | h <= x < h + H'[h].sz ensures Owns(o, h, x) {
        if h == a && x >= b { assert Owns(owner, b, x); } else { assert Owns(owner, h, x); }
      }
    }
    forall x | x in o ensures Lies(H', o, x) { assert Lies(H, owner, x); }
  }

  lemma MergedSets(H: Hdrs, H': Hdrs, owner: Owner, fs: set<nat>, cover: set<nat>, a: nat, b: nat)
    requires Divided(H, owner) && Merged(H, H', a, b) && FreeAre(H, fs) && Covers(H, owner, cover)
    ensures FreeAre(H', fs - {b}) && Covers(H', Redirect(owner, b, a), cover) && UsedAlike(H, H')
  {
    var o := Redirect(owner, b, a);
    forall h: nat ensures h in fs - {b} <==> IsFree(H', h) { assert h in fs <==> IsFree(H, h); }
    forall x: nat ensures x in cover <==> FreeAt(H', o, x) { assert x in cover <==> FreeAt(H, owner, x); }
  }

  lemma MergedTouch(H: Hdrs, H': Hdrs, a: nat, b: nat, x: nat, y: nat)
    requires Merged(H, H', a, b) && Touch(H', x, y)
    ensures if x == a then Touch(H, b, y) else Touch(H, x, y)
  {
  }

  lemma MergedNext(H: Hdrs, H': Hdrs, n: nat, h: nat, next: nat)
    requires Merged(H, H', h, next) && OnlyAt(H, n, h)
    ensures OnlyAt(H', n, h) && RightClear(H', n, h)
  {
    forall x, y | Touch(H', x, y) && n < LIMIT ensures x != h && y == h {
      MergedTouch(H, H', h, next, x, y);
    }
  }

  lemma MergedEnds(H: Hdrs, H': Hdrs, h: nat, next: nat, p: nat)
    requires Merged(H, H', h, next) && EndsAt(H, p, h)
    ensures EndsAt(H', p, h)
  {
    if p == 0 {
      forall q: nat | IsFree(H', q) ensures q + H'[q].sz != h { assert IsFree(H, q); }
    }
  }

  lemma MergedPrev(H: Hdrs, H': Hdrs, n: nat, prev: nat, h: nat)
    requires Merged(H, H', prev, h) && OnlyAt(H, n, h) && RightClear(H, n, h) && 0 < prev
    ensures Coalesced(H', n, 0)
  {
    forall x: nat, y: nat | Touch(H', x, y) ensures if x == prev then Touch(H, h, y) else Touch(H, x, y) {
      MergedTouch(H, H', prev, h, x, y);
    }
  }

  // ---------------------------------------------------------------- freeing

  lemma FreedKeeps(H: Hdrs, H': Hdrs, owner: Owner, fs: set<nat>, cover: set<nat>, h: nat)
    requires Divided(H, owner) && FreeAre(H, fs) && Covers(H, owner, cover) && Coalesced(H, |owner|, 0)
    requires InUse(H, h) && H' == H[h := H[h].(free := true)]
    ensures Divided(H', owner) && FreeAre(H', fs + {h}) && h !in fs && SameUsed(H, H', h)
    ensures OnlyAt(H', |owner|, h)
  {
    SameDivided(H, H', owner);
    forall x: nat ensures x in fs + {h} <==> IsFree(H', x) { assert x in fs <==> IsFree(H, x); }
    forall a, b | Touch(H', a, b) && |owner| < LIMIT ensures a == h || b == h {
      assert Piece(H', owner, b);
      assert a != h && b != h ==> Touch(H, a, b);
    }
  }

  lemma FreedCovers(H: Hdrs, H': Hdrs, owner: Owner, cover: set<nat>, i: set<nat>, h: nat)
    requires Divided(H, owner) && Covers(H, owner, cover)
    requires InUse(H, h) && H' == H[h := H[h].(free := true)] && IsInterval(i, h, H[h].sz)
    ensures Covers(H', owner, cover + i) && cover !! i && |cover + i| == |cover| + |i|
  {
    assert Piece(H, owner, h);
    forall x: nat ensures x in cover + i <==> FreeAt(H', owner, x) {
      assert x in cover <==> FreeAt(H, owner, x);
      assert h <= x < h + H[h].sz ==> Owns(owner, h, x);
      assert x in owner ==> Lies(H, owner, x);
    }
    forall x | x in i ensures x !in cover {
      assert Owns(owner, h, x);
      assert !FreeAt(H, owner, x);
    }
  }

  // ---------------------------------------------------------------- taking

  ghost function Divide(owner: Owner, h: nat, m: nat): Owner {
    map x | x in owner :: if owner[x] == h && x >= m then m else owner[x]
  }

  /** The free piece h has been cut in two at m, both free. */
  ghost predicate Cut(H: Hdrs, H': Hdrs, h: nat, m: nat) {
    && IsFree(H, h) && h < m < h + H[h].sz && m !in H
    && H'.Keys == H.Keys + {m} && H'[h].sz == m - h && H'[m].sz == h + H[h].sz - m && H'[m].free
    && (forall x :: x in H ==> H'[x].free == H[x].free && (x != h ==> H'[x].sz == H[x].sz))
  }

  lemma RestIsNew(H: Hdrs, owner: Owner, h: nat, m: nat)
    requires Divided(H, owner) && h in H && h < m < h + H[h].sz
    ensures m !in H
  {
    assert Piece(H, owner, h) && Owns(owner, h, m);
    assert m in H ==> Piece(H, owner, m);
    assert Piece(H, owner, m) ==> Owns(owner, m, m);
  }

  lemma CutDivided(H: Hdrs, H': Hdrs, owner: Owner, h: nat, m: nat)
    requires Divided(H, owner) && Cut(H, H', h, m)
    ensures Divided(H', Divide(owner, h, m))
  {
    var o := Divide(owner, h, m);
    assert Piece(H, owner, h);
    forall y | y in H' ensures Piece(H', o, y) {
      if y == m {
        forall x | m <= x < m + H'[m].sz ensures Owns(o, m, x) { assert Owns(owner, h, x); }
      } else {
        assert Piece(H, owner, y);
        forall x | y <= x < y + H'[y].sz ensures Owns(o, y, x) { assert Owns(owner, y, x); }
      }
    }
    forall x | x in o ensures Lies(H', o, x) { assert Lies(H, owner, x); }
  }

  lemma CutSets(H: Hdrs, H': Hdrs, owner: Owner, fs: set<nat>, cover: set<nat>, h: nat, m: nat)
    requires Divided(H, owner) && Cut(H, H', h, m) && FreeAre(H, fs) && Covers(H, owner, cover)
    ensures FreeAre(H', fs + {m}) && m !in fs && Covers(H', Divide(owner, h, m), cover) && UsedAlike(H, H')
  {
    var o := Divide(owner, h, m);
    forall x: nat ensures x in fs + {m} <==> IsFree(H', x) { assert x in fs <==> IsFree(H, x); }
    assert m in fs <==> IsFree(H, m);
    forall x: nat ensures x in cover <==> FreeAt(H', o, x) {
      assert x in cover <==> FreeAt(H, owner, x);
      assert x in owner ==> Lies(H, owner, x);
    }
  }

  /** After a cut the second part may touch the first, and nothing else is new. */
  lemma CutTouch(H: Hdrs, H': Hdrs, owner: Owner, h: nat, m: nat, odd: nat)
    requires Divided(H', owner) && Cut(H, H', h, m) && Coalesced(H, |owner|, odd) && (odd == 0 || odd == h)
    ensures |owner| < LIMIT ==> forall a, b {:trigger Touch(H', a, b)} :: Touch(H', a, b) ==> b == odd || b == m
  {
    forall a, b | Touch(H', a, b) && |owner| < LIMIT ensures b == odd || b == m {
      assert Piece(H', owner, h) && Piece(H', owner, a) && Piece(H', owner, b);
      if b != m { assert Touch(H, if a == m then h else a, b); }
    }
  }

  /** The free piece h is put to use. */
  lemma UsedKeeps(H: Hdrs, H': Hdrs, owner: Owner, fs: set<nat>, h: nat)
    requires Divided(H, owner) && FreeAre(H, fs)
    requires IsFree(H, h) && H' == H[h := H[h].(free := false)]
    ensures Divided(H', owner) && FreeAre(H', fs - {h}) && SameUsed(H, H', h)
  {
    SameDivided(H, H', owner);
    forall x: nat ensures x in fs - {h} <==> IsFree(H', x) { assert x in fs <==> IsFree(H, x); }
  }

  lemma UsedCovers(H: Hdrs, H': Hdrs, owner: Owner, cover: set<nat>, i: set<nat>, h: nat)
    requires Divided(H, owner) && Covers(H, owner, cover)
    requires IsFree(H, h) && H' == H[h := H[h].(free := false)] && IsInterval(i, h, H[h].sz)
    ensures Covers(H', owner, cover - i) && i <= cover && |cover - i| == |cover| - |i|
  {
    assert Piece(H, owner, h);
    forall x: nat ensures x in cover - i <==> FreeAt(H', owner, x) {
      assert x in cover <==> FreeAt(H, owner, x);
      assert h <= x < h + H[h].sz ==> Owns(owner, h, x);
      assert x in owner ==> Lies(H, owner, x);
    }
    forall x | x in i ensures x in cover {
      assert Owns(owner, h, x);
      assert FreeAt(H, owner, x);
    }
    assert cover == (cover - i) + i;
  }

  lemma UsedTouch(H: Hdrs, H': Hdrs, owner: Owner, h: nat, odd: nat)
    requires Divided(H, owner) && IsFree(H, h) && H' == H[h := H[h].(free := false)]
    requires |owner| < LIMIT ==> forall a, b {:trigger Touch(H, a, b)} ::
            Touch(H, a, b) ==> b == odd || b == h || a == h
    ensures odd == 0 || odd == h ==> Coalesced(H', |owner|, 0)
  {
    forall a, b | Touch(H', a, b) && |owner| < LIMIT && (odd == 0 || odd == h) ensures b == 0 {
      assert Touch(H, a, b);
    }
  }

  // ---------------------------------------------------------------- dropping

  /** The free piece h has been cut into blocks that are all in use. */
  ghost predicate Dropped(H: Hdrs, H': Hdrs, h: nat) {
    && IsFree(H, h)
    && (forall x: nat {:trigger x in H'} {:trigger x in H} :: x in H' <==> x in H || h <= x < h + H[h].sz)
    && (forall x {:trigger H'[x]} :: x in H' ==>
          if h <= x < h + H[h].sz then H'[x].sz == 1 && !H'[x].free
          else H'[x].sz == H[x].sz && H'[x].free == H[x].free)
  }

  ghost function DropOwner(owner: Owner, h: nat): Owner {
    map x | x in owner :: if owner[x] == h then x else owner[x]
  }

  lemma DroppedDivided(H: Hdrs, H': Hdrs, owner: Owner, h: nat)
    requires Divided(H, owner) && Dropped(H, H', h)
    ensures Divided(H', DropOwner(owner, h))
  {
    var o := DropOwner(owner, h);
    assert Piece(H, owner, h);
    forall y | y in H' ensures Piece(H', o, y) {
      if h <= y < h + H[h].sz {
        forall x | y <= x < y + H'[y].sz ensures Owns(o, y, x) { assert Owns(owner, h, x); }
      } else {
        assert Piece(H, owner, y);
        forall x | y <= x < y + H'[y].sz ensures Owns(o, y, x) { assert Owns(owner, y, x); }
      }
    }
    forall x | x in o ensures Lies(H', o, x) {
      assert Lies(H, owner, x);
      var y := owner[x];
      assert Piece(H, owner, y) && Owns(owner, y, y);
      assert h <= y < h + H[h].sz ==> Owns(owner, h, y);
    }
  }

  lemma DroppedSets(H: Hdrs, H': Hdrs, owner: Owner, fs: set<nat>, h: nat)
    requires Divided(H, owner) && Dropped(H, H', h) && FreeAre(H, fs)
    ensures FreeAre(H', fs - {h})
    ensures StillUsed(H, H')
  {
    assert Piece(H, owner, h);
    forall x: nat | x in H && x != h ensures !(h <= x < h + H[h].sz) {
      assert Piece(H, owner, x) && Owns(owner, x, x);
      assert h <= x < h + H[h].sz ==> Owns(owner, h, x);
    }
    forall x: nat ensures x in fs - {h} <==> IsFree(H', x) { assert x in fs <==> IsFree(H, x); }
  }

  lemma DroppedCovers(H: Hdrs, H': Hdrs, owner: Owner, cover: set<nat>, i: set<nat>, h: nat)
    requires Divided(H, owner) && Dropped(H, H', h) && Covers(H, owner, cover) && IsInterval(i, h, H[h].sz)
    ensures Covers(H', DropOwner(owner, h), cover - i) && i <= cover && |cover - i| == |cover| - |i|
  {
    var o := DropOwner(owner, h);
    assert Piece(H, owner, h);
    forall x: nat ensures x in cover - i <==> FreeAt(H', o, x) {
      assert x in cover <==> FreeAt(H, owner, x);
      assert h <= x < h + H[h].sz ==> Owns(owner, h, x);
      if x in owner {
        assert Lies(H, owner, x);
        var y := owner[x];
        assert Piece(H, owner, y) && Owns(owner, y, y);
        assert h <= y < h + H[h].sz ==> Owns(owner, h, y);
      }
    }
    forall x | x in i ensures x in cover {
      assert Owns(owner, h, x);
      assert FreeAt(H, owner, x);
    }
    assert cover == (cover - i) + i;
  }

  lemma DroppedTouch(H: Hdrs, H': Hdrs, h: nat, n: nat)
    requires Dropped(H, H', h) && Coalesced(H, n, 0)
    ensures Coalesced(H', n, 0)
  {
    forall a: nat, b: nat | Touch(H', a, b) ensures Touch(H, a, b) {}
  }

  lemma DroppedKeeps(H: Hdrs, H': Hdrs, owner: Owner, fs: set<nat>, cover: set<nat>, i: set<nat>, h: nat)
    requires Dropped(H, H', h) && IsInterval(i, h, H[h].sz)
    requires Divided(H, owner) && FreeAre(H, fs) && Covers(H, owner, cover) && Coalesced(H, |owner|, 0)
    ensures var o := DropOwner(owner, h);
            && Divided(H', o) && FreeAre(H', fs - {h}) && Covers(H', o, cover - i) && Coalesced(H', |o|, 0)
            && o.Keys == owner.Keys && |o| == |owner| && StillUsed(H, H') && |cover - i| == |cover| - |i|
  {
    DroppedDivided(H, H', owner, h);
    DroppedSets(H, H', owner, fs, h);
    DroppedCovers(H, H', owner, cover, i, h);
    DroppedTouch(H, H', h, |owner|);
    SameSize(owner, DropOwner(owner, h));
  }

  /** The headers differ in their links only. */
  ghost predicate Alike(H: Hdrs, H': Hdrs) {
    H'.Keys == H.Keys && forall x {:trigger H'[x]} :: x in H ==> H'[x].sz == H[x].sz && H'[x].free == H[x].free
  }

  class Allocator {
    var black: BlackList.Lists  // of the last and the current collection
    const blLimit: nat          // BL_LIMIT
    const findLeak: bool
    var count: nat              // blocks that were found to be black-listed throughout
    var H: Hdrs                 // the block headers
    var heads: seq<nat>         // GC_hblkfreelist
    var bytes: seq<int>         // GC_free_bytes
    var large: int              // GC_large_free_bytes
    var heapSize: nat           // GC_heapsize
    ghost var lists: seq<seq<nat>>
    ghost var owner: Owner
    ghost var fs: set<nat>      // the free pieces
    ghost var cover: set<nat>   // the blocks in them

    /** The blocks on are listed. */
    ghost predicate Listed(on: set<nat>, odd: nat, oi: nat)
      reads this`H, this`heads, this`bytes, this`lists
    {
      ListsOK(H, heads, bytes, lists, on, odd, oi)
    }

    /** The heap is divided into pieces, and the free ones are known. */
    ghost predicate Parted()
      reads this`H, this`owner, this`fs, this`cover
    {
      Divided(H, owner) && FreeAre(H, fs) && Covers(H, owner, cover)
    }

    /** The free pieces are listed, counted and coalesced. */
    ghost predicate Sound()
      reads this
    {
      Listed(fs, 0, 0) && Parted() && Coalesced(H, |owner|, 0) && large == |cover|
    }

    /** What holds between calls. */
    ghost predicate Valid()
      reads this
    {
      Sound() && heapSize == |owner|
    }

    /** Free space and used space make up the heap. */
    lemma Conservation(used: set<nat>)
      requires Valid() && forall x :: x in used <==> x in owner && InUse(H, owner[x])
      ensures |used| + large == heapSize
    {
      forall x | x in owner ensures x in used || x in cover {
        assert Lies(H, owner, x);
        assert x in cover <==> FreeAt(H, owner, x);
      }
      forall x | x in cover ensures x in owner && x !in used { assert FreeAt(H, owner, x); }
      assert owner.Keys == used + cover && used !! cover && |owner.Keys| == |owner|;
    }

    /** GC_remove_from_fl. */
    method RemoveFromFl(h: nat, index: nat, ghost on: set<nat>, ghost odd: nat, ghost oi: nat)
      requires Listed(on, odd, oi) && h in on && index == Idx(H, h, odd, oi)
      modifies this`H, this`heads, this`bytes, this`lists
      ensures Listed(on - {h}, odd, oi) && h in H && Alike(old(H), H)
    {
      RemoveKeeps(H, heads, bytes, lists, on, odd, oi, h);
      if H[h].prev == 0 { heads := heads[index := H[h].next]; }
      bytes := bytes[index := bytes[index] - H[h].sz];
      lists := lists[index := Drop(lists[index], h)];
      H := Unlink(H, h);
    }

    /** GC_add_to_fl. */
    method AddToFl(h: nat, ghost on: set<nat>, ghost odd: nat, ghost oi: nat)
      requires Listed(on, odd, oi) && h in H && h !in on && h != odd
      modifies this`H, this`heads, this`bytes, this`lists
      ensures Listed(on + {h}, odd, oi) && Alike(old(H)[h := old(H)[h].(free := true)], H)
    {
      AddKeeps(H, heads, bytes, lists, on, odd, oi, h);
      var index := Fl(H[h].sz);
      var second := heads[index];
      heads := heads[index := h];
      bytes := bytes[index := bytes[index] + H[h].sz];
      lists := lists[index := [h] + lists[index]];
      H := Link(H, h, second);
    }

    /** GC_free_block_ending_at: the free block that ends where h starts, if any. */
    method FreeBlockEndingAt(h: nat) returns (p: nat)
      requires Divided(H, owner) && h > 0
      ensures EndsAt(H, p, h)
    {
      p := h - 1;
      while p > 0 && p !in H
        invariant p < h && forall q :: p < q < h ==> q !in H
      {
        p := p - 1;
      }
      ghost var last := p;
      forall q: nat | q in H && q + H[q].sz == h ensures q == last {
        assert Piece(H, owner, q);
        if p in H {
          assert Piece(H, owner, p);
          assert Owns(owner, q, p) && Owns(owner, p, p);
        }
      }
      assert 0 in H ==> Piece(H, owner, 0);
      if p !in H || !H[p].free || p + H[p].sz != h { p := 0; }
    }

    constructor (black: BlackList.Lists, blLimit: nat, findLeak: bool)
      ensures Valid() && owner == map[] && this.black == black
    {
      this.black, this.blLimit, this.findLeak := black, blLimit, findLeak;
      H, large, heapSize, count := map[], 0, 0, 0;
      heads, bytes := seq(N_HBLK_FLS + 1, _ => 0), seq(N_HBLK_FLS + 1, _ => 0);
      lists, owner, fs, cover := seq(N_HBLK_FLS + 1, _ => []), map[], {}, {};
    }

    // -------------------------------------------------------------- freeing

    /** The block h is free but not on a list. */
    ghost predicate Loose(h: nat)
      reads this`H, this`heads, this`bytes, this`lists, this`owner, this`fs, this`cover
    {
      h in fs && Listed(fs - {h}, 0, 0) && Parted()
    }

    /** Join the free block b to the block a before it; on is the one of them that
        is on a list. */
    method Merge(a: nat, b: nat, on: nat)
      requires Parted() && a in fs && b in fs && b == a + H[a].sz && a != b && (on == a || on == b)
      requires Listed(fs - {if on == a then b else a}, 0, 0)
      modifies this`H, this`heads, this`bytes, this`lists, this`owner, this`fs
      ensures Loose(a) && Merged(old(H), H, a, b) && owner.Keys == old(owner).Keys && UsedAlike(old(H), H)
    {
      ghost var H0, G := H, fs - {a} - {b};
      RemoveFromFl(on, Fl(H[on].sz), fs - {if on == a then b else a}, 0, 0);
      assert fs - {if on == a then b else a} - {on} == G;
      ghost var H1 := H;
      H := H[a := H[a].(sz := H[a].sz + H[b].sz)] - {b};
      ListsSame(H1, H, heads, bytes, lists, G, 0, 0);
      MergedDivided(H0, H, owner, a, b);
      MergedSets(H0, H, owner, fs, cover, a, b);
      owner, fs := Redirect(owner, b, a), fs - {b};
      assert fs - {a} == G;
    }

    /** Coalesce with the successor, if possible. */
    method CoalesceNext(hbp: nat, ghost prev: nat)
      requires Loose(hbp) && OnlyAt(H, |owner|, hbp) && EndsAt(H, prev, hbp)
      modifies this`H, this`heads, this`bytes, this`lists, this`owner, this`fs
      ensures Loose(hbp) && OnlyAt(H, |owner|, hbp) && RightClear(H, |owner|, hbp) && EndsAt(H, prev, hbp)
      ensures owner.Keys == old(owner).Keys && UsedAlike(old(H), H)
    {
      var next := hbp + H[hbp].sz;
      assert Piece(H, owner, hbp);
      if next in H && H[next].free {
        assert IsFree(H, next);
        SizeBound(H, owner, hbp, next);
        if H[hbp].sz + H[next].sz < LIMIT {
          ghost var H0, n := H, |owner|;
          assert |owner.Keys| == n;
          Merge(hbp, next, next);
          assert |owner.Keys| == |owner|;
          MergedNext(H0, H, n, hbp, next);
          MergedEnds(H0, H, hbp, next, prev);
        }
      }
    }

    /** Coalesce with the predecessor, if possible. */
    method CoalescePrev(hbp: nat, prev: nat) returns (h: nat)
      requires Loose(hbp) && OnlyAt(H, |owner|, hbp) && RightClear(H, |owner|, hbp) && EndsAt(H, prev, hbp)
      modifies this`H, this`heads, this`bytes, this`lists, this`owner, this`fs
      ensures Loose(h) && Coalesced(H, |owner|, 0)
      ensures owner.Keys == old(owner).Keys && UsedAlike(old(H), H)
    {
      h := hbp;
      if prev != 0 {
        assert Piece(H, owner, prev);
        SizeBound(H, owner, prev, hbp);
        if H[hbp].sz + H[prev].sz < LIMIT {
          ghost var H0, n := H, |owner|;
          assert |owner.Keys| == n;
          Merge(prev, hbp, prev);
          assert |owner.Keys| == |owner|;
          MergedPrev(H0, H, n, prev, hbp);
          h := prev;
        }
      }
    }

    /** The header of hbp is marked free. */
    method MarkFree(hbp: nat, ghost i: set<nat>)
      requires Listed(fs, 0, 0) && Parted() && Coalesced(H, |owner|, 0) && InUse(H, hbp)
      requires IsInterval(i, hbp, H[hbp].sz)
      modifies this`H, this`fs, this`cover
      ensures Loose(hbp) && OnlyAt(H, |owner|, hbp) && SameUsed(old(H), H, hbp) && H[hbp].sz == old(H)[hbp].sz
      ensures cover == old(cover) + i && old(cover) !! i && |cover| == |old(cover)| + H[hbp].sz
    {
      ghost var H0 := H;
      H := H[hbp := H[hbp].(free := true)];
      FreedKeeps(H0, H, owner, fs, cover, hbp);
      FreedCovers(H0, H, owner, cover, i, hbp);
      ListsSame(H0, H, heads, bytes, lists, fs, 0, 0);
      assert fs + {hbp} - {hbp} == fs;
      fs, cover := fs + {hbp}, cover + i;
    }

    /** The block is put on the list for its size. */
    method Attach(hbp: nat)
      requires Loose(hbp) && Coalesced(H, |owner|, 0)
      modifies this`H, this`heads, this`bytes, this`lists
      ensures Listed(fs, 0, 0) && Parted() && Coalesced(H, |owner|, 0) && UsedAlike(old(H), H)
    {
      ghost var H1 := H;
      assert hbp != 0 && H[hbp].free by { assert Piece(H, owner, hbp); }
      AddToFl(hbp, fs - {hbp}, 0, 0);
      assert fs - {hbp} + {hbp} == fs;
      AlikeParted(H1, H, owner, fs, cover, |owner|, 0);
    }

    /** Join hbp0, free but on no list, to its free neighbours. */
    method Coalesce(hbp0: nat) returns (hbp: nat)
      requires Loose(hbp0) && OnlyAt(H, |owner|, hbp0)
      modifies this`H, this`heads, this`bytes, this`lists, this`owner, this`fs
      ensures Loose(hbp) && Coalesced(H, |owner|, 0) && |owner| == |old(owner)|
      ensures owner.Keys == old(owner).Keys && UsedAlike(old(H), H)
    {
      assert Piece(H, owner, hbp0);
      var prev := FreeBlockEndingAt(hbp0);
      CoalesceNext(hbp0, prev);
      ghost var H1 := H;
      hbp := CoalescePrev(hbp0, prev);
      UsedTrans(old(H), H1, H);
      SameSize(old(owner), owner);
    }

    /** GC_freehblk without the accounting. */
    method Release(hbp0: nat, ghost i: set<nat>)
      requires Listed(fs, 0, 0) && Parted() && Coalesced(H, |owner|, 0) && InUse(H, hbp0)
      requires IsInterval(i, hbp0, H[hbp0].sz)
      modifies this`H, this`heads, this`bytes, this`lists, this`owner, this`fs, this`cover
      ensures Listed(fs, 0, 0) && Parted() && Coalesced(H, |owner|, 0) && SameUsed(old(H), H, hbp0)
      ensures owner.Keys == old(owner).Keys && |owner| == |old(owner)|
      ensures cover == old(cover) + i && old(cover) !! i && |cover| == |old(cover)| + old(H)[hbp0].sz
      ensures !InUse(H, hbp0)
    {
      MarkFree(hbp0, i);
      ghost var H1, n := H, |cover|;
      var hbp := Coalesce(hbp0);
      ghost var H2 := H;
      Attach(hbp);
      assert |cover| == n;
      assert IsFree(H1, hbp0) && !InUse(H1, hbp0);
      UsedTrans(H1, H2, H);
      SameUsedTrans(old(H), H1, H, hbp0);
    }

    /** GC_freehblk: the block becomes free, merged with its free neighbours. */
    method Free(hbp: nat, ghost i: set<nat>)
      requires Sound() && InUse(H, hbp) && IsInterval(i, hbp, H[hbp].sz)
      modifies this`H, this`heads, this`bytes, this`lists, this`owner, this`fs, this`cover, this`large
      ensures Sound() && owner.Keys == old(owner).Keys && |owner| == |old(owner)| && SameUsed(old(H), H, hbp)
      ensures cover == old(cover) + i && old(cover) !! i && !InUse(H, hbp)
    {
      large := large + H[hbp].sz;
      Release(hbp, i);
    }

    // -------------------------------------------------------------- allocating

    /** Cut the free block h, which is on no list, after n blocks and put the rest
        on the list for its size. */
    method CutRest(h: nat, n: nat)
      requires Loose(h) && 0 < n < H[h].sz
      modifies this`H, this`heads, this`bytes, this`lists, this`owner, this`fs
      ensures Loose(h) && Cut(old(H), H, h, h + n) && owner.Keys == old(owner).Keys
    {
      ghost var H0, G := H, fs - {h};
      RestIsNew(H, owner, h, h + n);
      assert H[h].free && (h + n in G ==> IsFree(H, h + n)) by { assert IsFree(H, h); }
      PutRest(h, n, G);
      CutDivided(H0, H, owner, h, h + n);
      CutSets(H0, H, owner, fs, cover, h, h + n);
      owner, fs := Divide(owner, h, h + n), fs + {h + n};
      assert fs - {h} == G + {h + n};
    }

    /** The headers and the list part of it. */
    method PutRest(h: nat, n: nat, ghost G: set<nat>)
      requires Listed(G, 0, 0) && h in H && h !in G && H[h].free && h + n !in H && h + n !in G && 0 < n < H[h].sz
      modifies this`H, this`heads, this`bytes, this`lists
      ensures Listed(G + {h + n}, 0, 0) && Cut(old(H), H, h, h + n)
    {
      ghost var H0 := H;
      var total := H[h].sz;
      H := H[h := H[h].(sz := n)][h + n := Hdr(total - n, false, 0, 0)];
      ListsSame(H0, H, heads, bytes, lists, G, 0, 0);
      AddToFl(h + n, G, 0, 0);
    }

    /** GC_split_block: the free block h is cut at m.  m takes its place on list
        index, which may be the wrong one, and h goes to the list for its size. */
    method SplitBlock(h: nat, m: nat, index: nat)
      requires Listed(fs, 0, 0) && Parted() && Coalesced(H, |owner|, 0)
      requires h in fs && h < m < h + H[h].sz && index == Fl(H[h].sz)
      modifies this`H, this`heads, this`bytes, this`lists, this`owner, this`fs
      ensures Listed(fs, m, index) && Parted() && Coalesced(H, |owner|, m)
      ensures m in fs && H[m].sz == old(H)[h].sz - (m - h) && owner.Keys == old(owner).Keys && UsedAlike(old(H), H)
    {
      ghost var H0, o0 := H, owner;
      assert IsFree(H, h);
      RestIsNew(H, owner, h, m);
      assert m !in fs by { assert m in fs ==> IsFree(H, m); }
      TakePlace(h, m, index);
      CutDivided(H0, H, owner, h, m);
      CutSets(H0, H, owner, fs, cover, h, m);
      owner, fs := Divide(owner, h, m), fs + {m};
      SameSize(o0, owner);
      CutTouch(H0, H, owner, h, m, 0);
      assert forall x :: x in H ==> 0 < x by { assert forall x :: x in H ==> Piece(H, owner, x); }
    }

    /** The list part of it. */
    method TakePlace(h: nat, m: nat, index: nat)
      requires Listed(fs, 0, 0) && FreeAre(H, fs) && h in fs && IsFree(H, h) && m !in H && m !in fs
      requires h < m < h + H[h].sz && index == Fl(H[h].sz)
      modifies this`H, this`heads, this`bytes, this`lists
      ensures Listed(fs + {m}, m, index) && Cut(old(H), H, h, m)
    {
      ghost var H0, G := H, (fs - {h}) + {m};
      Relink(h, m, H[h].sz - (m - h), index, G);
      Shorten(h, m - h, m, index, G);
      assert G + {h} == fs + {m};
    }

    /** m, of mSize blocks, is put in the place of h on list index. */
    method Relink(h: nat, m: nat, mSize: nat, index: nat, ghost G: set<nat>)
      requires Listed(fs, 0, 0) && h in fs && h in H && m !in H && m != 0 && index == Fl(H[h].sz)
      requires mSize <= H[h].sz && G == (fs - {h}) + {m}
      modifies this`H, this`heads, this`bytes, this`lists
      ensures Listed(G, m, index) && H == Replace(old(H), h, m, mSize)
    {
      ReplaceKeeps(H, heads, bytes, lists, fs, h, m, mSize);
      var prev, less := H[h].prev, H[h].sz - mSize;
      H := Replace(H, h, m, mSize);
      if prev == 0 { heads := heads[index := m]; }
      bytes := bytes[index := bytes[index] - less];
      lists := lists[index := Subst(lists[index], h, m)];
    }

    method Shorten(h: nat, hSize: nat, ghost m: nat, ghost index: nat, ghost G: set<nat>)
      requires Listed(G, m, index) && h in H && h !in G && h != m && H[h].free && m in H
      modifies this`H, this`heads, this`bytes, this`lists
      ensures Listed(G + {h}, m, index) && Alike(old(H)[h := old(H)[h].(sz := hSize)], H)
    {
      ghost var H1 := H;
      H := H[h := H[h].(sz := hSize)];
      ListsSame(H1, H, heads, bytes, lists, G, m, index);
      AddToFl(h, G, m, index);
    }

    /** setup_header: the free block h, which is on no list, is put to use. */
    method Use(h: nat, ghost i: set<nat>)
      requires Loose(h) && IsInterval(i, h, H[h].sz)
      requires |owner| < LIMIT ==> forall a, b {:trigger Touch(H, a, b)} :: Touch(H, a, b) ==> b == h || a == h
      modifies this`H, this`fs, this`cover
      ensures Listed(fs, 0, 0) && Parted() && Coalesced(H, |owner|, 0)
      ensures SameUsed(old(H), H, h) && InUse(H, h) && H[h].sz == old(H)[h].sz
      ensures cover == old(cover) - i && i <= old(cover) && |cover| == |old(cover)| - H[h].sz
    {
      ghost var H0 := H;
      assert IsFree(H, h);
      H := H[h := H[h].(free := false)];
      UsedKeeps(H0, H, owner, fs, h);
      UsedCovers(H0, H, owner, cover, i, h);
      UsedTouch(H0, H, owner, h, 0);
      ListsSame(H0, H, heads, bytes, lists, fs - {h}, 0, 0);
      fs, cover := fs - {h}, cover - i;
    }

    /** GC_get_first_part and setup_header: allocate the first n blocks of the free
        block h, which is on list index. */
    method GetFirstPart(h: nat, n: nat, index: nat, ghost odd: nat, ghost oi: nat, ghost i: set<nat>)
      requires Listed(fs, odd, oi) && Parted() && Coalesced(H, |owner|, odd) && (odd == 0 || odd == h)
      requires h in fs && index == Idx(H, h, odd, oi) && 0 < n <= H[h].sz && IsInterval(i, h, n)
      modifies this`H, this`heads, this`bytes, this`lists, this`owner, this`fs, this`cover
      ensures Listed(fs, 0, 0) && Parted() && Coalesced(H, |owner|, 0)
      ensures SameUsed(old(H), H, h) && InUse(H, h) && H[h].sz == n
      ensures owner.Keys == old(owner).Keys
      ensures cover == old(cover) - i && i <= old(cover) && |cover| == |old(cover)| - n
    {
      ghost var H0 := H;
      assert IsFree(H, h);
      assert Piece(H, owner, h);
      RemoveFromFl(h, index, fs, odd, oi);
      ListsEven(H, heads, bytes, lists, fs - {h}, odd, oi);
      AlikeParted(H0, H, owner, fs, cover, |owner|, odd);
      ghost var H1 := H;
      if H[h].sz > n {
        SplitOff(h, n, odd);
      }
      ghost var H2 := H;
      Use(h, i);
      UsedTrans(H0, H1, H2);
      SameUsedTrans(H0, H2, H, h);
    }

    method SplitOff(h: nat, n: nat, ghost odd: nat)
      requires Loose(h) && 0 < n < H[h].sz && Coalesced(H, |owner|, odd) && (odd == 0 || odd == h)
      modifies this`H, this`heads, this`bytes, this`lists, this`owner, this`fs
      ensures Loose(h) && H[h].sz == n && owner.Keys == old(owner).Keys && UsedAlike(old(H), H)
      ensures |owner| < LIMIT ==> forall a, b {:trigger Touch(H, a, b)} :: Touch(H, a, b) ==> b == h || a == h
    {
      ghost var H0, o0 := H, owner;
      CutRest(h, n);
      SameSize(o0, owner);
      CutTouch(H0, H, owner, h, h + n, odd);
      CutUsed(H0, H, h, h + n);
      forall a, b | Touch(H, a, b) && |owner| < LIMIT ensures b == h || a == h {
        assert b == odd || b == h + n;
        if b == h + n { EndsOnce(H, owner, a, h); } else { assert Piece(H, owner, b); }
      }
    }

    /** Allocate and drop the free block h on list index in single blocks. */
    method DropBlock(h: nat, index: nat, ghost i: set<nat>)
      requires Sound() && h in fs && index == Fl(H[h].sz) && IsInterval(i, h, H[h].sz)
      modifies this`H, this`heads, this`bytes, this`lists, this`owner, this`fs, this`cover, this`large
      ensures Sound() && owner.Keys == old(owner).Keys && |owner| == |old(owner)| && StillUsed(old(H), H)
      ensures cover == old(cover) - i && |cover| < |old(cover)|
      ensures fs == old(fs) - {h} && forall x :: x in fs ==> x in H && H[x].sz == old(H)[x].sz
    {
      assert IsFree(H, h);
      assert Piece(H, owner, h);
      large := large - H[h].sz;
      DropPiece(h, index, i);
    }

    method DropPiece(h: nat, index: nat, ghost i: set<nat>)
      requires Listed(fs, 0, 0) && Parted() && Coalesced(H, |owner|, 0)
      requires h in fs && IsFree(H, h) && index == Fl(H[h].sz) && IsInterval(i, h, H[h].sz)
      modifies this`H, this`heads, this`bytes, this`lists, this`owner, this`fs, this`cover
      ensures Listed(fs, 0, 0) && Parted() && Coalesced(H, |owner|, 0)
      ensures owner.Keys == old(owner).Keys && |owner| == |old(owner)| && StillUsed(old(H), H)
      ensures cover == old(cover) - i && |cover| == |old(cover)| - old(H)[h].sz
      ensures fs == old(fs) - {h} && forall x :: x in fs ==> x in H && H[x].sz == old(H)[x].sz
    {
      ghost var H0 := H;
      Detach(h, index);
      ghost var H1 := H;
      Singles(h, H[h].sz);
      Disown(h, i, H1);
      StillTrans(H0, H1, H);
    }

    /** The blocks of h, which was free in H1, own themselves. */
    ghost method Disown(h: nat, i: set<nat>, H1: Hdrs)
      requires Dropped(H1, H, h) && IsInterval(i, h, H1[h].sz) && Coalesced(H1, |owner|, 0)
      requires Divided(H1, owner) && FreeAre(H1, fs) && Covers(H1, owner, cover)
      modifies this`owner, this`fs, this`cover
      ensures Parted() && Coalesced(H, |owner|, 0) && StillUsed(H1, H)
      ensures owner.Keys == old(owner).Keys && |owner| == |old(owner)|
      ensures fs == old(fs) - {h} && cover == old(cover) - i && |cover| == |old(cover)| - |i|
    {
      DroppedKeeps(H1, H, owner, fs, cover, i, h);
      owner, fs, cover := DropOwner(owner, h), fs - {h}, cover - i;
    }

    /** Take the free block h off its list. */
    method Detach(h: nat, index: nat)
      requires Listed(fs, 0, 0) && Parted() && Coalesced(H, |owner|, 0)
      requires h in fs && h in H && index == Fl(H[h].sz)
      modifies this`H, this`heads, this`bytes, this`lists
      ensures Listed(fs - {h}, 0, 0) && Parted() && Coalesced(H, |owner|, 0)
      ensures Alike(old(H), H) && UsedAlike(old(H), H)
    {
      ghost var H0 := H;
      RemoveFromFl(h, index, fs, 0, 0);
      AlikeParted(H0, H, owner, fs, cover, |owner|, 0);
    }

    /** Set up a header of its own for each of the total blocks of h. */
    method Singles(h: nat, total: nat)
      requires h in fs && Listed(fs - {h}, 0, 0) && Divided(H, owner) && FreeAre(H, fs) && total == H[h].sz
      modifies this`H
      ensures Dropped(old(H), H, h) && Listed(fs - {h}, 0, 0)
      ensures forall x :: x in fs && x != h ==> x in H && H[x] == old(H)[x]
    {
      assert IsFree(H, h);
      assert Piece(H, owner, h);
      ghost var H0 := H;
      forall x: nat | x in fs - {h} ensures x in H && !(h <= x < h + total) {
        assert IsFree(H, x);
        assert Piece(H, owner, x) && Owns(owner, x, x);
        assert h <= x < h + total ==> Owns(owner, h, x);
      }
      var j := 0;
      while j < total
        invariant j <= total
        invariant forall x: nat {:trigger x in H} {:trigger x in H0} :: x in H <==> x in H0 || h <= x < h + j
        invariant forall x {:trigger H[x]} :: x in H ==> H[x] == if h <= x < h + j then Hdr(1, false, 0, 0) else H0[x]
      {
        H := H[h + j := Hdr(1, false, 0, 0)];
        j := j + 1;
      }
      ListsSame(H0, H, heads, bytes, lists, fs - {h}, 0, 0);
    }

    // -------------------------------------------------------------- the search

    /** What GC_allochblk_nth does with a free block: skip it, take n blocks of it
        at some place, or find it black-listed throughout. */
    method Consider(hbp: nat, n: nat, eff: nat, exempt: bool, maySplit: bool) returns (c: Choice)
      requires hbp in H && n > 0 && (H[hbp].next != 0 ==> H[hbp].next in H)
      requires black.Valid()
      ensures c.Take? ==> hbp <= c.at && c.at + n <= hbp + H[hbp].sz && (H[hbp].sz == n || maySplit)
      ensures c.Take? && exempt ==> c.at == hbp
      ensures c.Take? && !exempt ==>
                || FirstUnlisted(hbp, c.at, eff)
                || (c.at == hbp && n > blLimit && H[hbp].sz - n > blLimit && AllListed(hbp, n, eff))
      ensures c.GiveUp? ==> !exempt && n == 1 && AllListed(hbp, n, eff)
      ensures c.Skip? ==>
                || H[hbp].sz < n || (H[hbp].sz != n && !maySplit) || (!exempt && AllListed(hbp, n, eff))
                || (&& maySplit && H[hbp].next != 0 && n <= H[H[hbp].next].sz < H[hbp].sz
                    && !BlackList.Listed(black, H[hbp].next, n))
    {
      var avail := H[hbp].sz;
      if avail < n { return Skip; }
      if avail != n {
        if !maySplit { return Skip; }
        var next := H[hbp].next;
        if next != 0 && H[next].sz < avail && H[next].sz >= n {
          var listed := BlackList.IsBlackListed(black, next, n);
          if listed == 0 { return Skip; }
        }
      }
      if exempt { return Take(hbp); }
      var last := BlackList.FirstAcceptable(black, hbp, hbp + avail - n, eff);
      var left := avail - (last - hbp);
      if left >= n { return Take(last); }
      if n > blLimit && avail - n > blLimit { return Take(hbp); }
      if left == 0 && n == 1 && !findLeak { return GiveUp; }
      return Skip;
    }

    /** No piece that starts between hbp and at would be acceptable, but one at at. */
    ghost predicate FirstUnlisted(hbp: nat, at: nat, eff: nat)
      requires black.Valid()
      reads this
    {
      && !BlackList.Listed(black, at, eff)
      && forall s {:trigger BlackList.Listed(black, s, eff)} :: hbp <= s < at ==> BlackList.Listed(black, s, eff)
    }

    /** No piece of n blocks in the free block hbp would be acceptable. */
    ghost predicate AllListed(hbp: nat, n: nat, eff: nat)
      requires black.Valid() && hbp in H
      reads this
    {
      forall s: nat {:trigger BlackList.Listed(black, s, eff)} ::
        hbp <= s && s + n <= hbp + H[hbp].sz ==> BlackList.Listed(black, s, eff)
    }

    /** Allocate n blocks at at, inside the free block hbp on list index. */
    method TakeAt(hbp: nat, at: nat, n: nat, index: nat, ghost i: set<nat>)
      requires Sound() && hbp in fs && index == Fl(H[hbp].sz) && n > 0
      requires hbp <= at && at + n <= hbp + H[hbp].sz && IsInterval(i, at, n)
      modifies this`H, this`heads, this`bytes, this`lists, this`owner, this`fs, this`cover, this`large
      ensures Sound() && owner.Keys == old(owner).Keys && |owner| == |old(owner)|
      ensures SameUsed(old(H), H, at) && InUse(H, at) && H[at].sz == n
      ensures cover == old(cover) - i && i <= old(cover)
    {
      ghost var H0, o0 := H, owner;
      large := large - n;
      if at != hbp {
        SplitBlock(hbp, at, index);
        ghost var H1 := H;
        GetFirstPart(at, n, index, at, index, i);
        SameUsedTrans(H0, H1, H, at);
      } else {
        GetFirstPart(hbp, n, index, 0, 0, i);
      }
      SameSize(o0, owner);
    }

    /** hbp is the k-th block of list index, or 0 after the last. */
    ghost predicate At(index: nat, k: nat, hbp: nat)
      requires index < |lists|
      reads this`lists
    {
      if k < |lists[index]| then hbp == lists[index][k] && hbp != 0 else k == |lists[index]| && hbp == 0
    }

    lemma OnList(index: nat, k: nat)
      requires Listed(fs, 0, 0) && index <= N_HBLK_FLS && k < |lists[index]|
      ensures var h := lists[index][k];
              h in fs && h in H && h != 0 && Fl(H[h].sz) == index && At(index, k + 1, H[h].next)
              && (H[h].next != 0 ==> H[h].next in H)
              && H[h].prev == (if k == 0 then 0 else lists[index][k - 1])
    {
      var s := lists[index];
      assert ListOK(H, heads[index], bytes[index], s, fs, index, 0, 0);
      assert s[k] in s && Linked(H, s, k) && Linked(H, s, k + 1);
    }

    lemma ListHead(index: nat)
      requires Listed(fs, 0, 0) && index <= N_HBLK_FLS
      ensures At(index, 0, heads[index])
    {
      assert ListOK(H, heads[index], bytes[index], lists[index], fs, index, 0, 0);
      assert Linked(H, lists[index], 0);
    }

    /** Blocks n can be allocated from block h, whose size must fit exactly unless
        it may be split. */
    ghost predicate Fits(h: nat, n: nat, maySplit: bool)
      reads this`H
    {
      h in H && (H[h].sz == n || (maySplit && H[h].sz > n))
    }

    /** Block j of the list does not fit, or the next one fits and is better. */
    ghost predicate PassedOver(index: nat, j: nat, n: nat, maySplit: bool)
      requires index < |lists|
      reads this`H, this`lists
    {
      var s := lists[index];
      j < |s| ==> !Fits(s[j], n, maySplit) || (maySplit && j + 1 < |s| && Fits(s[j + 1], n, maySplit))
    }

    /** If every block was passed over then none fits. */
    lemma {:induction false} NoFit(index: nat, n: nat, maySplit: bool, j: nat)
      requires index < |lists| && j <= |lists[index]|
      requires forall m: nat {:trigger PassedOver(index, m, n, maySplit)} :: PassedOver(index, m, n, maySplit)
      ensures forall m :: j <= m < |lists[index]| ==> !Fits(lists[index][m], n, maySplit)
      decreases |lists[index]| - j
    {
      if j < |lists[index]| {
        NoFit(index, n, maySplit, j + 1);
        assert PassedOver(index, j, n, maySplit);
      }
    }

    /** Go through list index from its k-th block hbp on, to the first block that
        is taken or dropped.  Every fourth block given up is dropped. */
    method Search(hbp0: nat, n: nat, eff: nat, exempt: bool, index: nat, maySplit: bool, ghost k0: nat)
      returns (hbp: nat, c: Choice)
      requires Listed(fs, 0, 0) && n > 0 && index <= N_HBLK_FLS && At(index, k0, hbp0)
      requires black.Valid()
      requires exempt ==> k0 == 0
      modifies this`count
      ensures hbp == 0 <==> c.Skip?
      ensures hbp != 0 ==> hbp in lists[index] && hbp in fs && Fl(H[hbp].sz) == index
      ensures c.Take? ==> hbp <= c.at && c.at + n <= hbp + H[hbp].sz && (H[hbp].sz == n || maySplit)
      ensures c.Take? && !exempt && n <= blLimit ==> !BlackList.Listed(black, c.at, eff)
      ensures exempt ==> !c.GiveUp?
      ensures exempt && hbp == 0 ==> forall h :: h in lists[index] ==> !Fits(h, n, maySplit)
    {
      hbp, c := hbp0, Skip;
      ghost var k := k0;
      while hbp != 0
        invariant At(index, k, hbp)
        invariant exempt ==> forall j: nat {:trigger PassedOver(index, j, n, maySplit)} ::
                j < k ==> PassedOver(index, j, n, maySplit)
        decreases |lists[index]| - k
      {
        OnList(index, k);
        c := Consider(hbp, n, eff, exempt, maySplit);
        if c.Take? { return; }
        if c.GiveUp? {
          count := count + 1;
          if count % 4 == 0 { return; }
        }
        hbp, k := H[hbp].next, k + 1;
      }
      c := Skip;
      if exempt { NoFit(index, n, maySplit, 0); }
    }

    /** The heap has not grown, and what was in use still is. */
    ghost predicate From(H0: Hdrs, o0: Owner, c0: set<nat>)
      reads this`H, this`owner, this`cover
    {
      StillUsed(H0, H) && owner.Keys == o0.Keys && |owner| == |o0| && cover <= c0
    }

    /** GC_allochblk_nth: allocate n blocks from list index.  Kinds exempt from
        black-listing get 0 only if no block of the list fits. */
    method AllocNth(n: nat, eff: nat, exempt: bool, index: nat, maySplit: bool) returns (r: nat)
      requires Sound() && n > 0 && index <= N_HBLK_FLS
      requires black.Valid()
      modifies this`H, this`heads, this`bytes, this`lists, this`owner, this`fs, this`cover, this`large, this`count
      ensures Sound() && From(old(H), old(owner), old(cover))
      ensures r != 0 ==> InUse(H, r) && H[r].sz == n && !InUse(old(H), r)
      ensures r != 0 ==> forall x :: r <= x < r + n ==> x in old(cover) && x !in cover
      ensures r != 0 && !exempt && n <= blLimit ==> !BlackList.Listed(black, r, eff)
      ensures exempt && r == 0 ==> H == old(H) && lists == old(lists) && fs == old(fs) && cover == old(cover)
      ensures exempt && r == 0 ==> forall h :: h in lists[index] ==> !Fits(h, n, maySplit)
    {
      var start := heads[index];
      ghost var k := 0;
      ListHead(index);
      while true
        invariant Sound() && From(old(H), old(owner), old(cover)) && At(index, k, start)
        invariant exempt ==> k == 0 && H == old(H) && lists == old(lists) && fs == old(fs) && cover == old(cover)
        decreases |cover|
      {
        var hbp, c := Search(start, n, eff, exempt, index, maySplit, k);
        if hbp == 0 { return 0; }
        if c.Take? {
          TakeNth(hbp, c.at, n, index, old(H), old(owner), old(cover));
          return c.at;
        }
        start, k := DropNth(hbp, index, old(H), old(owner), old(cover));
      }
    }

    method TakeNth(hbp: nat, at: nat, n: nat, index: nat, ghost H0: Hdrs, ghost o0: Owner, ghost c0: set<nat>)
      requires Sound() && hbp in fs && index == Fl(H[hbp].sz) && n > 0 && From(H0, o0, c0)
      requires hbp <= at && at + n <= hbp + H[hbp].sz
      modifies this`H, this`heads, this`bytes, this`lists, this`owner, this`fs, this`cover, this`large
      ensures Sound() && From(H0, o0, c0) && InUse(H, at) && H[at].sz == n && !InUse(H0, at)
      ensures forall x :: at <= x < at + n ==> x in c0 && x !in cover
    {
      ghost var i := MakeInterval(at, n);
      assert IsFree(H, hbp);
      if at != hbp { RestIsNew(H, owner, hbp, at); }
      assert !InUse(H, at);
      ghost var H1 := H;
      TakeAt(hbp, at, n, index, i);
      forall x: nat | InUse(H0, x) ensures InUse(H, x) && H[x].sz == H0[x].sz {
        assert InUse(H1, x);
      }
      forall x | at <= x < at + n ensures x in c0 && x !in cover { assert x in i; }
    }

    /** Drop hbp and go on after the block before it, or from the start. */
    method DropNth(hbp: nat, index: nat, ghost H0: Hdrs, ghost o0: Owner, ghost c0: set<nat>)
      returns (next: nat, ghost k: nat)
      requires Sound() && index <= N_HBLK_FLS && hbp in lists[index] && From(H0, o0, c0)
      modifies this`H, this`heads, this`bytes, this`lists, this`owner, this`fs, this`cover, this`large
      ensures Sound() && From(H0, o0, c0) && At(index, k, next) && |cover| < |old(cover)|
    {
      PrevOf(index, hbp);
      var prev := H[hbp].prev;
      ghost var i := MakeInterval(hbp, H[hbp].sz);
      ghost var H1 := H;
      DropBlock(hbp, index, i);
      StillTrans(H0, H1, H);
      next, k := GoOn(prev, index);
    }

    lemma PrevOf(index: nat, hbp: nat)
      requires Listed(fs, 0, 0) && index <= N_HBLK_FLS && hbp in lists[index]
      ensures hbp in fs && hbp in H && Fl(H[hbp].sz) == index
      ensures H[hbp].prev != 0 ==> H[hbp].prev in fs && H[hbp].prev in H && H[hbp].prev != hbp
      ensures H[hbp].prev != 0 ==> Fl(H[H[hbp].prev].sz) == index
    {
      var s := lists[index];
      var p :| 0 <= p < |s| && s[p] == hbp;
      assert ListOK(H, heads[index], bytes[index], s, fs, index, 0, 0);
      OnList(index, p);
      if p > 0 { OnList(index, p - 1); }
    }

    /** Where the search goes on after the block prev, or 0. */
    method GoOn(prev: nat, index: nat) returns (next: nat, ghost k: nat)
      requires Listed(fs, 0, 0) && index <= N_HBLK_FLS
      requires (prev != 0 ==> prev in fs && prev in H && Fl(H[prev].sz) == index)
      ensures At(index, k, next)
    {
      if prev == 0 {
        next, k := heads[index], 0;
        ListHead(index);
      } else {
        assert prev in lists[Idx(H, prev, 0, 0)];
        ghost var j :| 0 <= j < |lists[index]| && lists[index][j] == prev;
        OnList(index, j);
        next, k := H[prev].next, j + 1;
      }
    }

    /** GC_enough_large_bytes_left: the highest list such that the large blocks in
        use and the free blocks from that list on make up enough, or 0. */
    method EnoughLargeBytesLeft(allocd: nat, enough: nat) returns (n: nat)
      requires |bytes| == N_HBLK_FLS + 1
      ensures n <= N_HBLK_FLS
      ensures forall m :: n < m <= N_HBLK_FLS ==> allocd + Total(bytes, m) < enough
      ensures n > 0 ==> allocd + Total(bytes, n) >= enough
    {
      var sum: int := allocd;
      n := N_HBLK_FLS + 1;
      while n > 0
        invariant n <= N_HBLK_FLS + 1 && sum == allocd + Total(bytes, n)
        invariant forall m :: n <= m <= N_HBLK_FLS ==> allocd + Total(bytes, m) < enough
      {
        n := n - 1;
        sum := sum + bytes[n];
        if sum >= enough { return; }
      }
    }

    /** GC_allochblk: an exact match, or else a part of a larger block.  With
        useAll, a kind exempt from black-listing gets 0 only if there is no free
        block that is large enough. */
    method Alloc(n: nat, eff: nat, exempt: bool, useAll: bool, avoid: bool, allocd: nat, enough: nat) returns (r: nat)
      requires Valid() && n > 0
      requires black.Valid()
      modifies this`H, this`heads, this`bytes, this`lists, this`owner, this`fs, this`cover, this`large, this`count
      ensures Valid() && From(old(H), old(owner), old(cover))
      ensures r != 0 ==> InUse(H, r) && H[r].sz == n && !InUse(old(H), r)
      ensures r != 0 ==> forall x :: r <= x < r + n ==> x in old(cover) && x !in cover
      ensures r != 0 && !exempt && n <= blLimit ==> !BlackList.Listed(black, r, eff)
      ensures exempt && useAll && r == 0 && n < LIMIT ==> forall h :: IsFree(H, h) ==> H[h].sz < n
    {
      if n >= LIMIT { return 0; }
      var start := Fl(n);
      r := AllocNth(n, eff, exempt, start, false);
      if r != 0 { return; }
      var limit := N_HBLK_FLS;
      if !useAll {
        if avoid { limit := 0; } else { limit := EnoughLargeBytesLeft(allocd, enough); }
      }
      if start < UNIQUE_THRESHOLD { start := start + 1; }
      r := AllocLarger(n, eff, exempt, start, limit, old(H), old(owner), old(cover));
      if r == 0 && exempt && useAll { Complete(n, start); }
    }

    /** Try the lists start..limit, splitting blocks. */
    method AllocLarger(n: nat, eff: nat, exempt: bool, start: nat, limit: nat, ghost H0: Hdrs, ghost o0: Owner,
                       ghost c0: set<nat>)
      returns (r: nat)
      requires Valid() && n > 0 && limit <= N_HBLK_FLS && From(H0, o0, c0)
      requires black.Valid()
      modifies this`H, this`heads, this`bytes, this`lists, this`owner, this`fs, this`cover, this`large, this`count
      ensures Valid() && From(H0, o0, c0)
      ensures r != 0 ==> InUse(H, r) && H[r].sz == n && !InUse(H0, r)
      ensures r != 0 ==> forall x :: r <= x < r + n ==> x in c0 && x !in cover
      ensures r != 0 && !exempt && n <= blLimit ==> !BlackList.Listed(black, r, eff)
      ensures exempt && r == 0 ==> H == old(H) && lists == old(lists) && fs == old(fs) && cover == old(cover)
      ensures exempt && r == 0 ==> forall j :: start <= j <= limit ==> NoneFits(j, n)
    {
      var i := start;
      r := 0;
      while i <= limit
        invariant Valid() && From(H0, o0, c0) && start <= i
        invariant exempt ==> H == old(H) && lists == old(lists) && fs == old(fs) && cover == old(cover)
        invariant exempt ==> forall j :: start <= j < i ==> NoneFits(j, n)
      {
        r := AllocStep(n, eff, exempt, i, H0, o0, c0);
        if r != 0 { return; }
        i := i + 1;
      }
    }

    ghost predicate NoneFits(j: nat, n: nat)
      reads this`H, this`lists
    {
      j < |lists| && forall h {:trigger h in lists[j]} :: h in lists[j] ==> !Fits(h, n, true)
    }

    method AllocStep(n: nat, eff: nat, exempt: bool, i: nat, ghost H0: Hdrs, ghost o0: Owner, ghost c0: set<nat>)
      returns (r: nat)
      requires Valid() && n > 0 && i <= N_HBLK_FLS && From(H0, o0, c0)
      requires black.Valid()
      modifies this`H, this`heads, this`bytes, this`lists, this`owner, this`fs, this`cover, this`large, this`count
      ensures Valid() && From(H0, o0, c0)
      ensures r != 0 ==> InUse(H, r) && H[r].sz == n && !InUse(H0, r)
      ensures r != 0 ==> forall x :: r <= x < r + n ==> x in c0 && x !in cover
      ensures r != 0 && !exempt && n <= blLimit ==> !BlackList.Listed(black, r, eff)
      ensures exempt && r == 0 ==> H == old(H) && lists == old(lists) && fs == old(fs) && cover == old(cover)
      ensures exempt && r == 0 ==> NoneFits(i, n)
    {
      ghost var H1 := H;
      r := AllocNth(n, eff, exempt, i, true);
      StillTrans(H0, H1, H);
      assert r != 0 ==> !InUse(H0, r) by { assert InUse(H0, r) ==> InUse(H1, r); }
    }

    /** All lists from start on, and the one for blocks of exactly n, hold nothing
        that fits: there is no free block that is large enough. */
    lemma Complete(n: nat, start: nat)
      requires Valid() && start == (if Fl(n) < UNIQUE_THRESHOLD then Fl(n) + 1 else Fl(n))
      requires forall j :: start <= j <= N_HBLK_FLS ==> NoneFits(j, n)
      requires forall h :: h in lists[Fl(n)] ==> !Fits(h, n, false)
      ensures forall h :: IsFree(H, h) ==> H[h].sz < n
    {
      forall h: nat | IsFree(H, h) && H[h].sz >= n ensures false {
        assert h in fs;
        assert h in lists[Idx(H, h, 0, 0)];
        assert h != 0;
        FlMonotone(n, H[h].sz);
        assert Fl(H[h].sz) >= start ==> NoneFits(Fl(H[h].sz), n);
      }
    }

    /** A header for n blocks from p on, which are not part of the heap yet. */
    method Install(p: nat, n: nat, ghost i: set<nat>)
      requires Sound() && 0 < p && 0 < n && IsInterval(i, p, n) && forall x :: x in i ==> x !in owner
      modifies this`H, this`owner
      ensures Sound() && InUse(H, p) && H[p].sz == n && SameUsed(old(H), H, p) && !InUse(old(H), p)
      ensures owner.Keys == old(owner).Keys + i && |owner| == |old(owner)| + n
    {
      ghost var H0 := H;
      assert p !in H by {
        assert p in i;
        assert p in H ==> Piece(H, owner, p);
        assert Piece(H, owner, p) ==> Owns(owner, p, p);
      }
      H := H[p := Hdr(n, false, 0, 0)];
      InstallKeeps(H0, H, owner, fs, cover, p, n, i);
      ListsSame(H0, H, heads, bytes, lists, fs, 0, 0);
      owner := Grown(owner, p, i);
    }

    /** GC_add_to_heap: n blocks from p on, which are not part of the heap yet, are
        added; those at address zero and at the end of the address space are not. */
    method AddToHeap(p0: nat, n0: nat)
      requires Valid() && n0 > 0 && p0 + n0 <= 2 * LIMIT
      requires forall x :: p0 <= x < p0 + n0 ==> x !in owner
      modifies this`H, this`heads, this`bytes, this`lists, this`owner, this`fs, this`cover, this`large, this`heapSize
      ensures Valid() && UsedAlike(old(H), H)
      ensures forall x: nat :: x in owner <==>
                x in old(owner) || (p0 <= x < p0 + n0 && 1 < x && x != 2 * LIMIT - 1)
      ensures forall x: nat :: x in cover <==>
                x in old(cover) || (p0 <= x < p0 + n0 && 1 < x && x != 2 * LIMIT - 1)
    {
      var p, n := p0, n0;
      while p <= 1
        invariant n > 0 && p + n == p0 + n0 && (p == p0 || p0 < p <= 2)
      {
        p, n := p + 1, n - 1;
        if n == 0 { return; }
      }
      if p + n == 2 * LIMIT {
        n := n - 1;
        if n == 0 { return; }
      }
      Append(p, n);
    }

    /** Add n blocks from p on as one free block. */
    method Append(p: nat, n: nat)
      requires Valid() && 0 < p && 0 < n && forall x :: p <= x < p + n ==> x !in owner
      modifies this`H, this`heads, this`bytes, this`lists, this`owner, this`fs, this`cover, this`large, this`heapSize
      ensures Valid() && UsedAlike(old(H), H)
      ensures forall x: nat {:trigger x in owner} :: x in owner <==> x in old(owner) || p <= x < p + n
      ensures forall x: nat {:trigger x in cover} :: x in cover <==> x in old(cover) || p <= x < p + n
    {
      ghost var i := MakeInterval(p, n);
      Install(p, n, i);
      ghost var H1 := H;
      Free(p, i);
      heapSize := heapSize + n;
      AppendUsed(old(H), H1, H, p);
    }
  }

  /** What to do with a free block that is being considered. */
  datatype Choice = Skip | Take(at: nat) | GiveUp

  lemma AppendUsed(a: Hdrs, b: Hdrs, c: Hdrs, p: nat)
    requires SameUsed(a, b, p) && SameUsed(b, c, p) && !InUse(a, p) && !InUse(c, p)
    ensures UsedAlike(a, c)
  {
    forall x: nat ensures (InUse(a, x) <==> InUse(c, x)) && (InUse(a, x) ==> c[x].sz == a[x].sz) {
      assert x != p ==> (InUse(a, x) <==> InUse(b, x)) && (InUse(b, x) <==> InUse(c, x));
    }
  }

  ghost function Grown(owner: Owner, p: nat, i: set<nat>): Owner { owner + map x | x in i :: p }

  lemma InstallKeeps(H: Hdrs, H': Hdrs, owner: Owner, fs: set<nat>, cover: set<nat>, p: nat, n: nat, i: set<nat>)
    requires Divided(H, owner) && FreeAre(H, fs) && Covers(H, owner, cover) && Coalesced(H, |owner|, 0)
    requires 0 < p && 0 < n && p !in H && H' == H[p := Hdr(n, false, 0, 0)]
    requires IsInterval(i, p, n) && forall x :: x in i ==> x !in owner
    ensures var o := Grown(owner, p, i);
            && Divided(H', o) && FreeAre(H', fs) && Covers(H', o, cover) && Coalesced(H', |o|, 0)
            && o.Keys == owner.Keys + i && |o| == |owner| + n && SameUsed(H, H', p)
  {
    var o := Grown(owner, p, i);
    assert o.Keys == owner.Keys + i && |o.Keys| == |o| && |owner.Keys| == |owner|;
    forall h | h in H' ensures Piece(H', o, h) {
      if h != p {
        assert Piece(H, owner, h);
        forall x | h <= x < h + H'[h].sz ensures Owns(o, h, x) { assert Owns(owner, h, x); }
      } else {
        forall x: nat | p <= x < p + n ensures Owns(o, p, x) { assert x in i; }
      }
    }
    forall x | x in o ensures Lies(H', o, x) {
      if x in owner { assert Lies(H, owner, x); }
    }
    forall x: nat ensures x in fs <==> IsFree(H', x) { assert x in fs <==> IsFree(H, x); }
    forall x: nat ensures x in cover <==> FreeAt(H', o, x) { assert x in cover <==> FreeAt(H, owner, x); }
    forall a: nat, b: nat | Touch(H', a, b) ensures Touch(H, a, b) {}
  }

  /** The sum of the elements from index n on. */
  ghost function Total(s: seq<int>, n: nat): int
    decreases |s| - n
  {
    if n >= |s| then 0 else s[n] + Total(s, n + 1)
  }

  /** Two pieces that end at the same place are one. */
  lemma EndsOnce(H: Hdrs, owner: Owner, a: nat, b: nat)
    requires Divided(H, owner) && a in H && b in H && a + H[a].sz == b + H[b].sz
    ensures a == b
  {
    assert Piece(H, owner, a) && Piece(H, owner, b);
    var x := a + H[a].sz - 1;
    assert Owns(owner, a, x) && Owns(owner, b, x);
  }

  lemma CutUsed(H: Hdrs, H': Hdrs, h: nat, m: nat)
    requires Cut(H, H', h, m)
    ensures UsedAlike(H, H')
  {
  }

  lemma AlikeParted(H: Hdrs, H': Hdrs, owner: Owner, fs: set<nat>, cover: set<nat>, n: nat, odd: nat)
    requires Alike(H, H') && Divided(H, owner) && FreeAre(H, fs) && Covers(H, owner, cover) && Coalesced(H, n, odd)
    ensures Divided(H', owner) && FreeAre(H', fs) && Covers(H', owner, cover) && Coalesced(H', n, odd)
    ensures UsedAlike(H, H')
  {
    SameDivided(H, H', owner);
    forall x: nat ensures IsFree(H', x) == IsFree(H, x) && InUse(H', x) == InUse(H, x) {}
    forall x: nat ensures FreeAt(H', owner, x) == FreeAt(H, owner, x) {}
    forall a: nat, b: nat ensures Touch(H', a, b) == Touch(H, a, b) {}
  }
}
